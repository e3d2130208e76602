# Sol OS kernel: a verified model

A Dafny model of the parts of the Sol OS kernel whose correctness depends on whole runs or whole data structures:
the read-only FAT32 reader over a RAM disk, the lock-free key queue and scancode decoder, the line editor with its
history, the framebuffer text console, and the bump heap with its physical frame allocator.

`dafny verify dfyconfig.toml` checks everything.

## How the model is organised

| modules | kernel file |
|---|---|
| `Storage` | `kernel/src/storage.rs` |
| `ShortNames`, `Fat32`, `ClusterWalk`, `FatChain`, `FileReader`, `Directory`, `Paths` | `kernel/src/fat32.rs` |
| `KeyEvents`, `KeyQueue`, `Scancodes` | `kernel/src/keyboard.rs` |
| `History`, `Editing`, `EditLoop`, `ShellScreen`, `Shell` | `kernel/src/shell.rs` |
| `TextGrid`, `Pixels`, `Rendering`, `Framebuffer` | `kernel/src/framebuffer.rs` |
| `BumpHeap` | `kernel/src/allocator.rs` |
| `Frames` | `kernel/src/memory.rs` |
| `Machine` | integer widths, little-endian reads, bit masks |

Conventions:

- `u32`, `usize` and `byte` are bounded subset types, so every sum or product stored in one is proved not to overflow;
  the source's `checked_add` and `checked_mul` appear as explicit branches.
- Products and quotients of two variables are written `Times` and `Quotient`, by repeated addition and subtraction.
  `Machine.TimesIsProduct` and `Machine.QuotientIsDivision` show that these are `*` and `/`.
- A stateful Rust closure passed as a visitor is a function of everything it has been offered so far.
- Each loop of the source is a method with a loop, proved equal to a specification function (`ReadOutcome`,
  `VisitOutcome`, `ResolveOutcome`, `Apply`, `Write`, `Screen`, ...). The lemmas say what those functions mean, against
  raw bytes, key rows, cells and pixel places written out rather than through the model's own constants.
- The key queue and the heap are state machines whose steps are single atomic operations, in any interleaving. For the
  key queue an acquire load may return any store that is not older than the last one the loading side has seen; slots
  are plain memory, which `KeyQueue.NoSlotRace` and `KeyQueue.ReadIsPublished` justify.
- The font raster, what a command prints, how many page-table frames the mapper takes, and how often a weak
  compare-exchange fails are parameters.

Three places where the behaviour differs from what one might expect, kept as the code has them:

- `scroll` moves the lower part of the top line into the top border. The screen theorem therefore covers every pixel,
  with the line that last scrolled off kept as line 0 of the grid.
- With stale acquire loads a push can drop an event although the queue has room: `KeyQueue.StaleLoadDropsEarly` gives
  such a run. `KeyQueue.DropsAndMissesAreJustified` gives the exact condition. So there are two trace theorems: a strict
  FIFO when loads return the newest store, and a FIFO with delayed views for every run.
- `used` and `capacity` each read two cells. Read in the order of `meminfo`, used never exceeds capacity; in the other
  order it can, if capacity is read before `init` stores the end (`BumpHeap.CapacityReadFirstFails`).
  `BumpHeap.ReportsAgreeExactly` gives the exact condition, which the reads of `kernel/src/main.rs:84-95`, made after
  `init` has returned, meet.

## Model

| member | source | states |
|---|---|---|
| `Storage.FromBootInfo` | kernel/src/storage.rs:30-41 | a disk is accepted iff one is mapped and it is a positive whole number of sectors; an absent one and a malformed one give their own errors |
| `Storage.SectorAt` | kernel/src/storage.rs:45-62 | a sector is readable exactly when its number is below the sector count, and byte i of it is byte 512 * lba + i of the disk; otherwise out of range |
| `Storage.ReadSector` | kernel/src/storage.rs:49-62 | success exactly when the sector exists; the buffer then holds its bytes and is untouched otherwise; no 64-bit overflow |
| `ShortNames.AppendField` | kernel/src/fat32.rs:334-343 | the copying loop appends the field up to its padding and stops exactly on a non-ASCII byte |
| `ShortNames.FromRaw` | kernel/src/fat32.rs:331-372 | the buffer-building code computes the decoding of a record for all 32-byte records, whose fields `DecodeUndoesEncode` and `NameIsCutAtPadding` state |
| `ShortNames.DecodedNameIsAscii` | kernel/src/fat32.rs:57-61 | every decoded name is ASCII and 1 to 12 bytes long, so the unchecked UTF-8 view is sound |
| `ShortNames.DecodeUndoesPacking` | kernel/src/fat32.rs:331-372 | decoding a space-padded 8.3 record gives back its base and extension |
| `ShortNames.DecodeUndoesEncode` | kernel/src/fat32.rs:331-372 | decoding a record laid out as the FAT specification says gives back name, attributes, first cluster and size |
| `ShortNames.NameIsCutAtPadding` | kernel/src/fat32.rs:332-362 | the name of any record whatever, by the places of its first spaces: what is shown, and when there is none |
| `ShortNames.DirectoryBit` | kernel/src/fat32.rs:63-65 | an entry is a directory iff bit 4 of its attributes is set |
| `ShortNames.PackedNamesAreInjective` | kernel/src/fat32.rs:331-372 | two packed dot-free names show the same name iff their records hold the same name |
| `Fat32.MountAcceptsExactly` | kernel/src/fat32.rs:73-138 | a disk mounts iff it has the signature and raw fields that meet the rules in unbounded arithmetic |
| `Fat32.MountRejectsExactly` | kernel/src/fat32.rs:73-127 | exactly which disks are refused with which of the three errors, in the order of the tests and in unbounded arithmetic |
| `Fat32.PowerOfTwoForms` | kernel/src/fat32.rs:93-93 | the accepted cluster sizes are exactly the powers of two |
| `Fat32.HeaderRules` | kernel/src/fat32.rs:91-102 | the header test is the rules over the raw fields, cluster sizes being 1 to 128 in powers of two |
| `Fat32.MountedIsWellFormed` | kernel/src/fat32.rs:109-137 | a mounted volume has exactly the FAT place, FAT size, cluster size, root and cluster count of its boot sector; its areas are ordered, disjoint and inside the device |
| `Fat32.ClusterEndFits` | kernel/src/fat32.rs:120-121 | `cluster_count + 2` does not overflow during `mount` |
| `Fat32.AddTwoFits` | kernel/src/fat32.rs:325-327 | `cluster_count + 2` never overflows on a mounted volume |
| `Fat32.ParseReadsLayout` | kernel/src/fat32.rs:77-89 | parsing gives exactly the fields laid out in the sector, whatever its other bytes are |
| `Fat32.ClusterSectorInData` | kernel/src/fat32.rs:311-323 | every (cluster, index) of a volume names a readable sector of the data area; no checked operation fails |
| `Fat32.ClusterToSectorInjective` | kernel/src/fat32.rs:311-323 | different (cluster, index) pairs name different sectors |
| `Fat32.NextClusterIsFatWord` | kernel/src/fat32.rs:284-301 | a lookup reads only the first FAT, returns the 28-bit entry stored in the image, and fails only past the FAT's end |
| `Fat32.FatOfImage` | kernel/src/fat32.rs:284-301 | from the raw image: the entry of cluster c is the 28-bit word at byte reserved * 512 + 4 * c, and missing iff 4 * c is not below the FAT size |
| `FatChain.ChainIsOnDisk` | kernel/src/fat32.rs:284-309 | the clusters the code follows form a chain of the on-disk format |
| `FatChain.OnDiskChainIsFollowed` | kernel/src/fat32.rs:284-309 | every on-disk chain is the one the code follows |
| `FatChain.LongChainRevisits` | kernel/src/fat32.rs:174-195 | pigeonhole: more hops than clusters revisit a cluster |
| `ClusterWalk.RevisitingWalkNeverEnds` | kernel/src/fat32.rs:252-281 | a chain that revisits a cluster never stops |
| `FatChain.SectorOfCluster` | kernel/src/fat32.rs:179-180 | reading sector i of a cluster yields its part of the cluster's bytes and cannot fail |
| `FatChain.ClusterOfImage` | kernel/src/fat32.rs:311-323 | from the raw image: which bytes of the disk are the bytes of cluster c |
| `FatChain.StopIsMarked` | kernel/src/fat32.rs:189-193 | a chain ends exactly at an end mark, and is corrupt exactly at a missing, bad or invalid entry |
| `FileReader.StreamCluster` | kernel/src/fat32.rs:175-184 | one cluster is handed out in whole sectors up to the remaining size, with no error exit taken |
| `FileReader.StreamClusters` | kernel/src/fat32.rs:171-195 | the cluster loop computes `ReadOutcome`: result and all delivered bytes |
| `FileReader.StreamFile` | kernel/src/fat32.rs:160-196 | the same with the directory, empty-file and first-cluster exits, in whole-sector chunks |
| `FileReader.ClustersNeededIsCeiling` | kernel/src/fat32.rs:171-195 | the number of clusters a file needs is ceil(size / cluster bytes) |
| `FileReader.ReadSucceedsExactly` | kernel/src/fat32.rs:156-196 | a nonempty read succeeds iff an on-disk chain of ceil(size / cluster bytes) clusters exists and the guard allows it |
| `FileReader.ReadWithoutChain` | kernel/src/fat32.rs:164-169 | an empty file reads as nothing whatever its first cluster; a nonempty one with an invalid first cluster delivers nothing |
| `FileReader.ReadIsChainPrefix` | kernel/src/fat32.rs:156-196 | what is read is exactly the first `size` bytes of that chain |
| `FileReader.FailedReadDeliversWholeClusters` | kernel/src/fat32.rs:186-193 | a truncated or corrupt file delivers exactly the whole clusters before the mark that stopped it |
| `FileReader.ReadLoopExactly` | kernel/src/fat32.rs:174-195 | the loop error occurs iff the file needs more than cluster_count + 1 clusters and its chain revisits one, after exactly that many clusters |
| `FileReader.ReadNeverFailsOnDevice` | kernel/src/fat32.rs:156-196 | the only errors of a read, none of them a device error |
| `Directory.VisitRecord` | kernel/src/fat32.rs:256-272 | terminator, skipped, undecodable and offered records are told apart as specified |
| `Directory.RecordOutcome` | kernel/src/fat32.rs:257-271 | what each record does to the scan, by its raw first byte and attribute bits; the long-name test adds nothing to the volume bit |
| `Directory.VisitSector` | kernel/src/fat32.rs:256-272 | the record loop continues the scan over the 16 records of a sector |
| `Directory.VisitCluster` | kernel/src/fat32.rs:253-273 | the sector loop continues the scan over a whole cluster, with no error exit taken |
| `Directory.RecordsArePieces` | kernel/src/fat32.rs:252-256 | the records scanned are the consecutive 32-byte pieces of the bytes of the directory's chain |
| `Directory.VisitDirectory` | kernel/src/fat32.rs:242-282 | the three loops compute `VisitOutcome`: result and every entry offered |
| `Directory.ScanOffersEntries` | kernel/src/fat32.rs:256-272 | the visitor is offered the live entries before the terminator in order, through the first it refuses |
| `Directory.VisitorThatNeverStopsSeesAll` | kernel/src/fat32.rs:242-282 | a visitor that never refuses sees exactly the directory's entry list |
| `Directory.VisitWholeDirectory` | kernel/src/fat32.rs:242-282 | a directory given by its on-disk chain: which entries are offered, and which result its terminator, refusal, end mark or broken link gives |
| `Directory.VisitLoopExactly` | kernel/src/fat32.rs:252-281 | the loop error occurs iff the chain revisits a cluster, no record is a terminator and the visitor never refuses, after cluster_count + 1 clusters |
| `Directory.VisitNeverFailsOnDevice` | kernel/src/fat32.rs:242-282 | the only results of a visit, none of them a device error |
| `Paths.FindInDirectory` | kernel/src/fat32.rs:229-240 | the result is the first live entry of the name before the terminator, else how the walk ends |
| `Paths.SameNameExactly` | kernel/src/fat32.rs:232-232 | names match iff their bytes agree up to the case of ASCII letters |
| `Paths.MatcherStops` | kernel/src/fat32.rs:229-240 | the closure stops exactly at the first case-insensitive match |
| `Paths.EarlyMatchHidesTheRest` | kernel/src/fat32.rs:229-282 | a match in the first clusters is the answer whatever follows on the disk |
| `Paths.FindInWholeDirectory` | kernel/src/fat32.rs:229-282 | looking a name up in a directory given by its on-disk chain: the first entry of that name, else NotFound, or CorruptFat at a broken link |
| `Paths.FindWithoutEnd` | kernel/src/fat32.rs:229-282 | looking a name up from an invalid cluster, or in a chain that goes round |
| `Paths.ResolvePath` | kernel/src/fat32.rs:202-227 | the loop equals descending through the components, with the order of its errors |
| `Paths.DescendComposes` | kernel/src/fat32.rs:202-227 | descending through a + b is descending through a and then b |
| `Paths.DescendOne` | kernel/src/fat32.rs:204-212 | descending through one name is looking it up, unless it is "." or ".." |
| `Paths.DotsFail` | kernel/src/fat32.rs:205-221 | a component "." or ".." fails once everything before it has resolved, with the error that the prefix decides |
| `Paths.ComponentsOfJoin` | kernel/src/fat32.rs:203-203 | joining paths with '/' joins their components, so extra slashes do not matter |
| `Paths.ComponentsUndoJoined` | kernel/src/fat32.rs:203-203 | splitting gives back the names that were joined |
| `Paths.AllSlashesHasNoComponents` | kernel/src/fat32.rs:144-144 | the root test of `list_dir` holds iff the path has no components |
| `Paths.ListDir` | kernel/src/fat32.rs:140-154 | listing resolves the path, rejects files, and visits the directory |
| `Paths.ReadFile` | kernel/src/fat32.rs:156-196 | reading by path delivers `ReadPathOutcome` in whole-sector chunks |
| `Paths.FilesAndDirectoriesApart` | kernel/src/fat32.rs:140-170 | what a path resolves to, by the directory bit, decides between contents, listing and the three errors of reading and listing |
| `Paths.FileIsDelivered` | kernel/src/fat32.rs:156-240 | end to end: if directory records lead along the path to a file and the FAT holds its chain, reading the path delivers exactly the first size bytes of that chain |
| `Paths.MountedNeverFailsOnDevice` | kernel/src/fat32.rs:73-282 | once a disk is mounted, no read or listing of any path reports a device error |
| `KeyQueue.NextInv` | kernel/src/keyboard.rs:48-74 | every atomic step of either side keeps the queue invariant, stale loads included |
| `KeyQueue.EveryRunIsFifo` | kernel/src/keyboard.rs:48-74 | in every interleaving: returned is a prefix of accepted, at most 255 queued, every push accounted for modulo 2^64 |
| `KeyQueue.ReturnedArePushed` | kernel/src/keyboard.rs:48-74 | in every interleaving what is popped is what `push` was called with, in order, less the dropped events; without a drop, exactly the first ones |
| `KeyQueue.NoSlotRace` | kernel/src/keyboard.rs:56-59 | a slot about to be written is neither unread nor being read, and its last read is visible to the producer |
| `KeyQueue.ReadIsPublished` | kernel/src/keyboard.rs:68-70 | a slot about to be read holds the next event, and its head store has been seen |
| `KeyQueue.StepRefinesFifo` | kernel/src/keyboard.rs:48-74 | a step whose load returns the newest store is a step of a strict bounded FIFO, which drops only when 255 are queued and returns nothing only when empty |
| `KeyQueue.EveryInterleavingShowsAFifoTrace` | kernel/src/keyboard.rs:48-74 | what any interleaving shows its callers when loads return the newest store, the strict FIFO shows too |
| `KeyQueue.StepRefinesDelayed` | kernel/src/keyboard.rs:48-74 | every step, stale loads included, is a step of a FIFO whose sides know a delayed part of it: it drops only if full counting unseen pops, and misses only if empty without unseen pushes |
| `KeyQueue.EveryRunShowsADelayedTrace` | kernel/src/keyboard.rs:48-74 | what any run at all shows its callers, the FIFO with delayed views shows too |
| `KeyQueue.DropsAndMissesAreJustified` | kernel/src/keyboard.rs:51-66 | a push drops, and a pop returns nothing, exactly when the store it loaded leaves no room, or no event; such a drop or miss is true of the queue iff the newest store was loaded |
| `KeyQueue.StaleLoadDropsEarly` | kernel/src/keyboard.rs:49-54 | a reachable run in which a stale tail load makes a push drop its event with 254 of 255 places taken |
| `KeyQueue.InputQueue.Push` | kernel/src/keyboard.rs:48-60 | a whole push appends the event if fewer than 255 are queued, else counts a drop |
| `KeyQueue.InputQueue.Pop` | kernel/src/keyboard.rs:62-74 | a whole pop removes and returns the oldest event, if any |
| `Scancodes.TablesAreClean` | kernel/src/keyboard.rs:172-252 | every character in the key tables is printable ASCII |
| `Scancodes.SymbolRows` | kernel/src/keyboard.rs:185-211 | the digit and symbol keys are the rows of a US keyboard, plain and shifted, and no others |
| `Scancodes.LetterRows` | kernel/src/keyboard.rs:217-246 | the letter keys are its three letter rows, and no others |
| `Scancodes.KeysAreDistinct` | kernel/src/keyboard.rs:185-252 | under the same modifiers no two keys give the same event |
| `Scancodes.CapsLockIsForLetters` | kernel/src/keyboard.rs:212-251 | Caps Lock changes exactly the letters, and Shift cancels it there |
| `Scancodes.Keyboard.Track` | kernel/src/keyboard.rs:125-162 | the bit operations on the statics follow the decoder, branch by branch; `StreamState` and `StreamTypes` say what the decoder does |
| `Scancodes.Keyboard.HandleScancode` | kernel/src/keyboard.rs:125-162 | one scancode advances the decoder and queues its event if there is room, and otherwise counts one drop |
| `Scancodes.StreamState` | kernel/src/keyboard.rs:126-154 | after any stream: Shift is held iff the last unprefixed shift code was a make, Caps Lock is the parity of unprefixed 0x3a |
| `Scancodes.StreamTypes` | kernel/src/keyboard.rs:125-162 | over every stream, a code adds exactly the event it types: the shifted symbol iff Shift is held, the capital iff Shift and Caps Lock differ, a control key, or after a prefix its extended key |
| `Scancodes.StreamIsClean` | kernel/src/keyboard.rs:125-162 | every event of any stream is clean |
| `History.CommandHistory.Store` | kernel/src/shell.rs:194-197 | writing the ring slot puts the line in front and keeps the newest 16 |
| `History.CommandHistory.Push` | kernel/src/shell.rs:182-198 | the ring read newest first is the remembered list: blank lines and repeats of the newest change nothing |
| `History.OnlyBlankLinesAreForgotten` | kernel/src/shell.rs:182-198 | a line of ASCII white space changes nothing, any other becomes the newest entry |
| `History.CommandHistory.CopyInto` | kernel/src/shell.rs:230-235 | the front of the output is the entry at that position |
| `History.CommandHistory.Previous` | kernel/src/shell.rs:200-220 | one position older; the line is saved as the draft exactly when browsing starts |
| `History.HistoryIsNewestDistinct` | kernel/src/shell.rs:182-198 | after any submissions: the newest 16 of the non-blank lines with immediate repeats collapsed |
| `History.HistoryHasNoRepeats` | kernel/src/shell.rs:182-198 | no two neighbours are equal, none is blank, at most 16 |
| `EditLoop.CopyWithin` | kernel/src/shell.rs:50-77 | overlapping moves shift the bytes and leave the rest alone |
| `EditLoop.LineEditor.InsertRun` | kernel/src/shell.rs:65-84 | on the arrays, a character or tab is the insertion that `TypingInserts` and `TabInserts` state |
| `EditLoop.LineEditor.Backspace` | kernel/src/shell.rs:48-56 | the in-place shift drops the byte left of the cursor |
| `EditLoop.LineEditor.DeleteForward` | kernel/src/shell.rs:57-64 | the in-place shift drops the byte right of the cursor |
| `EditLoop.LineEditor.MoveCursor` | kernel/src/shell.rs:85-100 | the cursor keys move the cursor and keep the text |
| `EditLoop.LineEditor.RecallOlder` | kernel/src/shell.rs:101-114 | Up shows the next older entry and saves the unfinished line first |
| `EditLoop.LineEditor.RecallNewer` | kernel/src/shell.rs:115-127 | Down shows the next newer entry, or the saved line |
| `EditLoop.LineEditor.Submit` | kernel/src/shell.rs:38-47 | Enter records and executes the line and starts an empty one |
| `EditLoop.LineEditor.Redraw` | kernel/src/shell.rs:143-153 | the printed text is the line over the old one, padded, and again up to the cursor |
| `EditLoop.LineEditor.HandleEvent` | kernel/src/shell.rs:36-129 | every event on the arrays is the same edit on (left text, right text), keeps cursor <= length <= 80 and the displayed length exact |
| `Editing.ApplyKeepsValid` | kernel/src/shell.rs:36-129 | the text always fits, and while browsing it is the entry browsed to |
| `Editing.TypingInserts` | kernel/src/shell.rs:75-84 | any typed text goes in before the cursor byte by byte until the line holds 80 |
| `Editing.TabInserts` | kernel/src/shell.rs:65-74 | a tab is four spaces, or nothing where they do not fit |
| `Editing.DeletingKeys` | kernel/src/shell.rs:48-64 | Backspace and Delete remove the byte left and right of the cursor, leave the history and redraw |
| `Editing.CursorKeysMove` | kernel/src/shell.rs:85-100 | the cursor keys keep the text and move the cursor by one or to an end |
| `Editing.BrowsingIsLossless` | kernel/src/shell.rs:85-127 | navigation that ends outside the history leaves the line as it was; inside, it shows the entry reached |
| `Editing.UpThenDownRestores` | kernel/src/shell.rs:101-127 | n times Up shows the n-th newest entry, n times Down restores the unfinished line, each with the cursor at its end |
| `Editing.TypeThenErase` | kernel/src/shell.rs:48-84 | typing a character and deleting it again, from either side, restores the text and the cursor |
| `Editing.HistoryOfSession` | kernel/src/shell.rs:36-129 | over any session the history is made of exactly the submitted lines, each at most 80 bytes |
| `Editing.ExecutedAreSubmitted` | kernel/src/shell.rs:38-47 | over every session the executed lines are the submitted ones, at each Enter the whole text on both sides of the cursor |
| `Editing.TypedLineIsExecuted` | kernel/src/shell.rs:36-129 | text typed on an empty line, navigated in at will and entered, is executed exactly as typed |
| `Editing.SubmittedArePrintable` | kernel/src/shell.rs:36-129 | clean events give printable lines, through draft and history too |
| `ShellScreen.RedrawShowsLine` | kernel/src/shell.rs:143-153 | a redraw leaves the row reading the prompt, the line and blanks, with the pen at the cursor |
| `ShellScreen.EnterOps` | kernel/src/shell.rs:38-47 | Enter puts on the console a newline, the command's own output, the prompt and the cursor, in that order |
| `ShellScreen.EventShowsLine` | kernel/src/shell.rs:36-129 | every event keeps that, whatever a submitted command prints up to a line start |
| `ShellScreen.EventKeepsCursor` | kernel/src/shell.rs:138-153 | no event leaves a visible cursor hidden |
| `ShellScreen.EverySessionShowsItsLine` | kernel/src/shell.rs:36-129 | so it holds after every session, if 85 cells fit the row |
| `ShellScreen.FirstPromptShowsLine` | kernel/src/shell.rs:24-25 | the first prompt shows the empty editor |
| `Shell.HandleKey` | kernel/src/shell.rs:36-129 | editor and pixel console together make one event's edit and screen change, and the cursor stays visible |
| `Shell.Drain` | kernel/src/shell.rs:36-130 | with events arriving between any two pops, the inner loop ends with an empty queue and has handled exactly the queued and accepted events in order, on arrays and pixels |
| `Shell.ServedAlone` | kernel/src/shell.rs:36-130 | without arrivals the events handled are the queued ones |
| `Shell.ServedInOrder` | kernel/src/shell.rs:36-130 | while they fit the queue, the events queued at entry are handled first and then the arriving ones in order |
| `Shell.TypedKeysArrive` | kernel/src/keyboard.rs:125-166 | as long as nothing is dropped, in every interleaving the loop has popped exactly the first events that the scancode stream types |
| `Shell.EveryCommandIsPrintable` | kernel/src/shell.rs:238-245 | for every scancode stream and interleaving, `execute` only gets printable ASCII of at most 80 bytes, so its UTF-8 error branch is dead |
| `Shell.EveryRunShowsItsLine` | kernel/src/shell.rs:36-130 | for every scancode stream, queue interleaving and stale load, the screen row reads the prompt and the line being edited, if 85 cells fit the row |
| `TextGrid.WritePlain` | kernel/src/framebuffer.rs:81-102 | printable text that fits the line is drawn over it and moves nothing else |
| `TextGrid.WriteWraps` | kernel/src/framebuffer.rs:81-110 | text of any length from any place fills line after line, scrolls by as many lines as do not fit, and changes no other cell; the pen is after the last glyph |
| `TextGrid.GlyphOnPaper` | kernel/src/framebuffer.rs:81-110 | glyph k of a text lies column + k cells after the start of the pen's line, non-ASCII as a question mark |
| `TextGrid.TabIsSpaces` | kernel/src/framebuffer.rs:201-205 | a tab writes four spaces |
| `TextGrid.BackspaceEmpties` | kernel/src/framebuffer.rs:112-123 | a backspace empties the cell before the pen and moves there, and does nothing at the line's start |
| `TextGrid.ReturnAndNewLineMove` | kernel/src/framebuffer.rs:104-137 | carriage return and newline move the pen; only a newline on the last line moves the text, up by one line |
| `TextGrid.NewLineIsBlank` | kernel/src/framebuffer.rs:104-110 | a newline leaves the pen at the start of a blank line, scrolled or not |
| `Pixels.FormatBytes` | kernel/src/framebuffer.rs:168-178 | the colour bytes of each pixel format |
| `Pixels.ShownExactly` | kernel/src/framebuffer.rs:167-178 | pixel (x, y) starts at byte (y * stride + x) * bytes_per_pixel |
| `Pixels.OffsetsDisjoint` | kernel/src/framebuffer.rs:163-182 | different pixels occupy disjoint bytes |
| `Pixels.ShownAfterWrite` | kernel/src/framebuffer.rs:163-182 | overwriting one pixel's bytes changes that pixel only |
| `Pixels.ShownAfterCopyUp` | kernel/src/framebuffer.rs:125-128 | the block copy moves the picture up by whole pixel rows |
| `Pixels.InvertedTwice` | kernel/src/framebuffer.rs:153-161 | inverting a rectangle twice restores the picture |
| `Pixels.InvertedExactly` | kernel/src/framebuffer.rs:184-192 | inversion turns each colour byte b inside the rectangle into 255 - b and leaves the others |
| `Rendering.BlendRange` | kernel/src/framebuffer.rs:214-222 | intensity 0 is background, 255 is foreground, and every other one lies between them |
| `Rendering.BlendIsWeighted` | kernel/src/framebuffer.rs:214-222 | each channel is the average of background and foreground weighted by intensity, rounded down |
| `Rendering.GlyphPixel` | kernel/src/framebuffer.rs:95-100 | inside a glyph, at 8 + column * (width + 1) and 8 + 18 * (row - 1), a pixel has the blend of the raster there |
| `Rendering.GapPixel` | kernel/src/framebuffer.rs:70-137 | every other pixel has the background colour |
| `Rendering.WrapTest` | kernel/src/framebuffer.rs:90-93 | the wrap test holds exactly when the pen is past the last column |
| `Rendering.ScrollTest` | kernel/src/framebuffer.rs:104-110 | the scroll test holds exactly when the pen is on the last line |
| `Rendering.DrawGlyph` | kernel/src/framebuffer.rs:95-101 | drawing a glyph turns the picture of a grid into that of the grid with the character |
| `Rendering.EraseGlyph` | kernel/src/framebuffer.rs:112-123 | clearing a cell turns it into that of the grid without the character |
| `Rendering.ScrollPicture` | kernel/src/framebuffer.rs:125-137 | copying up and clearing the bottom turns it into that of the scrolled grid, top border included |
| `Rendering.ClearPicture` | kernel/src/framebuffer.rs:70-79 | filling with background gives the picture of the empty grid |
| `Framebuffer.FramebufferWriter.WritePixel` | kernel/src/framebuffer.rs:163-182 | in-range writes set one pixel and zero a fourth byte, out-of-range writes change nothing; the offset never overflows 64 bits |
| `Framebuffer.FramebufferWriter.InvertPixel` | kernel/src/framebuffer.rs:184-192 | in-range inversions invert one pixel, out-of-range ones change nothing; the offset never overflows 64 bits |
| `Framebuffer.FramebufferWriter.PaintRect` | kernel/src/framebuffer.rs:70-137 | the nested pixel loops paint exactly their rectangle |
| `Framebuffer.FramebufferWriter.Clear` | kernel/src/framebuffer.rs:70-79 | whatever was shown, the result is the empty grid without cursor |
| `Framebuffer.FramebufferWriter.Scroll` | kernel/src/framebuffer.rs:125-137 | the picture moves up one text line and its bottom rows are background; the copied byte count never overflows 64 bits |
| `Framebuffer.FramebufferWriter.StartLine` | kernel/src/framebuffer.rs:104-110 | the pixels follow the grid to the next line, scrolling exactly on the last one |
| `Framebuffer.FramebufferWriter.WriteCharacter` | kernel/src/framebuffer.rs:81-102 | the pixels follow the grid through wrap and drawing, which `TextGrid.WriteWraps` states cell by cell |
| `Framebuffer.FramebufferWriter.EraseBack` | kernel/src/framebuffer.rs:112-123 | the pixels follow the grid through a backspace |
| `Framebuffer.FramebufferWriter.WriteStr` | kernel/src/framebuffer.rs:196-211 | after any text every pixel equals the rendering of the text grid |
| `Framebuffer.FramebufferWriter.ToggleCursor` | kernel/src/framebuffer.rs:153-161 | exactly the rectangle at the pen is inverted |
| `Framebuffer.FramebufferWriter.ShowCursor` | kernel/src/framebuffer.rs:139-144 | the picture is the text with the cursor rectangle inverted |
| `Framebuffer.FramebufferWriter.HideCursor` | kernel/src/framebuffer.rs:146-151 | hiding restores exactly the text picture |
| `Framebuffer.FramebufferWriter.Print` | kernel/src/framebuffer.rs:29-34 | printing hides the cursor first, so the text is written onto the text picture |
| `Framebuffer.FramebufferWriter.Run` | kernel/src/framebuffer.rs:23-40 | over every run of print, clear and show_cursor, every pixel is the text grid's, with the cursor rectangle inverted iff it was shown last |
| `Framebuffer.EveryByteShowsTheGrid` | kernel/src/framebuffer.rs:51-192 | every colour byte of the buffer is that of the grid's picture at its place, inverted exactly under a visible cursor of 2 by 16 pixels |
| `BumpHeap.AlignUpIsLeast` | kernel/src/allocator.rs:66-69 | the masked sum is the least multiple of the alignment not below `next` |
| `BumpHeap.FitIsExact` | kernel/src/allocator.rs:65-76 | the checked additions and the limit test refuse a request iff the heap is not initialised or no aligned block fits, and otherwise choose the least one |
| `BumpHeap.FitMonotone` | kernel/src/allocator.rs:65-76 | if a request does not fit, no later and no more demanding one does |
| `BumpHeap.NextInv` | kernel/src/allocator.rs:32-86 | every step of `alloc` and each store of `init` keeps the invariant, and `next` never decreases |
| `BumpHeap.BlocksAreDisjoint` | kernel/src/allocator.rs:60-86 | in every interleaving blocks are aligned, inside the final heap, pairwise disjoint and ascending |
| `BumpHeap.NullIsFinal` | kernel/src/allocator.rs:60-77 | once an initialised heap returned null, every later request at least as demanding gets null |
| `BumpHeap.ReportsExactly` | kernel/src/allocator.rs:46-56 | used is the bytes up to the end of the last block handed out, capacity the heap size, and both 0 before `init` stores them |
| `BumpHeap.UsedWithinCapacity` | kernel/src/allocator.rs:46-56 | load by load: if `used` is read first, as meminfo does, then used <= capacity, whatever steps fall between the four loads |
| `BumpHeap.ReportsAgreeExactly` | kernel/src/allocator.rs:46-56 | for loads in any order, used <= capacity iff nothing is reported used or the `end` store came before the capacity load |
| `BumpHeap.CapacityReadFirstFails` | kernel/src/allocator.rs:46-56 | a reachable run in which capacity is read before `init` stores it and used exceeds it |
| `BumpHeap.BumpAllocator.Alloc` | kernel/src/allocator.rs:60-86 | a lone caller gets null iff the heap is not initialised or no aligned block fits, else the least aligned block, after any number of spurious failures |
| `Frames.FloorIsDivision` | kernel/src/memory.rs:63-63 | the mask rounds down to a frame boundary |
| `Frames.CeilIsDivision` | kernel/src/memory.rs:116-118 | `align_up` rounds up to a frame boundary |
| `Frames.RegionFramesExact` | kernel/src/memory.rs:61-65 | a region offers exactly the whole frames inside it |
| `Frames.UsableFramesExact` | kernel/src/memory.rs:57-67 | the allocator's frames are exactly the whole frames of the usable regions |
| `Frames.UsableFramesInMapOrder` | kernel/src/memory.rs:57-67 | regions offer their frames in the order of the memory map |
| `Frames.UsableFramesDistinct` | kernel/src/memory.rs:57-67 | over disjoint regions no frame is offered twice |
| `Frames.BootInfoFrameAllocator.AllocateMany` | kernel/src/memory.rs:79-83 | k calls return the first min(k, count) frames in order and then nothing |
| `Frames.MapPage` | kernel/src/memory.rs:97-108 | one round takes the next frame for the page and the following ones for tables; it fails for want of frames iff they run out, else iff the mapper refuses |
| `Frames.MapHeap` | kernel/src/memory.rs:87-108 | it succeeds exactly when enough frames are left and nothing is refused, and then maps the 512 heap pages in order; else the error is that of the first page that fails |
| `Frames.InitHeap` | kernel/src/memory.rs:87-114 | only a fully mapped range reaches the bump allocator, and a failure names its reason |
| `Frames.UsesAreDistinct` | kernel/src/memory.rs:97-108 | over disjoint usable regions, heap pages and page tables never share a frame |
| `Frames.EveryUseIsUsable` | kernel/src/memory.rs:97-108 | every frame taken for a heap page or a page table lies inside a usable region |
| `Frames.PagesCoverHeap` | kernel/src/memory.rs:91-97 | the mapped pages cover exactly the range given to the bump allocator, each address once |

## Left out

- Port I/O and CPU tables: `gdt.rs`, `interrupts.rs`, `pic.rs`, `timer.rs`, `serial.rs`, `pci.rs` and the 8042 setup program devices and hold no whole-run property.
- The host side: `build.rs` and `src/main.rs` are thin uses of libraries.
- Shell commands: `execute` and what it prints are opaque, except that its output ends at the start of a line; formatting macros, `reboot` and `halt` are not modelled.
- Font rasters: glyphs are an abstract function of fixed width; that a space is drawn blank is not assumed, so a row "reads blanks" when each cell is empty or holds a space.
- Page tables: `map_to` is modelled as taking any number of frames and possibly refusing, not by the entries it writes.
- Weak memory beyond the key queue: the heap's atomics are interleaved sequentially; reordering of the relaxed stores of `init` is not modelled.
- Raw memory: the RAM disk is an immutable byte sequence and the spin locks are atomic sections.
- The fourth byte of a pixel: it is set to zero as in the source and takes no part in the picture.
- `dealloc` and `alloc_zeroed`: the first does nothing, the second adds clearing the block.
- A screen without room for one cell, or shorter than one line with its borders: the console theorems assume at least one cell.
