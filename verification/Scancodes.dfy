/** The set-1 scancode decoder that IRQ1 runs, and what a whole scancode stream makes of its state. */
module Scancodes {
  import opened Machine
  import opened KeyEvents
  import opened KeyQueue

  const PREFIX: byte := 0xe0
  const CAPS_CODE: byte := 0x3a
  const SHIFT: bv8 := 1
  const CAPS_LOCK: bv8 := 2

  predicate IsShiftMake(code: byte) {
    code == 0x2a || code == 0x36
  }

  predicate IsShiftBreak(code: byte) {
    code == 0xaa || code == 0xb6
  }

  // ---------- key tables ----------

  function ExtendedEvent(code: byte): Option<KeyEvent> {
    match code
    case 0x47 => Some(Home)
    case 0x48 => Some(Up)
    case 0x4b => Some(Left)
    case 0x4d => Some(Right)
    case 0x4f => Some(End)
    case 0x50 => Some(Down)
    case 0x53 => Some(Delete)
    case _ => None
  }

  /** The characters of a digit or symbol key, plain and shifted. */
  function SymbolKey(code: byte): Option<(char, char)> {
    match code
    case 0x02 => Some(('1', '!'))
    case 0x03 => Some(('2', '@'))
    case 0x04 => Some(('3', '#'))
    case 0x05 => Some(('4', '$'))
    case 0x06 => Some(('5', '%'))
    case 0x07 => Some(('6', '^'))
    case 0x08 => Some(('7', '&'))
    case 0x09 => Some(('8', '*'))
    case 0x0a => Some(('9', '('))
    case 0x0b => Some(('0', ')'))
    case 0x0c => Some(('-', '_'))
    case 0x0d => Some(('=', '+'))
    case 0x1a => Some(('[', '{'))
    case 0x1b => Some((']', '}'))
    case 0x27 => Some((';', ':'))
    case 0x28 => Some(('\'', '\"'))
    case 0x29 => Some(('`', '~'))
    case 0x2b => Some(('\\', '|'))
    case 0x33 => Some((',', '<'))
    case 0x34 => Some(('.', '>'))
    case 0x35 => Some(('/', '?'))
    case _ => None
  }

  /** The character of a letter key. */
  function LetterKey(code: byte): Option<char> {
    match code
    case 0x10 => Some('q')
    case 0x11 => Some('w')
    case 0x12 => Some('e')
    case 0x13 => Some('r')
    case 0x14 => Some('t')
    case 0x15 => Some('y')
    case 0x16 => Some('u')
    case 0x17 => Some('i')
    case 0x18 => Some('o')
    case 0x19 => Some('p')
    case 0x1e => Some('a')
    case 0x1f => Some('s')
    case 0x20 => Some('d')
    case 0x21 => Some('f')
    case 0x22 => Some('g')
    case 0x23 => Some('h')
    case 0x24 => Some('j')
    case 0x25 => Some('k')
    case 0x26 => Some('l')
    case 0x2c => Some('z')
    case 0x2d => Some('x')
    case 0x2e => Some('c')
    case 0x2f => Some('v')
    case 0x30 => Some('b')
    case 0x31 => Some('n')
    case 0x32 => Some('m')
    case _ => None
  }

  // The rows of a US keyboard, as the characters of their keys from left to right.

  ghost predicate SymbolRow(from: byte, plain: string, shifted: string) {
    && |plain| == |shifted| && from + |plain| <= 0x80
    && forall i :: 0 <= i < |plain| ==> SymbolKey(from + i) == Some((plain[i], shifted[i]))
  }

  ghost predicate LetterRow(from: byte, letters: string) {
    from + |letters| <= 0x80 && forall i :: 0 <= i < |letters| ==> LetterKey(from + i) == Some(letters[i])
  }

  /** The digit and symbol keys are these ... */
  lemma SymbolRows()
    ensures SymbolRow(0x02, "1234567890-=", "!@#$%^&*()_+")
    ensures SymbolRow(0x1a, "[]", "{}")
    ensures SymbolRow(0x27, ";'`", ":\"~")
    ensures SymbolRow(0x2b, "\\", "|")
    ensures SymbolRow(0x33, ",./", "<>?")
    ensures forall code: byte :: SymbolKey(code).Some? <==>
              || 0x02 <= code <= 0x0d || 0x1a <= code <= 0x1b || 0x27 <= code <= 0x29 || code == 0x2b
              || 0x33 <= code <= 0x35
  {
  }

  /** ... and the letter keys these. */
  lemma LetterRows()
    ensures LetterRow(0x10, "qwertyuiop")
    ensures LetterRow(0x1e, "asdfghjkl")
    ensures LetterRow(0x2c, "zxcvbnm")
    ensures forall code: byte :: LetterKey(code).Some? <==>
              0x10 <= code <= 0x19 || 0x1e <= code <= 0x26 || 0x2c <= code <= 0x32
  {
  }

  function Typed(c: char): KeyEvent
    requires c as int < 0x100
  {
    Character(c as int)
  }

  lemma KeysArePrintable(code: byte)
    ensures SymbolKey(code).Some? ==> ' ' <= SymbolKey(code).value.0 <= '~' && ' ' <= SymbolKey(code).value.1 <= '~'
    ensures LetterKey(code).Some? ==> 'a' <= LetterKey(code).value <= 'z'
  {
  }

  function LetterEvent(code: byte, uppercase: bool): Option<KeyEvent> {
    KeysArePrintable(code);
    match LetterKey(code)
    case None => None
    case Some(c) => Some(if uppercase then Character(c as int - 0x20) else Typed(c))
  }

  function AsciiEvent(code: byte, shift: bool, caps: bool): Option<KeyEvent> {
    KeysArePrintable(code);
    if code == 0x0e then Some(Backspace)
    else if code == 0x0f then Some(Tab)
    else if code == 0x1c then Some(Enter)
    else if code == 0x39 then Some(Typed(' '))
    else match SymbolKey(code)
         case Some((plain, shifted)) => Some(Typed(if shift then shifted else plain))
         case None => LetterEvent(code, shift != caps)
  }

  /** Every event of the tables is clean. */
  lemma TablesAreClean(code: byte, shift: bool, caps: bool)
    ensures AsciiEvent(code, shift, caps).Some? ==> IsClean(AsciiEvent(code, shift, caps).value)
    ensures ExtendedEvent(code).Some? ==> IsClean(ExtendedEvent(code).value)
  {
    KeysArePrintable(code);
    hide SymbolKey, LetterKey;
  }

  lemma SymbolKeysDiffer(a: byte, b: byte)
    requires SymbolKey(a).Some? && SymbolKey(b).Some? && a != b
    ensures SymbolKey(a).value.0 != SymbolKey(b).value.0 && SymbolKey(a).value.1 != SymbolKey(b).value.1
  {
  }

  lemma LetterKeysDiffer(a: byte, b: byte)
    requires LetterKey(a).Some? && LetterKey(b).Some? && a != b
    ensures LetterKey(a).value != LetterKey(b).value
  {
  }

  lemma SymbolsAreNotLetters(code: byte)
    requires SymbolKey(code).Some?
    ensures LetterKey(code).None? && code !in {0x0e, 0x0f, 0x1c, 0x39}
    ensures var (p, s) := SymbolKey(code).value;
            p != ' ' && s != ' ' && !('a' <= p <= 'z' || 'A' <= p <= 'Z') && !('a' <= s <= 'z' || 'A' <= s <= 'Z')
  {
  }

  /** Under the same modifiers no two keys give the same event. */
  lemma KeysAreDistinct(a: byte, b: byte, shift: bool, caps: bool)
    requires AsciiEvent(a, shift, caps).Some? && AsciiEvent(a, shift, caps) == AsciiEvent(b, shift, caps)
    ensures a == b
  {
    KeysArePrintable(a);
    KeysArePrintable(b);
    if SymbolKey(a).Some? {
      SymbolsAreNotLetters(a);
    }
    if SymbolKey(b).Some? {
      SymbolsAreNotLetters(b);
    }
    if a != b && SymbolKey(a).Some? && SymbolKey(b).Some? {
      SymbolKeysDiffer(a, b);
    }
    if a != b && LetterKey(a).Some? && LetterKey(b).Some? {
      LetterKeysDiffer(a, b);
    }
    hide SymbolKey, LetterKey;
  }

  /** Caps Lock changes letters only, and for letters Shift and Caps Lock cancel out. */
  lemma CapsLockIsForLetters(code: byte, shift: bool, caps: bool)
    ensures LetterKey(code).None? ==> AsciiEvent(code, shift, caps) == AsciiEvent(code, shift, !caps)
    ensures LetterKey(code).Some? ==>
              && AsciiEvent(code, shift, caps) == AsciiEvent(code, !shift, !caps)
              && AsciiEvent(code, shift, caps) != AsciiEvent(code, shift, !caps)
  {
    if SymbolKey(code).Some? {
      SymbolsAreNotLetters(code);
    }
    LettersAreNotOthers(code);
    hide SymbolKey, LetterKey;
  }

  lemma LettersAreNotOthers(code: byte)
    ensures LetterKey(code).Some? ==> SymbolKey(code).None? && code !in {0x0e, 0x0f, 0x1c, 0x39}
  {
  }

  // ---------- the decoder ----------

  datatype Decoder = Decoder(shift: bool, caps: bool, prefix: bool)

  const RESET := Decoder(false, false, false)

  /** One scancode: the next decoder state, and the event to queue if any. */
  function Decode(d: Decoder, code: byte): (Decoder, Option<KeyEvent>) {
    if code == PREFIX then (d.(prefix := true), None)
    else if d.prefix then (d.(prefix := false), if code < 0x80 then ExtendedEvent(code) else None)
    else if IsShiftMake(code) then (d.(shift := true), None)
    else if IsShiftBreak(code) then (d.(shift := false), None)
    else if code == CAPS_CODE then (d.(caps := !d.caps), None)
    else if code >= 0x80 then (d, None)
    else (d, AsciiEvent(code, d.shift, d.caps))
  }

  predicate ShiftBit(m: bv8) {
    m & SHIFT != 0
  }

  predicate CapsBit(m: bv8) {
    m & CAPS_LOCK != 0
  }

  // The three read-modify-write operations on MODIFIERS each touch one of the two bits.

  function SetShift(m: bv8): (r: bv8)
    ensures ShiftBit(r) && CapsBit(r) == CapsBit(m)
  {
    m | SHIFT
  }

  function ClearShift(m: bv8): (r: bv8)
    ensures !ShiftBit(r) && CapsBit(r) == CapsBit(m)
  {
    m & !SHIFT
  }

  function FlipCaps(m: bv8): (r: bv8)
    ensures ShiftBit(r) == ShiftBit(m) && CapsBit(r) != CapsBit(m)
  {
    m ^ CAPS_LOCK
  }

  /** The statics MODIFIERS, EXTENDED_PREFIX and INPUT_QUEUE, and `handle_scancode` over them. */
  class Keyboard {
    var modifiers: bv8
    var extendedPrefix: bool
    const queue: InputQueue

    ghost function State(): Decoder
      reads this
    {
      Decoder(ShiftBit(modifiers), CapsBit(modifiers), extendedPrefix)
    }

    constructor ()
      ensures State() == RESET && queue.Valid() && queue.Queued() == [] && fresh(queue) && fresh(queue.events)
    {
      modifiers, extendedPrefix := 0, false;
      queue := new InputQueue();
    }

    /** The prefix and modifier bookkeeping of `handle_scancode`, and the event it decides to queue. */
    method Track(code: byte) returns (event: Option<KeyEvent>)
      modifies this
      ensures (State(), event) == Decode(old(State()), code)
    {
      hide AsciiEvent, ExtendedEvent, ShiftBit, CapsBit, SetShift, ClearShift, FlipCaps;
      event := None;
      if code == PREFIX {
        extendedPrefix := true;
        return;
      }
      var prefixed := extendedPrefix;
      extendedPrefix := false;
      if prefixed {
        if code < 0x80 {
          event := ExtendedEvent(code);
        }
        return;
      }
      if IsShiftMake(code) {
        modifiers := SetShift(modifiers);
      } else if IsShiftBreak(code) {
        modifiers := ClearShift(modifiers);
      } else if code == CAPS_CODE {
        modifiers := FlipCaps(modifiers);
      } else if code < 0x80 {
        event := AsciiEvent(code, ShiftBit(modifiers), CapsBit(modifiers));
      }
    }

    method HandleScancode(code: byte)
      requires queue.Valid()
      modifies this, queue, queue.events
      ensures queue.Valid()
      ensures State() == Decode(old(State()), code).0
      ensures var e := Decode(old(State()), code).1;
              queue.Queued() == if e.Some? && |old(queue.Queued())| < CAPACITY - 1
                                then old(queue.Queued()) + [e.value] else old(queue.Queued())
      ensures var e := Decode(old(State()), code).1;
              queue.dropped == if e.Some? && |old(queue.Queued())| == CAPACITY - 1
                               then (old(queue.dropped) + 1) % USIZE_LIMIT else old(queue.dropped)
    {
      hide Decode;
      var event := Track(code);
      if event.Some? {
        queue.Push(event.value);
      }
    }
  }

  // ---------- whole streams ----------

  function After(codes: seq<byte>): Decoder {
    if codes == [] then RESET else Decode(After(codes[..|codes| - 1]), Last(codes)).0
  }

  function Events(codes: seq<byte>): seq<KeyEvent> {
    if codes == [] then []
    else
      var front := codes[..|codes| - 1];
      Events(front) + match Decode(After(front), Last(codes)).1
                      case None => []
                      case Some(e) => [e]
  }

  /** The code at `i` is neither a prefix byte nor right after one. */
  predicate Plain(codes: seq<byte>, i: int)
    requires 0 <= i < |codes|
  {
    codes[i] != 0xe0 && (i == 0 || codes[i - 1] != 0xe0)
  }

  // Left and right Shift have make codes 0x2a and 0x36, and break codes 0xaa and 0xb6.

  /** Some unprefixed shift make has no unprefixed shift break after it. */
  ghost predicate ShiftHeld(codes: seq<byte>) {
    exists i :: 0 <= i < |codes| && Plain(codes, i) && codes[i] in {0x2a, 0x36} && NoBreakAfter(codes, i)
  }

  ghost predicate NoBreakAfter(codes: seq<byte>, i: nat) {
    forall j :: i < j < |codes| ==> !(Plain(codes, j) && codes[j] in {0xaa, 0xb6})
  }

  function CapsPresses(codes: seq<byte>): nat {
    if codes == [] then 0
    else CapsPresses(codes[..|codes| - 1])
         + if Plain(codes, |codes| - 1) && Last(codes) == 0x3a then 1 else 0
  }

  lemma ShiftHeldStep(front: seq<byte>, code: byte)
    ensures var codes := front + [code];
            var plain := Plain(codes, |front|);
            ShiftHeld(codes) <==>
            (plain && code in {0x2a, 0x36}) || (ShiftHeld(front) && !(plain && code in {0xaa, 0xb6}))
  {
    var codes, n := front + [code], |front|;
    assert forall i :: 0 <= i < n ==> codes[i] == front[i] && Plain(codes, i) == Plain(front, i);
    if ShiftHeld(codes) {
      var i :| 0 <= i < |codes| && Plain(codes, i) && codes[i] in {0x2a, 0x36} && NoBreakAfter(codes, i);
      if i < n {
        assert NoBreakAfter(front, i);
      }
    }
    if Plain(codes, n) && code in {0x2a, 0x36} {
      assert NoBreakAfter(codes, n);
    } else if ShiftHeld(front) && !(Plain(codes, n) && code in {0xaa, 0xb6}) {
      var i :| 0 <= i < n && Plain(front, i) && front[i] in {0x2a, 0x36} && NoBreakAfter(front, i);
      assert NoBreakAfter(codes, i);
    }
  }

  /** After any stream: Shift is held iff the last unprefixed shift code was a make, and Caps Lock is a parity. */
  lemma {:induction false} StreamState(codes: seq<byte>)
    ensures After(codes).prefix <==> codes != [] && Last(codes) == 0xe0
    ensures After(codes).shift <==> ShiftHeld(codes)
    ensures After(codes).caps <==> CapsPresses(codes) % 2 == 1
  {
    hide AsciiEvent, ExtendedEvent;
    if codes == [] {
      assert !ShiftHeld(codes);
    } else {
      hide ShiftHeld;
      var front := codes[..|codes| - 1];
      StreamState(front);
      ShiftHeldStep(front, Last(codes));
      assert codes == front + [Last(codes)];
    }
  }

  // What the last code of a stream types, without the decoder: by the modifiers of the whole stream.

  function Capital(letter: char): int {
    'A' as int + (letter as int - 'a' as int)
  }

  ghost predicate TypesSymbol(codes: seq<byte>, e: KeyEvent)
    requires codes != []
  {
    SymbolKey(Last(codes)).Some?
    && var (plain, shifted) := SymbolKey(Last(codes)).value;
       e.Character? && e.code == (if ShiftHeld(codes) then shifted else plain) as int
  }

  ghost predicate TypesLetter(codes: seq<byte>, e: KeyEvent)
    requires codes != []
  {
    LetterKey(Last(codes)).Some?
    && var letter := LetterKey(Last(codes)).value;
       var capital := ShiftHeld(codes) != (CapsPresses(codes) % 2 == 1);
       e.Character? && e.code == if capital then Capital(letter) else letter as int
  }

  ghost predicate TypesControl(code: byte, e: KeyEvent) {
    || (code == 0x0e && e == Backspace) || (code == 0x0f && e == Tab) || (code == 0x1c && e == Enter)
    || (code == 0x39 && e == Character(0x20))
  }

  ghost predicate TypesExtended(code: byte, e: KeyEvent) {
    || (code == 0x47 && e == Home) || (code == 0x48 && e == Up) || (code == 0x4b && e == Left)
    || (code == 0x4d && e == Right) || (code == 0x4f && e == End) || (code == 0x50 && e == Down)
    || (code == 0x53 && e == Delete)
  }

  /** The last code of the stream types `e`. */
  ghost predicate LastTypes(codes: seq<byte>, e: KeyEvent)
    requires codes != []
  {
    if |codes| > 1 && codes[|codes| - 2] == 0xe0 then TypesExtended(Last(codes), e)
    else TypesSymbol(codes, e) || TypesLetter(codes, e) || TypesControl(Last(codes), e)
  }

  lemma TableTypes(codes: seq<byte>, e: KeyEvent)
    requires codes != []
    ensures AsciiEvent(Last(codes), ShiftHeld(codes), CapsPresses(codes) % 2 == 1) == Some(e) <==>
            TypesSymbol(codes, e) || TypesLetter(codes, e) || TypesControl(Last(codes), e)
  {
    hide ShiftHeld, CapsPresses;
    var code := Last(codes);
    KeysArePrintable(code);
    LettersAreNotOthers(code);
    if SymbolKey(code).Some? {
      SymbolsAreNotLetters(code);
    }
    hide SymbolKey, LetterKey;
  }

  lemma ExtendedTypes(code: byte, e: KeyEvent)
    ensures ExtendedEvent(code) == Some(e) <==> TypesExtended(code, e)
  {
  }

  lemma OnlyKeysType(code: byte, shift: bool, caps: bool)
    ensures IsShiftMake(code) || IsShiftBreak(code) || code == CAPS_CODE || code >= 0x80 ==>
              AsciiEvent(code, shift, caps) == None && ExtendedEvent(code) == None
  {
  }

  /** Decoding the last code of a stream yields `e` exactly if that is what the stream's last code types. */
  lemma LastEvent(codes: seq<byte>, e: KeyEvent)
    requires codes != []
    ensures Decode(After(codes[..|codes| - 1]), Last(codes)).1 == Some(e) <==> LastTypes(codes, e)
  {
    var front, code := codes[..|codes| - 1], Last(codes);
    StreamState(front);
    StreamState(codes);
    TableTypes(codes, e);
    ExtendedTypes(code, e);
    OnlyKeysType(code, ShiftHeld(codes), CapsPresses(codes) % 2 == 1);
    hide TypesSymbol, TypesLetter, TypesControl, TypesExtended, AsciiEvent, ExtendedEvent, ShiftHeld, CapsPresses;
  }

  /** Over every stream: a code adds the one event that it types under the modifiers of the stream so far, or none. */
  lemma StreamTypes(codes: seq<byte>)
    requires codes != []
    ensures var before := Events(codes[..|codes| - 1]);
            if exists e :: LastTypes(codes, e)
            then exists e :: LastTypes(codes, e) && Events(codes) == before + [e]
            else Events(codes) == before
  {
    hide Decode, After, LastTypes;
    var event := Decode(After(codes[..|codes| - 1]), Last(codes)).1;
    forall e
      ensures event == Some(e) <==> LastTypes(codes, e)
    {
      LastEvent(codes, e);
    }
    if event.Some? {
      assert LastTypes(codes, event.value);
    }
  }

  /** Every event queued by any stream is clean. */
  lemma {:induction false} StreamIsClean(codes: seq<byte>)
    ensures forall i :: 0 <= i < |Events(codes)| ==> IsClean(Events(codes)[i])
  {
    hide AsciiEvent, ExtendedEvent, IsClean;
    if codes == [] {
    } else {
      var front := codes[..|codes| - 1];
      StreamIsClean(front);
      var d := After(front);
      TablesAreClean(Last(codes), d.shift, d.caps);
    }
  }
}
