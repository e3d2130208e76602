/** Short (8.3) directory records: decoding, and the packing it undoes. */
module ShortNames {
  import opened Machine

  const RECORD_SIZE := 32
  const DOT: byte := 0x2e
  const ATTR_DIRECTORY: byte := 0x10

  type Record = r: seq<byte> | |r| == RECORD_SIZE witness seq(RECORD_SIZE, _ => 0)

  datatype DirEntry = DirEntry(name: seq<byte>, attributes: byte, firstCluster: u32, size: u32) {
    predicate IsDirectory() {
      BitAnd(attributes, ATTR_DIRECTORY) != 0
    }
  }

  predicate Ascii(s: seq<byte>) {
    forall i :: 0 <= i < |s| ==> s[i] < 0x80
  }

  /** The part of a field before its space padding. */
  function UntilSpace(field: seq<byte>): seq<byte> {
    if field == [] || field[0] == SPACE then [] else [field[0]] + UntilSpace(field[1..])
  }

  predicate AllSpaces(field: seq<byte>) {
    forall i :: 0 <= i < |field| ==> field[i] == SPACE
  }

  /** The name a record displays: its base, then a dot and the extension unless that is all padding. */
  function NameOf(raw: Record): Option<seq<byte>> {
    var base := UntilSpace(raw[..8]);
    var extension := UntilSpace(raw[8..11]);
    if base == [] || !Ascii(base) then None
    else if AllSpaces(raw[8..11]) then Some(base)
    else if !Ascii(extension) then None
    else Some(base + [DOT] + extension)
  }

  function Decode(raw: Record): Option<DirEntry> {
    match NameOf(raw)
    case None => None
    case Some(name) =>
      var first := 0x1_0000 * (LeU16(raw, 20) as int) + LeU16(raw, 26) as int;
      Some(DirEntry(name, raw[11], first, LeU32(raw, 28)))
  }

  lemma {:induction false} UntilSpaceAt(field: seq<byte>, k: nat)
    requires k <= |field|
    requires forall i :: 0 <= i < k ==> field[i] != SPACE
    requires k == |field| || field[k] == SPACE
    ensures UntilSpace(field) == field[..k]
    decreases k
  {
    if k > 0 {
      UntilSpaceAt(field[1..], k - 1);
      assert field[..k] == [field[0]] + field[1..][..k - 1];
    } else {
      assert field[..k] == [];
    }
  }

  lemma {:induction false} UntilSpaceIsPrefix(field: seq<byte>)
    ensures |UntilSpace(field)| <= |field|
    ensures UntilSpace(field) == field[..|UntilSpace(field)|]
    ensures forall i :: 0 <= i < |UntilSpace(field)| ==> UntilSpace(field)[i] != SPACE
    ensures |UntilSpace(field)| < |field| ==> field[|UntilSpace(field)|] == SPACE
  {
    if field != [] && field[0] != SPACE {
      UntilSpaceIsPrefix(field[1..]);
      var rest := UntilSpace(field[1..]);
      assert UntilSpace(field) == [field[0]] + rest;
      assert field[..1 + |rest|] == [field[0]] + field[1..][..|rest|];
    }
  }

  /** One of the two copying loops of `from_raw`: append a field up to its padding. */
  method AppendField(field: seq<byte>, name: array<byte>, nameLen: nat) returns (ok: bool, newLen: nat)
    requires nameLen + |field| <= name.Length
    modifies name
    ensures ok <==> Ascii(UntilSpace(field))
    ensures name[..nameLen] == old(name[..nameLen])
    ensures ok ==> newLen <= name.Length && name[..newLen] == old(name[..nameLen]) + UntilSpace(field)
  {
    newLen := nameLen;
    ghost var before := name[..nameLen];
    var i := 0;
    while i < |field| && field[i] != SPACE
      invariant i <= |field| && newLen == nameLen + i
      invariant forall j :: 0 <= j < i ==> field[j] != SPACE && field[j] < 0x80
      invariant name[..newLen] == before + field[..i]
    {
      if field[i] >= 0x80 {
        UntilSpaceIsPrefix(field);
        assert UntilSpace(field)[i] == field[i];
        assert name[..nameLen] == name[..newLen][..nameLen];
        ok := false;
        return;
      }
      name[newLen] := field[i];
      newLen := newLen + 1;
      i := i + 1;
      assert field[..i] == field[..i - 1] + [field[i - 1]];
      assert name[..newLen] == name[..newLen - 1] + [name[newLen - 1]];
    }
    UntilSpaceAt(field, i);
    assert name[..nameLen] == name[..newLen][..nameLen];
    ok := true;
  }

  /** `DirEntry::from_raw`: assemble the name in a 12-byte buffer, then read the numeric fields. */
  method FromRaw(raw: Record) returns (entry: Option<DirEntry>)
    ensures entry == Decode(raw)
  {
    UntilSpaceIsPrefix(raw[..8]);
    UntilSpaceIsPrefix(raw[8..11]);
    var name := new byte[12];
    var ok, nameLen := AppendField(raw[..8], name, 0);
    if !ok {
      return None;
    }
    assert name[..nameLen] == UntilSpace(raw[..8]);
    if nameLen == 0 {
      return None;
    }
    var extension := raw[8..11];
    if exists i :: 0 <= i < |extension| && extension[i] != SPACE {
      name[nameLen] := DOT;
      nameLen := nameLen + 1;
      assert name[..nameLen] == UntilSpace(raw[..8]) + [DOT];
      ok, nameLen := AppendField(extension, name, nameLen);
      if !ok {
        return None;
      }
    }
    var first: u32 := 0x1_0000 * (LeU16(raw, 20) as int) + LeU16(raw, 26) as int;
    entry := Some(DirEntry(name[..nameLen], raw[11], first, LeU32(raw, 28)));
  }

  /** Every decoded name is ASCII, so `name()` may view it as text, and fits the 12-byte buffer. */
  lemma DecodedNameIsAscii(raw: Record)
    ensures Decode(raw).Some? ==>
              var name := Decode(raw).value.name;
              1 <= |name| <= 12 && Ascii(name)
  {
    UntilSpaceIsPrefix(raw[..8]);
    UntilSpaceIsPrefix(raw[8..11]);
  }

  // ---------- packing ----------

  predicate FieldText(s: seq<byte>, width: nat) {
    |s| <= width && Ascii(s) && SPACE !in s
  }

  function Padded(s: seq<byte>, width: nat): seq<byte>
    requires |s| <= width
  {
    s + seq(width - |s|, _ => SPACE)
  }

  function Shown(base: seq<byte>, extension: seq<byte>): seq<byte> {
    if extension == [] then base else base + [DOT] + extension
  }

  lemma UntilSpaceOfPadded(s: seq<byte>, width: nat)
    requires FieldText(s, width)
    ensures UntilSpace(Padded(s, width)) == s
  {
    var p := Padded(s, width);
    assert forall i :: 0 <= i < |s| ==> p[i] == s[i] && s[i] in s;
    UntilSpaceAt(p, |s|);
    assert p[..|s|] == s;
  }

  /** Decoding undoes packing: base and extension come back exactly. */
  lemma DecodeUndoesPacking(base: seq<byte>, extension: seq<byte>, raw: Record)
    requires base != [] && FieldText(base, 8) && FieldText(extension, 3)
    requires raw[..11] == Padded(base, 8) + Padded(extension, 3)
    ensures NameOf(raw) == Some(Shown(base, extension))
  {
    assert raw[..8] == raw[..11][..8] == Padded(base, 8);
    assert raw[8..11] == raw[..11][8..] == Padded(extension, 3);
    UntilSpaceOfPadded(base, 8);
    UntilSpaceOfPadded(extension, 3);
    if extension != [] {
      assert raw[8..11][0] == extension[0] && extension[0] in extension;
    } else {
      assert AllSpaces(raw[8..11]);
    }
  }

  /** A record laid out as the FAT specification places its fields; `times` stands for the bytes nobody reads. */
  function EncodeRecord(base: seq<byte>, extension: seq<byte>, attributes: byte, first: u32, size: u32,
                        times: seq<byte>): Record
    requires |base| <= 8 && |extension| <= 3 && |times| == 12
  {
    Padded(base, 8) + Padded(extension, 3) + [attributes] + times[..8] + Le2(first / 0x1_0000) + times[8..]
    + Le2(first % 0x1_0000) + Le4(size)
  }

  lemma FieldsOfRecord(raw: Record, attributes: byte, first: u32, size: u32)
    requires raw[11] == attributes && raw[28..32] == Le4(size)
    requires raw[20..22] == Le2(first / 0x1_0000) && raw[26..28] == Le2(first % 0x1_0000)
    requires NameOf(raw).Some?
    ensures Decode(raw) == Some(DirEntry(NameOf(raw).value, attributes, first, size))
  {
    Le2RoundTrip(raw, 20, first / 0x1_0000);
    Le2RoundTrip(raw, 26, first % 0x1_0000);
    Le4RoundTrip(raw, 28, size);
    hide NameOf, LeU16, LeU32, Le2, Le4;
  }

  /** Decoding gives back every field of an encoded record. */
  lemma DecodeUndoesEncode(base: seq<byte>, extension: seq<byte>, attributes: byte, first: u32, size: u32,
                           times: seq<byte>)
    requires base != [] && FieldText(base, 8) && FieldText(extension, 3) && |times| == 12
    ensures Decode(EncodeRecord(base, extension, attributes, first, size, times))
         == Some(DirEntry(Shown(base, extension), attributes, first, size))
  {
    var raw := EncodeRecord(base, extension, attributes, first, size, times);
    assert raw[..11] == Padded(base, 8) + Padded(extension, 3);
    assert raw[20..22] == Le2(first / 0x1_0000) && raw[26..28] == Le2(first % 0x1_0000);
    assert raw[28..32] == Le4(size);
    DecodeUndoesPacking(base, extension, raw);
    FieldsOfRecord(raw, attributes, first, size);
  }

  /** An entry is a directory iff bit 4 of its attributes is set. */
  lemma DirectoryBit(entry: DirEntry)
    ensures entry.IsDirectory() <==> entry.attributes / 16 % 2 == 1
  {
    BitTest(entry.attributes, 4);
    assert Pow2(4) == 16;
  }

  /**
   * The name of any record at all: its base is cut before the first space, the extension shows unless it is all
   * spaces and is cut likewise, and no cut part may be empty (for the base) or leave ASCII.
   */
  lemma NameIsCutAtPadding(raw: Record, n: nat, m: nat)
    requires n <= 8 && m <= 3
    requires (forall i :: 0 <= i < n ==> raw[i] != SPACE) && (n < 8 ==> raw[n] == SPACE)
    requires (forall i :: 8 <= i < 8 + m ==> raw[i] != SPACE) && (m < 3 ==> raw[8 + m] == SPACE)
    ensures NameOf(raw) ==
            if n == 0 || !Ascii(raw[..n]) then None
            else if raw[8] == raw[9] == raw[10] == SPACE then Some(raw[..n])
            else if !Ascii(raw[8..8 + m]) then None
            else Some(raw[..n] + [0x2e] + raw[8..8 + m])
  {
    UntilSpaceAt(raw[..8], n);
    UntilSpaceAt(raw[8..11], m);
    assert raw[..8][..n] == raw[..n] && raw[8..11][..m] == raw[8..8 + m];
    assert raw[8..11] == [raw[8], raw[9], raw[10]];
  }

  lemma BaseEndsAtDot(base: seq<byte>, extension: seq<byte>)
    requires DOT !in base
    ensures forall i :: 0 <= i < |base| ==> Shown(base, extension)[i] != DOT
    ensures |base| < |Shown(base, extension)| ==> Shown(base, extension)[|base|] == DOT
  {
    assert forall i :: 0 <= i < |base| ==> Shown(base, extension)[i] == base[i] && base[i] in base;
  }

  lemma {:induction false} ShownDetermines(b1: seq<byte>, e1: seq<byte>, b2: seq<byte>, e2: seq<byte>)
    requires DOT !in b1 && DOT !in b2 && DOT !in e1 && DOT !in e2
    requires Shown(b1, e1) == Shown(b2, e2)
    ensures b1 == b2 && e1 == e2
  {
    var s1, s2 := Shown(b1, e1), Shown(b2, e2);
    BaseEndsAtDot(b1, e1);
    BaseEndsAtDot(b2, e2);
    assert s1[..|b1|] == b1 && s2[..|b2|] == b2;
    if e1 == [] {
    } else {
      assert s1[|b1| + 1..] == e1;
      assert s2[|b2| + 1..] == e2;
    }
  }

  /** Two records packed from dot-free names show the same name only if they hold the same name. */
  lemma PackedNamesAreInjective(b1: seq<byte>, e1: seq<byte>, r1: Record, b2: seq<byte>, e2: seq<byte>, r2: Record)
    requires b1 != [] && FieldText(b1, 8) && FieldText(e1, 3) && DOT !in b1 && DOT !in e1
    requires b2 != [] && FieldText(b2, 8) && FieldText(e2, 3) && DOT !in b2 && DOT !in e2
    requires r1[..11] == Padded(b1, 8) + Padded(e1, 3)
    requires r2[..11] == Padded(b2, 8) + Padded(e2, 3)
    ensures NameOf(r1) == NameOf(r2) <==> r1[..11] == r2[..11]
  {
    DecodeUndoesPacking(b1, e1, r1);
    DecodeUndoesPacking(b2, e2, r2);
    if NameOf(r1) == NameOf(r2) {
      ShownDetermines(b1, e1, b2, e2);
    } else if r1[..11] == r2[..11] {
      assert Padded(b1, 8) == r1[..11][..8] == Padded(b2, 8);
      assert Padded(e1, 3) == r1[..11][8..] == Padded(e2, 3);
      UntilSpaceOfPadded(b1, 8);
      UntilSpaceOfPadded(b2, 8);
      UntilSpaceOfPadded(e1, 3);
      UntilSpaceOfPadded(e2, 3);
    }
  }
}
