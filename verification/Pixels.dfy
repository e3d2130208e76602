/** The pixels of a linear framebuffer, and the rectangle operations the console performs on them. */
module Pixels {
  import opened Machine

  datatype Rgb = Rgb(r: byte, g: byte, b: byte)

  datatype PixelFormat = RgbFormat | BgrFormat | U8Format | OtherFormat

  const LINE_HEIGHT := 18

  datatype Info = Info(width: usize, height: usize, stride: usize, bytesPerPixel: usize, format: PixelFormat) {
    /** What the boot loader promises about a buffer of `length` bytes. */
    ghost predicate Describes(length: nat) {
      && width <= stride && 1 <= bytesPerPixel
      && Times(Times(height, stride), bytesPerPixel) <= length < SLICE_LIMIT
    }

    /** The colour bytes of a pixel that are drawn and compared; a fourth byte is only padding. */
    function Channels(): nat {
      Min(bytesPerPixel, 3)
    }
  }

  // A pixel as its colour bytes in the buffer, and a picture as its rows of pixels.
  type Pixel = seq<byte>
  type Picture = seq<seq<Pixel>>

  function Encode(info: Info, c: Rgb): (p: Pixel)
    ensures |p| == info.Channels()
  {
    var bytes := match info.format
      case RgbFormat => [c.r, c.g, c.b]
      case U8Format =>
        var r: int, g: int, b: int := c.r, c.g, c.b;
        var gray: byte := (r + g + b) / 3;
        [gray, gray, gray]
      case _ => [c.b, c.g, c.r];
    bytes[..info.Channels()]
  }

  /** The colour bytes of each pixel format, cut to the bytes a pixel has. */
  lemma FormatBytes(info: Info, c: Rgb)
    ensures info.format == RgbFormat ==> Encode(info, c) == [c.r, c.g, c.b][..info.Channels()]
    ensures info.format in {BgrFormat, OtherFormat} ==> Encode(info, c) == [c.b, c.g, c.r][..info.Channels()]
    ensures info.format == U8Format ==>
              var sum := c.r as int + c.g as int + c.b as int;
              forall i :: 0 <= i < info.Channels() ==>
                var gray: int := Encode(info, c)[i];
                3 * gray <= sum < 3 * gray + 3
  {
  }

  function InvertByte(b: byte): byte {
    0xff - b
  }

  function Invert(p: Pixel): (q: Pixel)
    ensures |q| == |p|
  {
    seq(|p|, i requires 0 <= i < |p| => InvertByte(p[i]))
  }

  lemma InvertTwice(p: Pixel)
    ensures Invert(Invert(p)) == p
  {
  }

  // ---------- where a pixel lives ----------

  function Offset(info: Info, x: nat, y: nat): nat {
    Times(Times(y, info.stride) + x, info.bytesPerPixel)
  }

  lemma OffsetInBounds(info: Info, x: nat, y: nat, length: nat)
    requires info.Describes(length) && x < info.width && y < info.height
    ensures Times(y, info.stride) + x <= Offset(info, x, y)
    ensures Offset(info, x, y) + info.bytesPerPixel <= length
  {
    hide Times;
    TimesStep(y, info.height, info.stride);
    TimesStep(Times(y, info.stride) + x, Times(info.height, info.stride), info.bytesPerPixel);
    TimesAtLeast(Times(y, info.stride) + x, info.bytesPerPixel);
  }

  /** A screen that fits a slice has sides that fit half a word. */
  lemma SidesFit(info: Info, length: nat)
    requires info.Describes(length) && 1 <= info.height && 1 <= info.stride
    ensures info.width < SLICE_LIMIT && info.height < SLICE_LIMIT
  {
    TimesAtLeast(info.height, info.stride);
    TimesStep(0, info.height, info.stride);
    TimesAtLeast(Times(info.height, info.stride), info.bytesPerPixel);
  }

  /** Different pixels occupy disjoint bytes. */
  lemma OffsetsDisjoint(info: Info, x: nat, y: nat, x': nat, y': nat)
    requires x < info.stride && x' < info.stride && (x, y) != (x', y')
    ensures Offset(info, x, y) + info.bytesPerPixel <= Offset(info, x', y')
         || Offset(info, x', y') + info.bytesPerPixel <= Offset(info, x, y)
  {
    hide Times;
    var a, b := Times(y, info.stride) + x, Times(y', info.stride) + x';
    if a == b {
      BlockIsUnique(y, x, y', x', info.stride);
    } else if a < b {
      TimesStep(a, b, info.bytesPerPixel);
    } else {
      TimesStep(b, a, info.bytesPerPixel);
    }
  }

  /** Moving down by `n` pixel rows moves the offset by as many row lengths. */
  lemma OffsetBelow(info: Info, x: nat, y: nat, n: nat)
    ensures Offset(info, x, y + n) == Offset(info, x, y) + Times(Times(n, info.stride), info.bytesPerPixel)
  {
    hide Times;
    TimesAdd(y, n, info.stride);
    TimesAdd(Times(y, info.stride) + x, Times(n, info.stride), info.bytesPerPixel);
  }

  function PixelAt(bytes: seq<byte>, info: Info, x: nat, y: nat): (p: Pixel)
    requires info.Describes(|bytes|) && x < info.width && y < info.height
    ensures |p| == info.Channels()
  {
    OffsetInBounds(info, x, y, |bytes|);
    bytes[Offset(info, x, y)..Offset(info, x, y) + info.Channels()]
  }

  ghost predicate Sized(p: Picture, info: Info) {
    |p| == info.height && forall y :: 0 <= y < |p| ==> |p[y]| == info.width
  }

  /** The picture a buffer shows. */
  ghost function Shown(bytes: seq<byte>, info: Info): (p: Picture)
    requires info.Describes(|bytes|)
    ensures Sized(p, info)
  {
    seq(info.height, y requires 0 <= y < info.height =>
      seq(info.width, x requires 0 <= x < info.width => PixelAt(bytes, info, x, y)))
  }

  /** Pixel (x, y) starts at this byte of a row-by-row layout. */
  ghost predicate StartsAt(info: Info, x: nat, y: nat, at: nat) {
    at == (y * info.stride + x) * info.bytesPerPixel
  }

  /** Byte i of a pixel is the i-th after its start. */
  lemma ShownExactly(bytes: seq<byte>, info: Info, x: nat, y: nat, i: nat, at: nat)
    requires info.Describes(|bytes|) && x < info.width && y < info.height && i < info.Channels()
    requires StartsAt(info, x, y, at)
    ensures at + i < |bytes| && Shown(bytes, info)[y][x][i] == bytes[at + i]
  {
    TimesIsProduct(y, info.stride);
    TimesIsProduct(y * info.stride + x, info.bytesPerPixel);
    OffsetInBounds(info, x, y, |bytes|);
    hide Times;
  }

  function SetPixel(p: Picture, x: nat, y: nat, pixel: Pixel): Picture
    requires y < |p| && x < |p[y]|
  {
    p[y := p[y][x := pixel]]
  }

  /** Overwriting the bytes of one pixel changes that pixel only. */
  lemma ShownAfterWrite(bytes: seq<byte>, after: seq<byte>, info: Info, x: nat, y: nat, pixel: Pixel)
    requires info.Describes(|bytes|) && |after| == |bytes| && x < info.width && y < info.height
    requires |pixel| == info.Channels()
    requires Offset(info, x, y) + info.bytesPerPixel <= |bytes|
    requires after[Offset(info, x, y)..Offset(info, x, y) + info.Channels()] == pixel
    requires forall i :: 0 <= i < |bytes| && !(Offset(info, x, y) <= i < Offset(info, x, y) + info.bytesPerPixel) ==>
               after[i] == bytes[i]
    ensures Shown(after, info) == SetPixel(Shown(bytes, info), x, y, pixel)
  {
    hide Times, Offset;
    forall x', y' | 0 <= x' < info.width && 0 <= y' < info.height && (x, y) != (x', y')
      ensures PixelAt(after, info, x', y') == PixelAt(bytes, info, x', y')
    {
      OffsetsDisjoint(info, x, y, x', y');
      OffsetInBounds(info, x', y', |bytes|);
    }
    var p, q := Shown(after, info), SetPixel(Shown(bytes, info), x, y, pixel);
    hide PixelAt;
    forall y' | 0 <= y' < info.height
      ensures p[y'] == q[y']
    {
    }
  }

  /** Copying every byte from `n` pixel rows below moves the picture up by `n` rows. */
  lemma ShownAfterCopyUp(bytes: seq<byte>, after: seq<byte>, info: Info, n: nat)
    requires info.Describes(|bytes|) && |after| == |bytes| && n <= info.height
    requires Times(Times(n, info.stride), info.bytesPerPixel) <= |bytes|
    requires forall i :: 0 <= i < |bytes| - Times(Times(n, info.stride), info.bytesPerPixel) ==>
               after[i] == bytes[i + Times(Times(n, info.stride), info.bytesPerPixel)]
    ensures Shown(after, info)[..info.height - n] == Shown(bytes, info)[n..]
  {
    hide Times, Offset;
    var p, q := Shown(after, info), Shown(bytes, info);
    forall x, y | 0 <= x < info.width && 0 <= y < info.height - n
      ensures PixelAt(after, info, x, y) == PixelAt(bytes, info, x, y + n)
    {
      OffsetBelow(info, x, y, n);
      OffsetInBounds(info, x, y + n, |bytes|);
      var S := Times(Times(n, info.stride), info.bytesPerPixel);
      var o := Offset(info, x, y);
      assert forall i :: o <= i < o + info.Channels() ==> after[i] == bytes[i + S];
    }
    hide PixelAt;
    forall y | 0 <= y < info.height - n
      ensures p[y] == q[n..][y]
    {
      assert q[n..][y] == q[y + n];
    }
  }

  // ---------- rectangles ----------

  datatype Rect = Rect(x0: nat, x1: nat, y0: nat, y1: nat) {
    predicate Has(x: int, y: int) {
      x0 <= x < x1 && y0 <= y < y1
    }
  }

  type Paint = (nat, nat) -> Rgb

  function PaintedRow(row: seq<Pixel>, info: Info, y: nat, x0: nat, x1: nat, paint: Paint): seq<Pixel> {
    seq(|row|, x requires 0 <= x < |row| => if x0 <= x < x1 then Encode(info, paint(x, y)) else row[x])
  }

  /** The picture with the pixels of `r` painted. */
  function Painted(p: Picture, info: Info, r: Rect, paint: Paint): Picture {
    seq(|p|, y requires 0 <= y < |p| =>
      if r.y0 <= y < r.y1 then PaintedRow(p[y], info, y, r.x0, r.x1, paint) else p[y])
  }

  function InvertedRow(row: seq<Pixel>, x0: nat, x1: nat): seq<Pixel> {
    seq(|row|, x requires 0 <= x < |row| => if x0 <= x < x1 then Invert(row[x]) else row[x])
  }

  /** The picture with the pixels of `r` inverted. */
  function Inverted(p: Picture, r: Rect): Picture {
    seq(|p|, y requires 0 <= y < |p| => if r.y0 <= y < r.y1 then InvertedRow(p[y], r.x0, r.x1) else p[y])
  }

  /** Inverting the same rectangle twice restores the picture. */
  lemma InvertedTwice(p: Picture, r: Rect)
    ensures Inverted(Inverted(p, r), r) == p
  {
    var q := Inverted(Inverted(p, r), r);
    forall y | 0 <= y < |p|
      ensures q[y] == p[y]
    {
      forall x | 0 <= x < |p[y]|
        ensures q[y][x] == p[y][x]
      {
        InvertTwice(p[y][x]);
      }
    }
  }

  /** Inversion turns each colour byte b of the rectangle's pixels into 255 - b, and leaves all others. */
  lemma InvertedExactly(p: Picture, r: Rect, x: nat, y: nat, i: nat)
    requires y < |p| && x < |p[y]| && i < |p[y][x]|
    ensures y < |Inverted(p, r)| && x < |Inverted(p, r)[y]| && i < |Inverted(p, r)[y][x]|
    ensures Inverted(p, r)[y][x][i] == if r.Has(x, y) then 255 - p[y][x][i] else p[y][x][i]
  {
  }
}
