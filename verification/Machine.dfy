/** Bounded machine integers, result types, and integer and bit operations by their digits. */
module Machine {

  type byte = b: int | 0 <= b < 0x100
  type u16 = n: int | 0 <= n < 0x1_0000
  type u32 = n: int | 0 <= n < 0x1_0000_0000
  // `u64` and `usize` are both 64 bits wide on the kernel's only target.
  type usize = n: int | 0 <= n < 0x1_0000_0000_0000_0000

  const USIZE_LIMIT := 0x1_0000_0000_0000_0000
  // No Rust slice spans more than isize::MAX bytes.
  const SLICE_LIMIT := 0x8000_0000_0000_0000

  const SPACE: byte := 0x20
  const NEWLINE: byte := 0x0a
  const RETURN: byte := 0x0d

  datatype Option<+T> = None | Some(value: T)

  datatype Result<+T, +E> = Ok(value: T) | Err(error: E)

  function Min(a: int, b: int): int {
    if a < b then a else b
  }

  function Max(a: int, b: int): int {
    if a < b then b else a
  }

  function Last<T>(s: seq<T>): T
    requires s != []
  {
    s[|s| - 1]
  }

  lemma SliceOfSlice<T>(s: seq<T>, start: nat, length: nat, from: nat, to: nat)
    requires start + length <= |s| && from <= to <= length
    ensures s[start..start + length][from..to] == s[start + from..start + to]
  {
    var part := s[start..start + length];
    forall i | 0 <= i < to - from
      ensures part[from..to][i] == s[start + from..start + to][i]
    {
      assert part[from..to][i] == part[from + i] == s[start + from + i];
    }
  }

  function LeU16(bytes: seq<byte>, offset: nat): u16
    requires offset + 2 <= |bytes|
  {
    var low: int, high: int := bytes[offset], bytes[offset + 1];
    low + 0x100 * high
  }

  function LeU32(bytes: seq<byte>, offset: nat): u32
    requires offset + 4 <= |bytes|
  {
    LeU16(bytes, offset) as int + 0x1_0000 * (LeU16(bytes, offset + 2) as int)
  }

  // Little-endian encodings.

  function Le2(n: u16): seq<byte> {
    [n % 0x100, n / 0x100]
  }

  function Le4(n: u32): seq<byte> {
    Le2(n % 0x1_0000) + Le2(n / 0x1_0000)
  }

  lemma Le2RoundTrip(bytes: seq<byte>, offset: nat, n: u16)
    requires offset + 2 <= |bytes|
    ensures bytes[offset..offset + 2] == Le2(n) <==> LeU16(bytes, offset) == n
  {
    assert bytes[offset..offset + 2] == [bytes[offset], bytes[offset + 1]];
  }

  lemma Le4RoundTrip(bytes: seq<byte>, offset: nat, n: u32)
    requires offset + 4 <= |bytes|
    ensures bytes[offset..offset + 4] == Le4(n) <==> LeU32(bytes, offset) == n
  {
    var low, high := bytes[offset..offset + 2], bytes[offset + 2..offset + 4];
    assert bytes[offset..offset + 4] == low + high;
    assert low + high == Le4(n) <==> low == Le2(n % 0x1_0000) && high == Le2(n / 0x1_0000) by {
      assert |Le2(n % 0x1_0000)| == 2;
      assert (low + high)[..2] == low && (low + high)[2..] == high;
      assert Le4(n)[..2] == Le2(n % 0x1_0000) && Le4(n)[2..] == Le2(n / 0x1_0000);
    }
    Le2RoundTrip(bytes, offset, n % 0x1_0000);
    Le2RoundTrip(bytes, offset + 2, n / 0x1_0000);
  }

  // ---------- products and quotients ----------
  // Variable products and quotients are written as repeated addition and subtraction, so that every
  // proof about them is a linear induction. TimesIsProduct and QuotientIsDivision tie them to * and /.

  /** The length of `n` blocks of `size`. */
  function Times(n: nat, size: nat): nat {
    if n == 0 then 0 else Times(n - 1, size) + size
  }

  /** How many whole blocks of `size` fit in `a`. */
  function Quotient(a: nat, size: nat): nat
    requires 0 < size
  {
    if a < size then 0 else 1 + Quotient(a - size, size)
  }

  lemma {:induction false} TimesIsProduct(n: nat, size: nat)
    ensures Times(n, size) == n * size
  {
    if n == 0 {
    } else {
      TimesIsProduct(n - 1, size);
      assert n * size == (n - 1) * size + size;
    }
  }

  lemma {:induction false} TimesMonotone(m: nat, n: nat, size: nat)
    requires m <= n
    ensures Times(m, size) <= Times(n, size)
    decreases n
  {
    if m == n {
    } else {
      TimesMonotone(m, n - 1, size);
    }
  }

  lemma TimesStep(m: nat, n: nat, size: nat)
    requires m < n
    ensures Times(m, size) + size <= Times(n, size)
  {
    TimesMonotone(m + 1, n, size);
  }

  lemma {:induction false} TimesAdd(m: nat, n: nat, size: nat)
    ensures Times(m + n, size) == Times(m, size) + Times(n, size)
    decreases n
  {
    if n == 0 {
    } else {
      TimesAdd(m, n - 1, size);
    }
  }

  lemma {:induction false} TimesAtLeast(n: nat, size: nat)
    requires 0 < size
    ensures n <= Times(n, size)
  {
    if n == 0 {
    } else {
      TimesAtLeast(n - 1, size);
    }
  }

  lemma {:induction false} QuotientBounds(a: nat, size: nat)
    requires 0 < size
    ensures Times(Quotient(a, size), size) <= a < Times(Quotient(a, size), size) + size
  {
    if a < size {
    } else {
      QuotientBounds(a - size, size);
    }
  }

  lemma QuotientAtLeast(a: nat, size: nat, q: nat)
    requires 0 < size
    ensures q <= Quotient(a, size) <==> Times(q, size) <= a
  {
    QuotientBounds(a, size);
    if q <= Quotient(a, size) {
      TimesMonotone(q, Quotient(a, size), size);
    } else {
      TimesStep(Quotient(a, size), q, size);
    }
  }

  /** A position splits uniquely into a block and an offset in it. */
  lemma BlockIsUnique(q: nat, r: nat, q': nat, r': nat, size: nat)
    requires r < size && r' < size && Times(q, size) + r == Times(q', size) + r'
    ensures q == q' && r == r'
  {
    if q < q' {
      TimesStep(q, q', size);
    } else if q' < q {
      TimesStep(q', q, size);
    }
  }

  lemma QuotientIsDivision(a: nat, size: nat)
    requires 0 < size
    ensures Quotient(a, size) == a / size
  {
    var q, r := DivisionSplits(a, size);
    TimesIsProduct(q, size);
    QuotientBounds(a, size);
    BlockIsUnique(Quotient(a, size), a - Times(Quotient(a, size), size), q, r, size);
  }

  lemma DivisionSplits(a: nat, size: nat) returns (q: nat, r: nat)
    requires 0 < size
    ensures q == a / size && r == a % size && r < size && a == q * size + r
  {
    q, r := a / size, a % size;
  }

  // ---------- powers of two and bits ----------

  function Pow2(k: nat): (p: nat)
    ensures 0 < p
  {
    if k == 0 then 1 else 2 * Pow2(k - 1)
  }

  /** Bitwise `&`, digit by digit. */
  function BitAnd(x: nat, y: nat): nat {
    if x == 0 || y == 0 then 0
    else (if x % 2 == 1 && y % 2 == 1 then 1 else 0) + 2 * BitAnd(x / 2, y / 2)
  }

  /** The number made of the low `k` bits of `x`. */
  function LowBits(x: nat, k: nat): (r: nat)
    ensures r <= x && r < Pow2(k)
    decreases k
  {
    if k == 0 then 0 else x % 2 + 2 * LowBits(x / 2, k - 1)
  }

  predicate IsPowerOfTwo(n: nat) {
    n == 1 || (n > 1 && n % 2 == 0 && IsPowerOfTwo(n / 2))
  }

  lemma {:induction false} Pow2Monotone(k: nat, w: nat)
    requires k <= w
    ensures Pow2(k) <= Pow2(w)
    decreases w
  {
    if k == w {
    } else {
      Pow2Monotone(k, w - 1);
    }
  }

  /** Masking with 2^k - 1 keeps the low k bits. */
  lemma {:induction false} AndLowMask(x: nat, k: nat)
    ensures BitAnd(x, Pow2(k) - 1) == LowBits(x, k)
    decreases k
  {
    if k == 0 {
    } else {
      AndLowMask(x / 2, k - 1);
      assert (Pow2(k) - 1) / 2 == Pow2(k - 1) - 1;
    }
  }

  lemma {:induction false} AllBits(x: nat, w: nat)
    requires x < Pow2(w)
    ensures LowBits(x, w) == x
    decreases w
  {
    if w == 0 {
    } else {
      AllBits(x / 2, w - 1);
    }
  }

  lemma AndEvenMask(x: nat, mask: nat)
    ensures BitAnd(x, 2 * mask) == 2 * BitAnd(x / 2, mask)
  {
  }

  /** One digit of AndHighMask: clearing k low bits clears k - 1 low bits of the half. */
  lemma AndHighMaskStep(x: nat, k: nat, mask: nat)
    requires 0 < k && BitAnd(x / 2, mask) == x / 2 - LowBits(x / 2, k - 1)
    ensures BitAnd(x, 2 * mask) == x - LowBits(x, k)
  {
    AndEvenMask(x, mask);
    hide BitAnd;
  }

  /** Masking a w-bit word with !(2^k - 1) clears its low k bits. */
  lemma {:induction false} AndHighMask(x: nat, k: nat, w: nat)
    requires k <= w && x < Pow2(w)
    ensures Pow2(k) <= Pow2(w)
    ensures BitAnd(x, Pow2(w) - Pow2(k)) == x - LowBits(x, k)
    decreases k
  {
    hide BitAnd, LowBits;
    Pow2Monotone(k, w);
    if k == 0 {
      AndLowMask(x, w);
      AllBits(x, w);
      NoBits(x);
    } else {
      AndHighMask(x / 2, k - 1, w - 1);
      AndHighMaskStep(x, k, Pow2(w - 1) - Pow2(k - 1));
      assert Pow2(w) - Pow2(k) == 2 * (Pow2(w - 1) - Pow2(k - 1));
    }
  }

  lemma NoBits(x: nat)
    ensures LowBits(x, 0) == 0
  {
  }

  /** Low bits are the remainder: clearing them leaves a multiple of 2^k. */
  lemma {:induction false} LowBitsIsRemainder(x: nat, k: nat) returns (q: nat)
    ensures x == Times(q, Pow2(k)) + LowBits(x, k)
    decreases k
  {
    if k == 0 {
      q := x;
      TimesIsProduct(x, 1);
    } else {
      q := LowBitsIsRemainder(x / 2, k - 1);
      TimesDouble(q, Pow2(k - 1));
    }
  }

  lemma {:induction false} TimesDouble(n: nat, size: nat)
    ensures Times(n, 2 * size) == 2 * Times(n, size)
  {
    if n == 0 {
    } else {
      TimesDouble(n - 1, size);
    }
  }

  lemma HalfThenDivide(x: nat, m: nat)
    requires 0 < m
    ensures x / 2 / m == x / (2 * m)
  {
    var q, r := DivisionSplits(x / 2, m);
    TimesIsProduct(q, 2 * m);
    TimesDouble(q, m);
    TimesIsProduct(q, m);
    QuotientIsDivision(x, 2 * m);
    QuotientBounds(x, 2 * m);
    BlockIsUnique(Quotient(x, 2 * m), x - Times(Quotient(x, 2 * m), 2 * m), q, 2 * r + x % 2, 2 * m);
  }

  /** Masking with 2^k tests bit k. */
  lemma {:induction false} BitTest(x: nat, k: nat)
    ensures BitAnd(x, Pow2(k)) != 0 <==> x / Pow2(k) % 2 == 1
    decreases k
  {
    if k == 0 {
      assert BitAnd(x, 1) == if x == 0 then 0 else x % 2 + 2 * BitAnd(x / 2, 0);
    } else {
      BitTest(x / 2, k - 1);
      AndEvenMask(x, Pow2(k - 1));
      HalfThenDivide(x, Pow2(k - 1));
    }
  }

  lemma {:induction false} PowerOfTwoHasExponent(n: nat) returns (k: nat)
    requires IsPowerOfTwo(n)
    ensures n == Pow2(k)
  {
    if n == 1 {
      k := 0;
    } else {
      var j := PowerOfTwoHasExponent(n / 2);
      k := j + 1;
    }
  }

  lemma {:induction false} Pow2IsPowerOfTwo(k: nat)
    ensures IsPowerOfTwo(Pow2(k))
  {
    if k == 0 {
    } else {
      Pow2IsPowerOfTwo(k - 1);
    }
  }
}
