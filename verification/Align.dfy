/** Unsigned 64-bit words and the mask rounding of src/align.h.

    Words are integers below 2^64 and every wrap-around is written out. The masks are
    kept as bitwise operations, so that rounding is defined for every alignment, not
    only for powers of two: the loader accepts any multiple of the page size. */
module Align {

  const WORD := 0x1_0000_0000_0000_0000

  type U64 = x: int | 0 <= x < WORD

  function Add64(a: U64, b: U64): U64 {
    if a + b < WORD then a + b else a + b - WORD
  }

  function Sub64(a: U64, b: U64): U64 {
    if b <= a then a - b else a - b + WORD
  }

  function Pow2(k: nat): (p: nat)
    ensures p >= 1
  {
    if k == 0 then 1 else 2 * Pow2(k - 1)
  }

  ghost predicate IsPow2(n: int) {
    exists k: nat :: n == Pow2(k)
  }

  function BitAnd(a: nat, b: nat): nat {
    if a == 0 || b == 0 then 0
    else (if a % 2 == 1 && b % 2 == 1 then 1 else 0) + 2 * BitAnd(a / 2, b / 2)
  }

  function Not64(a: U64): U64 {
    WORD - 1 - a
  }

  function Truncp(addr: U64, align: U64): (r: U64)
    ensures r <= addr
  {
    AndBounds(addr, Not64(Sub64(align, 1)));
    BitAnd(addr, Not64(Sub64(align, 1)))
  }

  function Ceilp(addr: U64, align: U64): (r: U64)
    ensures r <= Add64(addr, Sub64(align, 1))
  {
    AndBounds(Add64(addr, Sub64(align, 1)), Not64(Sub64(align, 1)));
    BitAnd(Add64(addr, Sub64(align, 1)), Not64(Sub64(align, 1)))
  }

  // ---------------------------------------------------------------- bitwise facts

  lemma {:induction false} AndBounds(a: nat, b: nat)
    ensures BitAnd(a, b) <= a && BitAnd(a, b) <= b
  {
    if a != 0 && b != 0 {
      AndBounds(a / 2, b / 2);
    }
  }

  /** A mask and its complement split a word into two parts. */
  lemma {:induction false} AndSplits(k: nat, a: nat, m: nat)
    requires a < Pow2(k) && m < Pow2(k)
    ensures BitAnd(a, m) + BitAnd(a, Pow2(k) - 1 - m) == a
  {
    if k > 0 {
      var n := Pow2(k) - 1 - m;
      AndSplits(k - 1, a / 2, m / 2);
      assert n / 2 == Pow2(k - 1) - 1 - m / 2;
      assert n % 2 == 1 - m % 2;
      AndUnfold(a, m);
      AndUnfold(a, n);
    }
  }

  lemma {:induction false} AndUnfold(a: nat, b: nat)
    ensures BitAnd(a, b) == (if a % 2 == 1 && b % 2 == 1 then 1 else 0) + 2 * BitAnd(a / 2, b / 2)
  {
  }

  lemma {:induction false} AndKeepsFactor(k: nat, a: nat, b: nat)
    requires b % Pow2(k) == 0
    ensures BitAnd(a, b) % Pow2(k) == 0
  {
    if a == 0 || b == 0 {
      MultipleOf(0, Pow2(k));
    } else if k > 0 {
      var p, c := Pow2(k - 1), BitAnd(a / 2, b / 2);
      HalfMultiple(b, p);
      AndKeepsFactor(k - 1, a / 2, b / 2);
      DoubleMultiple(c, p);
      assert BitAnd(a, b) == 2 * c;
    }
  }

  lemma {:induction false} AndLowMask(k: nat, a: nat)
    ensures BitAnd(a, Pow2(k) - 1) == a % Pow2(k)
  {
    if k > 0 {
      var p := Pow2(k - 1);
      AndLowMask(k - 1, a / 2);
      AndUnfold(a, 2 * p - 1);
      hide BitAnd;
      assert (2 * p - 1) % 2 == 1 && (2 * p - 1) / 2 == p - 1;
      assert BitAnd(a, 2 * p - 1) == a % 2 + 2 * ((a / 2) % p);
      DoubleRemainder(a, p);
    }
  }

  lemma WordIsPow2()
    ensures Pow2(64) == WORD
  {
    assert Pow2(8) == 256;
    PowAdd(8, 8);
    PowAdd(16, 16);
    PowAdd(32, 32);
  }

  lemma {:induction false} PowAdd(a: nat, b: nat)
    ensures Pow2(a + b) == Pow2(a) * Pow2(b)
  {
    if a > 0 {
      PowAdd(a - 1, b);
    }
  }

  // ---------------------------------------------------------------- multiples

  lemma MulAtLeast(x: int, n: int)
    requires x >= 1 && n > 0
    ensures x * n >= n
  {
    assert x * n == (x - 1) * n + n;
  }

  lemma Remainder(a: int, n: int, q: int, r: int)
    requires n > 0 && 0 <= r < n && a == q * n + r
    ensures a % n == r && a / n == q
  {
    var q', r' := a / n, a % n;
    assert a == q' * n + r';
    if q > q' {
      assert (q - q') * n == q * n - q' * n;
      MulAtLeast(q - q', n);
    } else if q < q' {
      assert (q' - q) * n == q' * n - q * n;
      MulAtLeast(q' - q, n);
    }
  }

  lemma MultipleOf(q: int, n: int)
    requires n > 0
    ensures (q * n) % n == 0
  {
    Remainder(q * n, n, q, 0);
  }

  lemma MultipleTrans(a: int, n: int, p: int)
    requires n > 0 && p > 0 && a % n == 0 && n % p == 0
    ensures a % p == 0
  {
    var x, y := a / n, n / p;
    assert a == x * n && n == y * p;
    assert a == (x * y) * p;
    MultipleOf(x * y, p);
  }

  lemma HalfMultiple(b: int, p: int)
    requires p > 0 && b % (2 * p) == 0
    ensures b % 2 == 0 && (b / 2) % p == 0
  {
    var q := b / (2 * p);
    assert b == (2 * p) * q == 2 * (q * p);
    MultipleOf(q, p);
  }

  lemma DoubleMultiple(c: int, p: int)
    requires p > 0 && c % p == 0
    ensures (2 * c) % (2 * p) == 0
  {
    var q := c / p;
    assert c == p * q;
    assert 2 * c == q * (2 * p);
    MultipleOf(q, 2 * p);
  }

  lemma DoubleRemainder(a: int, p: int)
    requires p > 0
    ensures a % (2 * p) == 2 * ((a / 2) % p) + a % 2
  {
    var q, r := (a / 2) / p, (a / 2) % p;
    assert a / 2 == p * q + r;
    assert q * (2 * p) == 2 * (p * q);
    Remainder(a, 2 * p, q, 2 * r + a % 2);
  }

  lemma AlignedSum(a: int, b: int, n: int)
    requires n > 0 && a % n == 0 && b % n == 0
    ensures (a + b) % n == 0 && (a - b) % n == 0
  {
    assert a + b == (a / n + b / n) * n;
    assert a - b == (a / n - b / n) * n;
    MultipleOf(a / n + b / n, n);
    MultipleOf(a / n - b / n, n);
  }

  /** Two different multiples of n are at least n apart. */
  lemma AlignedGap(a: int, b: int, n: int)
    requires n > 0 && a % n == 0 && b % n == 0 && a < b
    ensures a + n <= b
  {
    var x := b / n - a / n;
    assert a == (a / n) * n && b == (b / n) * n;
    assert x * n == b - a;
    if x >= 1 {
      MulAtLeast(x, n);
    }
  }

  // ---------------------------------------------------------------- rounding

  /** Rounding down never goes up, and stays within one alignment of its argument. */
  lemma TruncpNear(addr: U64, align: U64)
    requires align > 0
    ensures addr - align < Truncp(addr, align) <= addr
  {
    WordIsPow2();
    AndSplits(64, addr, align - 1);
    AndBounds(addr, align - 1);
  }

  /** Rounding up is sound, for any alignment, exactly when adding the mask does not wrap. */
  lemma CeilpSoundIffNoWrap(addr: U64, align: U64)
    requires align > 0
    ensures addr <= Ceilp(addr, align) <==> addr + align - 1 < WORD
    ensures addr + align - 1 < WORD ==> Ceilp(addr, align) < addr + align
  {
    WordIsPow2();
    var sum := Add64(addr, align - 1);
    AndSplits(64, sum, align - 1);
    AndBounds(sum, align - 1);
  }

  /** An alignment that is a multiple of the page size rounds to page boundaries. */
  lemma RoundsToPages(addr: U64, align: U64, page: int)
    requires IsPow2(page) && page <= WORD && align % page == 0
    ensures Truncp(addr, align) % page == 0 && Ceilp(addr, align) % page == 0
  {
    var k: nat :| page == Pow2(k);
    var mask := Not64(Sub64(align, 1));
    if align == 0 {
      assert mask == 0;
      assert Truncp(addr, align) == Ceilp(addr, align) == 0;
    } else {
      PageDividesWord(k);
      AlignedSum(WORD, align, page);
      AndKeepsFactor(k, addr, mask);
      AndKeepsFactor(k, Add64(addr, Sub64(align, 1)), mask);
    }
  }

  lemma {:induction false} PowMono(a: nat, b: nat)
    requires a < b
    ensures Pow2(a) < Pow2(b)
  {
    if a + 1 < b {
      PowMono(a, b - 1);
    }
  }

  lemma PageDividesWord(k: nat)
    requires Pow2(k) <= WORD
    ensures WORD % Pow2(k) == 0
  {
    WordIsPow2();
    if k > 64 {
      PowMono(64, k);
    }
    PowAdd(64 - k, k);
    MultipleOf(Pow2(64 - k), Pow2(k));
  }

  /** For powers of two the masks are the usual rounding; a wrapping round-up gives zero. */
  lemma PowerOfTwoRounding(addr: U64, align: U64)
    requires IsPow2(align)
    ensures Truncp(addr, align) == addr - addr % align
    ensures Ceilp(addr, align) % align == 0
    ensures addr + align - 1 < WORD ==> addr <= Ceilp(addr, align) < addr + align
    ensures addr + align - 1 >= WORD ==> Ceilp(addr, align) == 0
  {
    var k: nat :| align == Pow2(k);
    WordIsPow2();
    AndLowMask(k, addr);
    AndSplits(64, addr, align - 1);
    CeilpSoundIffNoWrap(addr, align);
    RoundsToPages(addr, align, align);
    if addr + align - 1 >= WORD && Ceilp(addr, align) > 0 {
      AlignedGap(0, Ceilp(addr, align), align);
    }
  }

  /** Rounding up by a power of two gives the least multiple that is not below. */
  lemma CeilpIsLeast(addr: U64, align: U64, other: int)
    requires IsPow2(align) && addr + align - 1 < WORD
    requires addr <= other && other % align == 0
    ensures Ceilp(addr, align) <= other
  {
    PowerOfTwoRounding(addr, align);
    if other < Ceilp(addr, align) {
      AlignedGap(other, Ceilp(addr, align), align);
    }
  }
}
