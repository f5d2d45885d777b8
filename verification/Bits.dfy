/**
 The bit tricks of the image validator and of the JIT allocator, and what they mean as arithmetic.
 Python integers are unbounded two's complement; a C `size_t` is the residue modulo 2^64.
 */
module Bits {
  import opened Bytes

  function Pow2(k: nat): (p: int)
    ensures p > 0
  {
    if k == 0 then 1 else 2 * Pow2(k - 1)
  }

  ghost predicate IsPowerOfTwo(x: int) {
    exists k: nat :: x == Pow2(k)
  }

  function Magnitude(x: int): nat {
    if x < 0 then -x else x
  }

  /** Bitwise `x & y` on unbounded two's complement integers: `-1` is all ones. */
  function BitAnd(x: int, y: int): int
    decreases Magnitude(x) + Magnitude(y)
  {
    if x in {0, -1} && y in {0, -1} then
      if x == -1 && y == -1 then -1 else 0
    else
      2 * BitAnd(x / 2, y / 2) + (if x % 2 == 1 && y % 2 == 1 then 1 else 0)
  }

  /** Bitwise `~x` on unbounded two's complement integers. */
  function BitNot(x: int): int {
    -x - 1
  }

  lemma {:induction false} AndIdempotent(x: int)
    ensures BitAnd(x, x) == x
    decreases Magnitude(x)
  {
    if x !in {0, -1} {
      AndIdempotent(x / 2);
    }
  }

  lemma {:induction false} AndZero(x: int)
    ensures BitAnd(x, 0) == 0
    decreases Magnitude(x)
  {
    if x !in {0, -1} {
      AndZero(x / 2);
    }
  }

  lemma {:induction false} AndAllOnes(x: int)
    ensures BitAnd(x, -1) == x
    decreases Magnitude(x)
  {
    if x !in {0, -1} {
      AndAllOnes(x / 2);
    }
  }

  lemma HalfRemainder(x: int, k: nat)
    requires k > 0
    ensures x % Pow2(k) == 2 * (x / 2 % Pow2(k - 1)) + x % 2
    ensures x / Pow2(k) == x / 2 / Pow2(k - 1)
  {
    var p := Pow2(k - 1);
    var q, r := x / 2 / p, x / 2 % p;
    assert x == q * (2 * p) + (2 * r + x % 2);
    QuotientRemainderUnique(x, 2 * p, q, 2 * r + x % 2);
  }

  lemma QuotientRemainderUnique(x: int, d: int, q: int, r: int)
    requires d > 0 && 0 <= r < d && x == q * d + r
    ensures x / d == q && x % d == r
  {
    var q', r' := x / d, x % d;
    assert (q' - q) * d == r - r';
    MultipleSize(q' - q, d);
  }

  lemma MultipleSize(n: int, d: int)
    requires d > 0
    ensures n >= 1 ==> n * d >= d
    ensures n <= -1 ==> n * d <= -d
  {
    if n >= 1 {
      assert n * d == (n - 1) * d + d;
    } else if n <= -1 {
      assert n * d == (n + 1) * d - d;
    }
  }

  /** Masking with `2^k - 1` keeps the remainder. */
  lemma {:induction false} AndLowMask(x: int, k: nat)
    ensures BitAnd(x, Pow2(k) - 1) == x % Pow2(k)
    decreases k
  {
    if k == 0 {
      AndZero(x);
    } else {
      AndLowMask(x / 2, k - 1);
      HalfRemainder(x, k);
      assert (Pow2(k) - 1) / 2 == Pow2(k - 1) - 1 && (Pow2(k) - 1) % 2 == 1;
    }
  }

  /** Masking with `~(2^k - 1)` removes the remainder. */
  lemma {:induction false} AndHighMask(x: int, k: nat)
    ensures BitAnd(x, BitNot(Pow2(k) - 1)) == x - x % Pow2(k)
    decreases k
  {
    if k == 0 {
      AndAllOnes(x);
    } else {
      AndHighMask(x / 2, k - 1);
      HalfRemainder(x, k);
      assert BitNot(Pow2(k) - 1) / 2 == BitNot(Pow2(k - 1) - 1) && BitNot(Pow2(k) - 1) % 2 == 0;
    }
  }

  /** The lowest bit of an even mask removes the lowest bit. */
  lemma AndEven(x: int, half: int)
    ensures BitAnd(x, 2 * half) == 2 * BitAnd(x / 2, half)
  {
    assert 2 * half / 2 == half && 2 * half % 2 == 0;
    if x in {0, -1} && half == 0 {
      AndZero(x / 2);
    }
  }

  lemma RemainderFromHalf(x: int, k: nat)
    requires k > 0
    ensures 2 * (x / 2 - x / 2 % Pow2(k - 1)) == x - x % Pow2(k)
  {
    HalfRemainder(x, k);
  }

  /** The same mask cut to a `width`-bit word: the complement has no ones above the word. */
  lemma {:induction false} AndWordMask(x: int, k: nat, width: nat)
    requires k <= width && 0 <= x < Pow2(width)
    ensures BitAnd(x, Pow2(width) - Pow2(k)) == x - x % Pow2(k)
    decreases width
  {
    if width == 0 {
    } else if k == 0 {
      AndLowMask(x, width);
      QuotientRemainderUnique(x, Pow2(width), 0, x);
    } else {
      AndWordMask(x / 2, k - 1, width - 1);
      AndEven(x, Pow2(width - 1) - Pow2(k - 1));
      RemainderFromHalf(x, k);
    }
  }

  /** Masking with the single bit `2^k` tests that bit. */
  lemma {:induction false} AndSingleBit(x: int, k: nat)
    ensures BitAnd(x, Pow2(k)) == Pow2(k) * (x / Pow2(k) % 2)
    decreases k
  {
    if k == 0 {
      AndZero(x / 2);
    } else {
      AndSingleBit(x / 2, k - 1);
      HalfRemainder(x, k);
    }
  }

  /** Each binary digit of `x & y` is one exactly if it is one in both. */
  lemma {:induction false} AndByDigits(x: int, y: int, k: nat)
    ensures BitAnd(x, y) / Pow2(k) % 2 == 1 <==> x / Pow2(k) % 2 == 1 && y / Pow2(k) % 2 == 1
    decreases k
  {
    if k > 0 {
      AndByDigits(x / 2, y / 2, k - 1);
      HalfRemainder(x, k);
      HalfRemainder(y, k);
      HalfRemainder(BitAnd(x, y), k);
      assert BitAnd(x, y) / 2 == BitAnd(x / 2, y / 2);
    }
  }

  /** `x & (x - 1)` vanishes exactly at the powers of two (scripts/generate-runtime-manifest.py:489). */
  lemma {:induction false} PowerOfTwoTest(x: int)
    requires x > 0
    ensures BitAnd(x, x - 1) == 0 <==> IsPowerOfTwo(x)
    decreases x
  {
    if x == 1 {
      assert x == Pow2(0);
    } else if x % 2 == 0 {
      PowerOfTwoTest(x / 2);
      assert BitAnd(x, x - 1) == 2 * BitAnd(x / 2, x / 2 - 1);
      HalfOfPower(x);
    } else {
      AndIdempotent(x / 2);
      OddIsNoPower(x);
    }
  }

  lemma HalfOfPower(x: int)
    requires x > 0 && x % 2 == 0
    ensures IsPowerOfTwo(x) <==> IsPowerOfTwo(x / 2)
  {
    if IsPowerOfTwo(x / 2) {
      var k: nat :| x / 2 == Pow2(k);
      assert x == Pow2(k + 1);
    }
    if IsPowerOfTwo(x) {
      var k: nat :| x == Pow2(k);
      assert x / 2 == Pow2(k - 1);
    }
  }

  lemma OddIsNoPower(x: int)
    requires x > 1 && x % 2 == 1
    ensures !IsPowerOfTwo(x)
  {
    forall k: nat ensures x != Pow2(k) {}
  }

  ghost predicate LeastMultipleFrom(m: int, a: int, e: int)
    requires a > 0
  {
    && m % a == 0
    && e <= m
    && forall n :: n % a == 0 && e <= n ==> m <= n
  }

  /** The expression the validator uses to close an executable span on an alignment boundary. */
  function AlignUp(e: int, alignment: int): int {
    BitAnd(e + alignment - 1, BitNot(alignment - 1))
  }

  lemma RoundedIsLeastMultiple(e: int, a: int)
    requires a > 0
    ensures LeastMultipleFrom(e + a - 1 - (e + a - 1) % a, a, e)
  {
    var x := e + a - 1;
    var m := x - x % a;
    assert m == x / a * a;
    QuotientRemainderUnique(m, a, x / a, 0);
    forall n | n % a == 0 && e <= n
      ensures m <= n
    {
      var q := n / a;
      assert n - m == (q - x / a) * a;
      MultipleSize(q - x / a, a);
    }
  }

  lemma AlignUpIsLeastMultiple(e: int, alignment: int)
    requires IsPowerOfTwo(alignment)
    ensures LeastMultipleFrom(AlignUp(e, alignment), alignment, e)
  {
    var k: nat :| alignment == Pow2(k);
    AndHighMask(e + alignment - 1, k);
    RoundedIsLeastMultiple(e, alignment);
  }

  /** `page_round` in `size_t` arithmetic (platform/darwin/graft_jit.c:36-39). */
  function PageRound(size: int, page: int): int {
    BitAnd((size + page - 1) % 0x1_0000_0000_0000_0000, TWO_TO_THE_64 - 1 - (page - 1))
  }

  lemma WordSum(size: int, page: int)
    requires 0 < size < TWO_TO_THE_64 && 0 < page <= TWO_TO_THE_64
    ensures var sum := (size + page - 1) % 0x1_0000_0000_0000_0000;
            && 0 <= sum < TWO_TO_THE_64
            && sum == if size <= TWO_TO_THE_64 - page then size + page - 1 else size + page - 1 - TWO_TO_THE_64
  {
  }

  lemma PageRoundIsMask(size: int, page: int) returns (sum: int)
    requires IsPowerOfTwo(page) && page <= TWO_TO_THE_64
    requires 0 < size < TWO_TO_THE_64
    ensures sum == if size <= TWO_TO_THE_64 - page then size + page - 1 else size + page - 1 - TWO_TO_THE_64
    ensures PageRound(size, page) == sum - sum % page
  {
    var k: nat :| page == Pow2(k);
    WordWidth(k);
    WordSum(size, page);
    sum := (size + page - 1) % 0x1_0000_0000_0000_0000;
    AndWordMask(sum, k, 64);
  }

  /** `page_round` is the least multiple of the page when that fits a `size_t`, and wraps to exactly 0 otherwise. */
  lemma PageRoundExact(size: int, page: int)
    requires IsPowerOfTwo(page) && page <= TWO_TO_THE_64
    requires 0 < size < TWO_TO_THE_64
    ensures size <= TWO_TO_THE_64 - page ==> LeastMultipleFrom(PageRound(size, page), page, size)
    ensures size > TWO_TO_THE_64 - page ==> PageRound(size, page) == 0
    ensures 0 <= PageRound(size, page) < TWO_TO_THE_64
  {
    var sum := PageRoundIsMask(size, page);
    if size <= TWO_TO_THE_64 - page {
      RoundedIsLeastMultiple(size, page);
    } else {
      QuotientRemainderUnique(sum, page, 0, sum);
    }
  }

  lemma {:induction false} Pow2Monotone(a: nat, b: nat)
    requires a < b
    ensures Pow2(a) < Pow2(b)
  {
    if a + 1 < b {
      Pow2Monotone(a, b - 1);
    }
  }

  lemma {:induction false} Pow2Sum(a: nat, b: nat)
    ensures Pow2(a + b) == Pow2(a) * Pow2(b)
  {
    if a > 0 {
      Pow2Sum(a - 1, b);
    }
  }

  lemma WordWidth(k: nat)
    requires Pow2(k) <= TWO_TO_THE_64
    ensures Pow2(64) == TWO_TO_THE_64 && k <= 64
  {
    assert Pow2(8) == 0x100;
    Pow2Sum(8, 8);
    assert Pow2(16) == 0x1_0000;
    Pow2Sum(16, 16);
    assert Pow2(32) == 0x1_0000_0000;
    Pow2Sum(32, 32);
    if k > 64 {
      Pow2Monotone(64, k);
    }
  }
}
