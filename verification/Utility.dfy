/** `next_pow_of_2` of utility.h, on 32-bit unsigned words written as numbers. */
module Utility {

  const WORD_COUNT := 0x1_0000_0000

  function BitOr(a: nat, b: nat): nat {
    if a == 0 then b
    else if b == 0 then a
    else 2 * BitOr(a / 2, b / 2) + (if a % 2 == 1 || b % 2 == 1 then 1 else 0)
  }

  function BitAnd(a: nat, b: nat): nat {
    if a == 0 || b == 0 then 0
    else 2 * BitAnd(a / 2, b / 2) + (if a % 2 == 1 && b % 2 == 1 then 1 else 0)
  }

  function Pow2(n: nat): (p: nat)
    ensures p >= 1
  {
    if n == 0 then 1 else 2 * Pow2(n - 1)
  }

  ghost predicate IsPow2(p: nat) {
    exists k: nat :: p == Pow2(k)
  }

  ghost predicate LeastPow2(x: nat, r: nat) {
    && IsPow2(r)
    && x <= r
    && forall p | IsPow2(p) && x <= p :: r <= p
  }

  /**
   The word arithmetic wraps: zero is answered with zero, and so is everything above 2^31,
   where no power of two is left in the word.
   */
  method NextPowOf2(x0: nat) returns (r: nat)
    requires x0 < WORD_COUNT
    ensures 1 <= x0 <= WORD_COUNT / 2 ==> LeastPow2(x0, r) && r <= WORD_COUNT / 2
    ensures x0 == 0 || x0 > WORD_COUNT / 2 ==> r == 0
  {
    hide BitOr, Pow2, IsPow2, LeastPow2, LeadingOnes;
    if BitAnd(x0, (x0 - 1) % WORD_COUNT) == 0 {
      if x0 > 0 {
        SingleBit(x0);
        PowerIsLeast(x0);
        PowerInWord(x0);
      }
      return x0;
    }
    SingleBit(x0);
    LengthInWord(x0);
    Smeared(x0);
    var x := x0;
    x := BitOr(x, x / 2);
    x := BitOr(x, x / 4);
    x := BitOr(x, x / 16);
    x := BitOr(x, x / 256);
    x := BitOr(x, x / 65536);
    NextIsLeast(x0);
    r := (x + 1) % WORD_COUNT;
  }

  /** The five shift-or steps of the source, in one expression. */
  function SmearAll(x0: nat): nat {
    var x1 := BitOr(x0, x0 / 2);
    var x2 := BitOr(x1, x1 / 4);
    var x4 := BitOr(x2, x2 / 16);
    var x8 := BitOr(x4, x4 / 256);
    BitOr(x8, x8 / 65536)
  }

  lemma Smeared(x0: nat)
    requires 0 < x0 < WORD_COUNT
    ensures SmearAll(x0) + 1 == Pow2(BitLength(x0))
  {
    hide BitOr, Pow2, LeadingOnes;
    var len := BitLength(x0);
    var x1 := BitOr(x0, x0 / 2);
    var x2 := BitOr(x1, x1 / 4);
    var x4 := BitOr(x2, x2 / 16);
    var x8 := BitOr(x4, x4 / 256);
    LengthInWord(x0);
    PowersUpToWord();
    SmearBy(len, 1, 2, x0);
    SmearBy(len, 2, 4, x1);
    SmearBy(len, 4, 16, x2);
    SmearBy(len, 8, 256, x4);
    SmearBy(len, 16, 65536, x8);
    AllOnes(len, SmearAll(x0));
  }

  lemma AllOnes(len: nat, y: nat)
    requires len <= 32 && LeadingOnes(len, 32, y)
    ensures y + 1 == Pow2(len)
  {
  }

  lemma LengthInWord(x: nat)
    requires 0 < x < WORD_COUNT
    ensures BitLength(x) <= 32 && LeadingOnes(BitLength(x), 1, x)
    ensures x <= WORD_COUNT / 2 && !IsPow2(x) ==> Pow2(BitLength(x)) <= WORD_COUNT / 2
    ensures x > WORD_COUNT / 2 ==> Pow2(BitLength(x)) == WORD_COUNT
  {
    var len := BitLength(x);
    PowersUpToWord();
    if len > 32 {
      Pow2Monotone(32, len - 1);
    }
    if len == 32 {
      assert IsPow2(Pow2(31));
    } else {
      Pow2Monotone(len, 31);
    }
  }

  lemma {:induction false} Pow2Monotone(a: nat, b: nat)
    requires a <= b
    ensures Pow2(a) <= Pow2(b)
    ensures a < b ==> 2 * Pow2(a) <= Pow2(b)
  {
    if a < b {
      Pow2Monotone(a, b - 1);
    }
  }

  lemma {:induction false} Pow2Sum(a: nat, b: nat)
    ensures Pow2(a + b) == Pow2(a) * Pow2(b)
  {
    if a > 0 {
      Pow2Sum(a - 1, b);
      assert a + b - 1 == (a - 1) + b;
    }
  }

  lemma PowersUpToWord()
    ensures Pow2(1) == 2 && Pow2(2) == 4 && Pow2(4) == 16 && Pow2(8) == 256 && Pow2(16) == 65536
    ensures Pow2(31) == WORD_COUNT / 2 && Pow2(32) == WORD_COUNT
  {
    assert Pow2(4) == 16;
    assert Pow2(8) == 256 by { Pow2Sum(4, 4); }
    assert Pow2(16) == 65536 by { Pow2Sum(8, 8); }
    assert Pow2(32) == WORD_COUNT by { Pow2Sum(16, 16); }
  }

  /** `x & (x - 1)` is zero exactly on the powers of two. */
  lemma {:induction false} SingleBit(x: nat)
    requires x > 0
    ensures BitAnd(x, x - 1) == 0 <==> IsPow2(x)
  {
    if x == 1 {
      assert 1 == Pow2(0);
    } else if x % 2 == 0 {
      SingleBit(x / 2);
      assert (x - 1) / 2 == x / 2 - 1;
      if IsPow2(x / 2) {
        var k: nat :| x / 2 == Pow2(k);
        assert x == Pow2(k + 1);
      }
      if IsPow2(x) {
        var k: nat :| x == Pow2(k);
        assert x / 2 == Pow2(k - 1);
      }
    } else {
      AndSelf(x / 2);
      assert (x - 1) / 2 == x / 2;
    }
  }

  lemma {:induction false} AndSelf(x: nat)
    ensures BitAnd(x, x) == x
  {
    if x > 0 {
      AndSelf(x / 2);
    }
  }

  lemma PowerInWord(x: nat)
    requires IsPow2(x) && x < WORD_COUNT
    ensures x <= WORD_COUNT / 2
  {
    var k: nat :| x == Pow2(k);
    PowersUpToWord();
    if k < 32 {
      Pow2Monotone(k, 31);
    } else {
      Pow2Monotone(32, k);
    }
  }

  lemma PowerIsLeast(x: nat)
    requires IsPow2(x)
    ensures LeastPow2(x, x)
  {
  }

  /** The number of bits of `x` without leading zeros. */
  function BitLength(x: nat): (len: nat)
    requires x > 0
    ensures len > 0 && Pow2(len - 1) <= x < Pow2(len)
  {
    if x == 1 then 1 else 1 + BitLength(x / 2)
  }

  lemma NextIsLeast(x: nat)
    requires x > 0 && !IsPow2(x)
    ensures LeastPow2(x, Pow2(BitLength(x)))
  {
    var len := BitLength(x);
    forall p | IsPow2(p) && x <= p ensures Pow2(len) <= p {
      var k: nat :| p == Pow2(k);
      if k < len {
        Pow2Monotone(k, len - 1);
      } else {
        Pow2Monotone(len, k);
      }
    }
  }

  /** The least power of two at or above `x`. */
  function RoundUp(x: nat): (r: nat)
    requires x > 0
    ensures r >= x
  {
    var half := Pow2(BitLength(x) - 1);
    if x == half then x else Pow2(BitLength(x))
  }

  lemma RoundUpIsLeast(x: nat, r: nat)
    requires x > 0
    ensures LeastPow2(x, r) <==> r == RoundUp(x)
  {
    var half := Pow2(BitLength(x) - 1);
    if x == half {
      PowerIsLeast(x);
    } else {
      if IsPow2(x) {
        var k: nat :| x == Pow2(k);
        if k < BitLength(x) {
          Pow2Monotone(k, BitLength(x) - 1);
        } else {
          Pow2Monotone(BitLength(x), k);
        }
      }
      NextIsLeast(x);
    }
  }

  /** What the leading `m` bits leave open of a word of `len` bits. */
  function Slack(len: nat, m: nat): nat {
    if m <= len then Pow2(len - m) else 1
  }

  /** The `m` leading bits of the `len`-bit word `y` are all ones. */
  ghost predicate LeadingOnes(len: nat, m: nat, y: nat) {
    Pow2(len) - Slack(len, m) <= y < Pow2(len)
  }

  /** Or-ing in a copy shifted by `m` doubles a run of `m` leading ones. */
  lemma SmearBy(len: nat, m: nat, d: nat, y: nat)
    requires d == Pow2(m) && LeadingOnes(len, m, y)
    ensures LeadingOnes(len, 2 * m, BitOr(y, y / d))
  {
    hide BitOr, Pow2, LeadingOnes;
    Smear(len, m, y);
  }

  lemma Smear(len: nat, m: nat, y: nat)
    requires LeadingOnes(len, m, y)
    ensures LeadingOnes(len, 2 * m, BitOr(y, y / Pow2(m)))
  {
    var s := y / Pow2(m);
    QuotientAtMost(y, Pow2(m));
    OrBelow(len, y, s);
    if m < len {
      var k := len - m;
      Pow2Sum(m, k);
      QuotientBelow(y, Pow2(m), Pow2(k));
      ShiftedRun(m, k, y);
      Distribute(Pow2(m), Pow2(k), Pow2(k));
      OrAtLeast(k, Pow2(m) - 1, y, s);
    }
  }

  /** The copy starts with `m` ones of its own, as far as it is long. */
  lemma ShiftedRun(m: nat, k: nat, y: nat)
    requires y >= Pow2(m + k) - Pow2(k)
    ensures y / Pow2(m) >= Pow2(k) - Slack(k, m)
  {
    Pow2Sum(m, k);
    if m <= k {
      Pow2Sum(m, k - m);
      Distribute(Pow2(m), Pow2(k), Pow2(k - m));
    } else {
      Pow2Monotone(k, m);
      Distribute(Pow2(m), Pow2(k), 1);
    }
    QuotientAtLeast(y, Pow2(m), Pow2(k) - Slack(k, m));
  }

  lemma Distribute(a: nat, b: nat, c: nat)
    ensures a * (b - c) == a * b - a * c
    ensures (a - 1) * b == a * b - b
  {
  }

  lemma QuotientAtMost(y: nat, d: nat)
    requires d >= 1
    ensures y / d <= y
  {
  }

  lemma TimesMonotone(d: nat, a: nat, b: nat)
    requires a <= b
    ensures d * a <= d * b
  {
  }

  lemma QuotientAtLeast(y: nat, d: nat, q: nat)
    requires d >= 1 && d * q <= y
    ensures q <= y / d
  {
    if y / d < q {
      TimesMonotone(d, y / d + 1, q);
    }
  }

  lemma QuotientBelow(y: nat, d: nat, q: nat)
    requires d >= 1 && y < d * q
    ensures y / d < q
  {
  }

  lemma {:induction false} OrBelow(len: nat, a: nat, b: nat)
    requires a < Pow2(len) && b <= a
    ensures a <= BitOr(a, b) < Pow2(len)
  {
    if a > 0 && b > 0 {
      OrBelow(len - 1, a / 2, b / 2);
    }
  }

  /** A low part `s` or-ed under the high part `hi` of `a` is counted in full. */
  lemma {:induction false} OrAtLeast(k: nat, hi: nat, a: nat, s: nat)
    requires hi * Pow2(k) <= a < (hi + 1) * Pow2(k)
    requires s < Pow2(k)
    ensures BitOr(a, s) >= hi * Pow2(k) + s
  {
    if k > 0 && a > 0 && s > 0 {
      var p := Pow2(k - 1);
      assert hi * Pow2(k) == 2 * (hi * p);
      assert (hi + 1) * Pow2(k) == 2 * ((hi + 1) * p);
      OrAtLeast(k - 1, hi, a / 2, s / 2);
    }
  }
}
