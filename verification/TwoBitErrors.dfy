/**
 Two flipped bits in a frame: the CRC of IntegrityChecker.cs misses them exactly when their distance is a
 multiple of 32767, the order of x modulo the generator (x + 1)(x^15 + x + 1).
 */
module TwoBitErrors {
  import opened Bytes
  import opened Polynomials
  import opened Crc16

  // ---------- multiplying by x ----------

  /** r * x^n modulo the generator. */
  function Times(r: Residue, n: nat): Residue {
    Feed(r, Zeros(n))
  }

  lemma TimesNone(r: Residue)
    ensures Times(r, 0) == r
  {
  }

  lemma TimesAdd(r: Residue, m: nat, n: nat)
    ensures Times(r, m + n) == Times(Times(r, m), n)
  {
    assert Zeros(m + n) == Zeros(m) + Zeros(n);
    FeedAppend(r, Zeros(m), Zeros(n));
  }

  lemma TimesOne(r: Residue)
    ensures Times(r, 1) == Shift(r)
  {
    FeedZero(r, 1);
  }

  lemma TimesXor(r: Residue, s: Residue, n: nat)
    ensures Times(Xor(r, s), n) == Xor(Times(r, n), Times(s, n))
  {
    assert Xor(Zeros(n), Zeros(n)) == Zeros(n);
    FeedLinear(r, s, Zeros(n), Zeros(n));
  }

  lemma TimesInjective(r: Residue, s: Residue, n: nat)
    ensures Times(r, n) == Times(s, n) <==> r == s
  {
    TimesXor(r, s, n);
    FeedZerosKernel(Xor(r, s), n);
    XorIsZeroPoly(r, s);
    XorIsZeroPoly(Times(r, n), Times(s, n));
  }

  // ---------- 1 and x + 1 ----------

  const ONE: Residue := Zeros(15) + [true]
  const X_PLUS_ONE: Residue := Zeros(14) + [true, true]
  const TOP: Residue := [true] + Zeros(15)

  lemma {:induction false} PowerOfX(e: nat)
    requires e <= 15
    ensures Times(ONE, e) == Zeros(15 - e) + [true] + Zeros(e)
  {
    if e == 0 {
      TimesNone(ONE);
      assert Zeros(15) + [true] + Zeros(0) == ONE;
    } else {
      PowerOfX(e - 1);
      TimesAdd(ONE, e - 1, 1);
      TimesOne(Times(ONE, e - 1));
    }
  }

  lemma {:induction false} SmallMultiple(e: nat)
    requires e <= 14
    ensures Times(X_PLUS_ONE, e) == Zeros(14 - e) + [true, true] + Zeros(e)
  {
    if e == 0 {
      TimesNone(X_PLUS_ONE);
      assert Zeros(14) + [true, true] + Zeros(0) == X_PLUS_ONE;
    } else {
      SmallMultiple(e - 1);
      TimesAdd(X_PLUS_ONE, e - 1, 1);
      TimesOne(Times(X_PLUS_ONE, e - 1));
    }
  }

  lemma XPlusOne()
    ensures X_PLUS_ONE == Xor(Shift(ONE), ONE)
  {
  }

  /** x^15 (x + 1) and (x + 1)(x + 1) are the same: x + 1 takes the other factor of the generator to zero. */
  lemma OtherFactor()
    ensures Times(X_PLUS_ONE, 15) == Xor(Shift(X_PLUS_ONE), X_PLUS_ONE)
  {
    SmallMultiple(14);
    TimesAdd(X_PLUS_ONE, 14, 1);
    TimesOne(Times(X_PLUS_ONE, 14));
  }

  // ---------- the coefficients as a bit sequence ----------

  /** The coefficient at `place` of (x + 1) * x^n. */
  function Coefficient(place: nat, n: nat): bool
    requires place < 16
  {
    Times(X_PLUS_ONE, n)[place]
  }

  /** Each coefficient sequence obeys the recurrence of x^15 + x + 1. */
  lemma Recurrence(place: nat, n: nat)
    requires place < 16
    ensures Coefficient(place, n + 15) == (Coefficient(place, n + 1) != Coefficient(place, n))
  {
    OtherFactor();
    TimesAdd(X_PLUS_ONE, 15, n);
    TimesOne(X_PLUS_ONE);
    TimesXor(Times(X_PLUS_ONE, 1), X_PLUS_ONE, n);
    TimesAdd(X_PLUS_ONE, 1, n);
  }

  /** Squaring in characteristic two: the same recurrence at every power of two. */
  lemma {:induction false} Doubled(place: nat, k: nat, n: nat)
    requires place < 16
    ensures Coefficient(place, n + 15 * Pow2(k)) == (Coefficient(place, n + Pow2(k)) != Coefficient(place, n))
    decreases k
  {
    if k == 0 {
      Recurrence(place, n);
    } else {
      var p := Pow2(k - 1);
      Doubled(place, k - 1, n);
      Doubled(place, k - 1, n + p);
      Doubled(place, k - 1, n + 15 * p);
      assert n + 15 * p + 15 * p == n + 15 * Pow2(k) && n + p + p == n + Pow2(k);
      assert n + 15 * p + p == n + p + 15 * p;
    }
  }

  /** x^(16p) = x^(2p) + x^p for every power of two p. */
  lemma Reduce(place: nat, k: nat, n: nat)
    requires place < 16
    ensures Coefficient(place, n + 16 * Pow2(k))
         == (Coefficient(place, n + 2 * Pow2(k)) != Coefficient(place, n + Pow2(k)))
  {
    Doubled(place, k, n + Pow2(k));
  }

  lemma Powers()
    ensures Pow2(1) == 2 && Pow2(2) == 4 && Pow2(3) == 8 && Pow2(4) == 16 && Pow2(5) == 32 && Pow2(6) == 64
    ensures Pow2(7) == 128
    ensures Pow2(8) == 256 && Pow2(9) == 512 && Pow2(10) == 1024 && Pow2(11) == 2048
  {
    Pow2Table();
  }

  // ---------- the period is at most 32767 ----------

  predicate Period(n: nat) {
    Times(X_PLUS_ONE, n) == X_PLUS_ONE
  }

  /** x^(2^15) = x, by the recurrences at p = 2^0 to 2^11. */
  lemma FullPeriod()
    ensures Period(32767)
  {
    Powers();
    forall place | 0 <= place < 16
      ensures Times(X_PLUS_ONE, 32768)[place] == Times(X_PLUS_ONE, 1)[place]
    {
      Reduce(place, 11, 0);
      Reduce(place, 8, 0);
      Reduce(place, 7, 0);
      Reduce(place, 5, 0);
      Reduce(place, 4, 0);
      Reduce(place, 3, 0);
      Reduce(place, 2, 0);
      Reduce(place, 1, 0);
      Reduce(place, 0, 0);
      assert Coefficient(place, 32768) == Coefficient(place, 1);
    }
    assert Times(X_PLUS_ONE, 32768) == Times(X_PLUS_ONE, 1);
    TimesAdd(X_PLUS_ONE, 32767, 1);
    TimesInjective(Times(X_PLUS_ONE, 32767), X_PLUS_ONE, 1);
  }

  // ---------- and no less ----------

  lemma PeriodRepeats(d: nat, place: nat, n: nat)
    requires Period(d) && place < 16
    ensures Coefficient(place, n + d) == Coefficient(place, n)
  {
    TimesAdd(X_PLUS_ONE, d, n);
  }

  lemma SmallCoefficients(place: nat)
    requires place < 16
    ensures forall e: nat :: e <= 14 ==> (Coefficient(place, e) <==> place == 14 - e || place == 15 - e)
  {
    forall e: nat | e <= 14
      ensures Coefficient(place, e) <==> place == 14 - e || place == 15 - e
    {
      SmallMultiple(e);
    }
  }

  /**
   Were x^217 = 1, then x^247 = x^30. But x^247 = x^9 + x^8 + x^7, which times x + 1 has the term x^10, and
   x^30 = x^2 + 1, which has not.
   */
  lemma NotPeriod217()
    ensures !Period(217)
  {
    if Period(217) {
      Powers();
      PeriodRepeats(217, 5, 30);
      Doubled(5, 4, 7);
      Recurrence(5, 8);
      Doubled(5, 1, 0);
      SmallCoefficients(5);
      assert false;
    }
  }

  /** x^1024 = x^4 + x^2 + x and x^32 = x^4 + x^2, so x^1057 = x^9 + x^6 + x^5 + x^4, which is not 1. */
  lemma NotPeriod1057()
    ensures !Period(1057)
  {
    if Period(1057) {
      Powers();
      PeriodRepeats(1057, 5, 0);
      Power1024(5, 33);
      Reduce(5, 1, 5);
      Reduce(5, 1, 3);
      Reduce(5, 1, 2);
      SmallCoefficients(5);
      assert false;
    }
  }

  lemma Power1024(place: nat, n: nat)
    requires place < 16
    ensures Coefficient(place, n + 1024)
         == (Coefficient(place, n + 4) != (Coefficient(place, n + 2) != Coefficient(place, n + 1)))
  {
    Powers();
    Reduce(place, 6, n);
    Reduce(place, 3, n);
    Reduce(place, 2, n);
    Reduce(place, 0, n);
  }

  /**
   x^4801 = (x^256 + 1)(x^64 + 1) x = (x^4 + x + 1)(x^8 + x^4 + 1) x has degree 13; were x^4681 = 1, it would be
   x^120 = x^8 + 1.
   */
  lemma NotPeriod4681()
    ensures !Period(4681)
  {
    if Period(4681) {
      Powers();
      PeriodRepeats(4681, 1, 120);
      Doubled(1, 3, 0);
      Doubled(1, 8, 961);
      Reduce(1, 4, 961);
      Reduce(1, 1, 961);
      Reduce(1, 0, 961);
      Power961(1, 4);
      Power961(1, 1);
      Power961(1, 0);
      SmallCoefficients(1);
      assert false;
    }
  }

  lemma Power961(place: nat, j: nat)
    requires place < 16
    ensures Coefficient(place, 961 + j)
         == (Coefficient(place, j + 9) != (Coefficient(place, j + 5) != Coefficient(place, j + 1)))
  {
    Powers();
    Doubled(place, 6, j + 1);
    Reduce(place, 2, j + 1);
  }

  // ---------- periods are the multiples of 32767 ----------

  lemma PeriodDifference(m: nat, n: nat)
    requires Period(m)
    ensures Period(m + n) <==> Period(n)
  {
    TimesAdd(X_PLUS_ONE, m, n);
  }

  lemma {:induction false} PeriodMultiple(m: nat, k: nat)
    requires Period(m)
    ensures Period(k * m)
    decreases k
  {
    if k == 0 {
      TimesNone(X_PLUS_ONE);
    } else {
      PeriodMultiple(m, k - 1);
      PeriodDifference(m, (k - 1) * m);
      assert k * m == m + (k - 1) * m;
    }
  }

  /** Euclid's algorithm by subtraction: a common divisor of two periods is a period. */
  lemma {:induction false} CommonDivisor(a: nat, b: nat) returns (g: nat, i: nat, j: nat)
    requires a > 0 && Period(a) && Period(b)
    ensures g > 0 && Period(g) && a == i * g && b == j * g
    decreases a + b
  {
    if b == 0 {
      g, i, j := a, 1, 0;
    } else if b >= a {
      PeriodDifference(a, b - a);
      var j': nat;
      g, i, j' := CommonDivisor(a, b - a);
      j := j' + i;
      assert (j' + i) * g == j' * g + i * g;
    } else {
      PeriodDifference(b, a - b);
      var i': nat;
      g, i', j := CommonDivisor(a - b, b);
      i := i' + j;
      assert (i' + j) * g == i' * g + j * g;
    }
  }

  lemma KnownDivisor(d: nat, q: nat)
    requires 2 <= d <= 181 && d * q == 32767
    ensures d == 7 || d == 31 || d == 151
  {
  }

  lemma LargeFactors(d: nat, q: nat)
    requires d > 181 && q > 181
    ensures d * q > 32767
  {
    assert d * q >= 182 * q >= 182 * 182;
  }

  /** 32767 = 7 * 31 * 151, and none of the quotients by one of these primes is a period. */
  lemma NoProperDivisor(g: nat, i: nat)
    requires Period(g) && i * g == 32767
    ensures g == 32767
  {
    if i > 1 {
      NotPeriod217();
      NotPeriod1057();
      NotPeriod4681();
      if g == 1 {
        PeriodMultiple(g, 217);
      } else if g <= 181 {
        KnownDivisor(g, i);
        PeriodMultiple(g, if g == 31 then 7 else 1057 / g);
      } else if i <= 181 {
        KnownDivisor(i, g);
      } else {
        LargeFactors(i, g);
      }
      assert false;
    }
  }

  /** The order of x on the multiples of x + 1. */
  lemma PeriodIff(n: nat)
    ensures Period(n) <==> n % 32767 == 0
  {
    FullPeriod();
    if n % 32767 == 0 {
      PeriodMultiple(32767, n / 32767);
      assert n / 32767 * 32767 == n;
    }
    if Period(n) {
      var g, i, j := CommonDivisor(32767, n);
      NoProperDivisor(g, i);
    }
  }

  // ---------- two flipped bits ----------

  lemma {:induction false} OddOfXor(a: Poly, b: Poly)
    requires |a| == |b|
    ensures Odd(Xor(a, b)) == (Odd(a) != Odd(b))
  {
    if a != [] {
      assert Xor(a, b)[1..] == Xor(a[1..], b[1..]);
      OddOfXor(a[1..], b[1..]);
    }
  }

  lemma ShiftAt(z: Residue)
    ensures forall k :: 0 <= k < 15 ==> Shift(z)[k] == (z[k + 1] != (z[0] && GENERATOR[k + 1]))
    ensures Shift(z)[15] == z[0]
  {
  }

  /** Only x^15 + x + 1 and zero are fixed by multiplication with x, and the former has three terms. */
  lemma FixedAndEven(z: Residue)
    requires Shift(z) == z && !Odd(z)
    ensures z == Zeros(16)
  {
    OddOf16(z);
    ShiftAt(z);
  }

  /** x has the same order on 1 as on x + 1: what they differ by is fixed and even. */
  lemma OrderOfX(d: nat)
    ensures Times(ONE, d) == ONE <==> d % 32767 == 0
  {
    PeriodIff(d);
    var moved := Times(ONE, d);
    XPlusOne();
    TimesXor(Shift(ONE), ONE, d);
    TimesOne(ONE);
    TimesOne(moved);
    TimesAdd(ONE, 1, d);
    TimesAdd(ONE, d, 1);
    assert Times(X_PLUS_ONE, d) == Xor(Shift(moved), moved);
    if Period(d) {
      var z := Xor(moved, ONE);
      ShiftLinear(moved, ONE);
      assert Xor(Shift(moved), moved) == Xor(Shift(ONE), ONE);
      Rearrange(Shift(moved), moved, Shift(ONE), ONE);
      OddOfXor(moved, ONE);
      FeedKeepsParity(ONE, Zeros(d));
      ZerosAreEven(d);
      FixedAndEven(z);
      XorIsZeroPoly(moved, ONE);
    }
  }

  lemma Rearrange(a: Residue, b: Residue, c: Residue, d: Residue)
    requires Xor(a, b) == Xor(c, d)
    ensures Xor(a, c) == Xor(b, d)
  {
    assert forall k :: 0 <= k < 16 ==> Xor(a, b)[k] == Xor(c, d)[k];
  }

  /** The error with exactly two set bits, d apart. */
  function TwoBits(before: nat, d: nat, after: nat): (e: Poly)
    requires d > 0
    ensures |e| == before + d + 1 + after
  {
    Zeros(before) + [true] + Zeros(d - 1) + [true] + Zeros(after)
  }

  lemma FeedBit(r: Residue)
    ensures Feed(r, [true]) == Shift(FlipFirst(r, true))
  {
    assert [true][1..] == [];
  }

  /** A second bit cancels the first exactly when the first has come round to the top. */
  lemma SecondBit(r: Residue)
    ensures Feed(r, [true]) == Zeros(16) <==> r == TOP
  {
    FeedBit(r);
    ShiftKernel(FlipFirst(r, true));
    if FlipFirst(r, true) == Zeros(16) {
      assert r == FlipFirst(r, true)[0 := r[0]];
    }
    assert FlipFirst(TOP, true) == Zeros(16);
  }

  lemma TwoBitsFeed(before: nat, d: nat, after: nat)
    requires d > 0
    ensures Feed(Zeros(16), TwoBits(before, d, after)) == Zeros(16) <==> d % 32767 == 0
  {
    var head := Zeros(before) + [true] + Zeros(d - 1);
    FeedAppend(Zeros(16), head + [true], Zeros(after));
    FeedAppend(Zeros(16), head, [true]);
    FeedAppend(Zeros(16), Zeros(before) + [true], Zeros(d - 1));
    FeedAppend(Zeros(16), Zeros(before), [true]);
    FeedZerosKernel(Zeros(16), before);
    FeedBit(Zeros(16));
    assert FlipFirst(Zeros(16), true) == TOP;
    FeedZero(TOP, d);
    SecondBit(Times(TOP, d));
    FeedZerosKernel(Feed(Times(TOP, d), [true]), after);
    PowerOfX(15);
    assert Zeros(0) + [true] + Zeros(15) == TOP;
    TimesAdd(ONE, 15, d);
    TimesAdd(ONE, d, 15);
    TimesInjective(Times(ONE, d), ONE, 15);
    OrderOfX(d);
  }

  /** f and g differ in exactly the bits i and j, in transmission order. */
  ghost predicate DifferInTwo(f: seq<byte>, g: seq<byte>, i: nat, j: nat) {
    && |f| == |g| && i < j < 8 * |f|
    && forall k :: 0 <= k < 8 * |f| ==> (FrameBits(f)[k] != FrameBits(g)[k] <==> k == i || k == j)
  }

  lemma TwoBitDifference(a: Poly, b: Poly, i: nat, j: nat)
    requires |a| == |b| && i < j < |a|
    requires forall k :: 0 <= k < |a| ==> (a[k] != b[k] <==> k == i || k == j)
    ensures Xor(a, b) == TwoBits(i, j - i, |a| - j - 1)
  {
  }

  lemma TwoBitsDecide(a: Poly, b: Poly, i: nat, j: nat)
    requires |a| == |b| && i < j < |a|
    requires forall k :: 0 <= k < |a| ==> (a[k] != b[k] <==> k == i || k == j)
    ensures Feed(Zeros(16), Xor(a, b)) == Zeros(16) <==> (j - i) % 32767 == 0
  {
    TwoBitDifference(a, b, i, j);
    TwoBitsFeed(i, j - i, |a| - j - 1);
  }

  /** Two flipped bits of an accepted frame go unnoticed exactly when their distance is a multiple of 32767 bits. */
  lemma TwoBitErrorsIff(f: seq<byte>, g: seq<byte>, i: nat, j: nat)
    requires Accepts(f) && DifferInTwo(f, g, i, j)
    ensures Accepts(g) <==> (j - i) % 32767 == 0
  {
    TwoBitsDecide(FrameBits(f), FrameBits(g), i, j);
    ErrorDecides(f, g);
  }

  /** In particular every two flipped bits of a frame of up to 4095 bytes are noticed. */
  lemma TwoBitErrorsRejected(f: seq<byte>, g: seq<byte>, i: nat, j: nat)
    requires Accepts(f) && DifferInTwo(f, g, i, j) && |f| <= 4095
    ensures !Accepts(g)
  {
    TwoBitErrorsIff(f, g, i, j);
  }
}
