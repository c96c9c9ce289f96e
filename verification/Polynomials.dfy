/**
 Polynomials over GF(2), written as sequences of coefficients with the highest degree first,
 and their division by the CRC-16 generator x^16 + x^15 + x^2 + 1. This is the reference the
 bit loops of IntegrityChecker.cs are proved against.
 */
module Polynomials {
  import opened Bytes

  type Poly = seq<bool>

  function Xor(a: Poly, b: Poly): (d: Poly)
    requires |a| == |b|
    ensures |d| == |a| && forall k :: 0 <= k < |a| ==> d[k] == (a[k] != b[k])
  {
    seq(|a|, k requires 0 <= k < |a| => a[k] != b[k])
  }

  /** 0x8005 with its leading term: x^16 + x^15 + x^2 + 1. */
  const GENERATOR: Poly := [true, true] + Zeros(12) + [true, false, true]

  /** A polynomial of degree below 16. */
  type Residue = r: Poly | |r| == 16 witness Zeros(16)

  // ---------- schoolbook multiplication and division ----------

  /** lead * x^(n-1) * generator. */
  function LeadingCopy(lead: bool, n: nat): (p: Poly)
    requires n > 0
    ensures |p| == n + 16
  {
    if lead then GENERATOR + Zeros(n - 1) else Zeros(n + 16)
  }

  /** The product of a quotient and the generator: one shifted copy for each set coefficient. */
  function TimesGenerator(q: Poly): (p: Poly)
    ensures |p| == |q| + 16
  {
    if q == [] then Zeros(16)
    else Xor(LeadingCopy(q[0], |q|), [false] + TimesGenerator(q[1..]))
  }

  /** A message of n bits after a register: message * x^16, with the register added to its top. */
  function Dividend(register: Residue, message: Poly): (d: Poly)
    ensures |d| == |message| + 16
  {
    Xor(message + Zeros(16), register + Zeros(|message|))
  }

  /** r is what is left of d when a multiple of the generator is taken out. */
  ghost predicate LeavesRemainder(d: Poly, q: Poly, r: Residue)
    requires |d| >= 16
  {
    |q| == |d| - 16 && d == Xor(TimesGenerator(q), Zeros(|q|) + r)
  }

  ghost predicate HasRemainder(d: Poly, r: Residue)
    requires |d| >= 16
  {
    exists q: Poly :: LeavesRemainder(d, q, r)
  }

  ghost predicate IsMultiple(e: Poly) {
    exists q: Poly :: e == TimesGenerator(q)
  }

  // ---------- the shift register ----------

  /** One step: drop the leading coefficient, and subtract the generator if it was set. */
  function Shift(r: Residue): Residue {
    var dropped := r[1..] + [false];
    if r[0] then Xor(dropped, GENERATOR[1..]) else dropped
  }

  function FlipFirst(r: Residue, b: bool): Residue {
    r[0 := r[0] != b]
  }

  /** Feeding a message to the register, highest degree first. */
  function Feed(r: Residue, message: Poly): Residue
    decreases |message|
  {
    if message == [] then r else Feed(Shift(FlipFirst(r, message[0])), message[1..])
  }

  lemma {:induction false} FeedAppend(r: Residue, a: Poly, b: Poly)
    ensures Feed(r, a + b) == Feed(Feed(r, a), b)
    decreases |a|
  {
    if a == [] {
      assert a + b == b;
    } else {
      assert (a + b)[1..] == a[1..] + b;
      FeedAppend(Shift(FlipFirst(r, a[0])), a[1..], b);
    }
  }

  // ---------- linearity ----------

  lemma ShiftLinear(r: Residue, s: Residue)
    ensures Shift(Xor(r, s)) == Xor(Shift(r), Shift(s))
  {
  }

  lemma {:induction false} FeedLinear(r: Residue, s: Residue, a: Poly, b: Poly)
    requires |a| == |b|
    ensures Feed(Xor(r, s), Xor(a, b)) == Xor(Feed(r, a), Feed(s, b))
    decreases |a|
  {
    if a != [] {
      var r', s' := FlipFirst(r, a[0]), FlipFirst(s, b[0]);
      assert FlipFirst(Xor(r, s), Xor(a, b)[0]) == Xor(r', s');
      assert Xor(a, b)[1..] == Xor(a[1..], b[1..]);
      ShiftLinear(r', s');
      FeedLinear(Shift(r'), Shift(s'), a[1..], b[1..]);
    }
  }

  // ---------- injectivity ----------

  lemma ShiftKernel(r: Residue)
    ensures Shift(r) == Zeros(16) <==> r == Zeros(16)
  {
    if Shift(r) == Zeros(16) {
      assert !Shift(r)[15];
      assert forall k :: 1 <= k < 16 ==> r[k] == Shift(r)[k - 1];
    }
  }

  lemma FeedZero(r: Residue, n: nat)
    requires n > 0
    ensures Feed(r, Zeros(n)) == Feed(Shift(r), Zeros(n - 1))
  {
    assert FlipFirst(r, false) == r;
    assert Zeros(n)[1..] == Zeros(n - 1);
  }

  /** Feeding zeros only shifts, and shifting loses nothing. */
  lemma {:induction false} FeedZerosKernel(r: Residue, n: nat)
    ensures Feed(r, Zeros(n)) == Zeros(16) <==> r == Zeros(16)
    decreases n
  {
    if n > 0 {
      ShiftKernel(r);
      FeedZero(r, n);
      FeedZerosKernel(Shift(r), n - 1);
    }
  }

  lemma WindowStep(r: Residue, w: Poly)
    requires 1 <= |w| <= 16
    ensures Xor(Shift(FlipFirst(r, w[0])), w[1..] + Zeros(17 - |w|)) == Shift(Xor(r, w + Zeros(16 - |w|)))
  {
  }

  /** Up to 16 bits can be added to the register in one go, and then shifted through. */
  lemma {:induction false} FeedWindow(r: Residue, w: Poly)
    requires |w| <= 16
    ensures Feed(r, w) == Feed(Xor(r, w + Zeros(16 - |w|)), Zeros(|w|))
    decreases |w|
  {
    var mixed := Xor(r, w + Zeros(16 - |w|));
    if w == [] {
      assert mixed == r;
    } else {
      WindowStep(r, w);
      FeedWindow(Shift(FlipFirst(r, w[0])), w[1..]);
      FeedZero(mixed, |w|);
    }
  }

  // ---------- the register is the remainder ----------

  lemma DivisionStep(r: Residue, m: Poly)
    requires m != []
    ensures Dividend(r, m)
         == Xor(LeadingCopy(r[0] != m[0], |m|), [false] + Dividend(Shift(FlipFirst(r, m[0])), m[1..]))
  {
    var rhs := Xor(LeadingCopy(r[0] != m[0], |m|), [false] + Dividend(Shift(FlipFirst(r, m[0])), m[1..]));
    assert forall k :: 0 <= k < |m| + 16 ==> Dividend(r, m)[k] == rhs[k];
  }

  lemma Regroup(copy: Poly, d: Poly, t: Poly, r: Residue)
    requires |copy| == |d| + 1 == |t| + 1 >= 17
    requires d == Xor(t, Zeros(|t| - 16) + r)
    ensures Xor(copy, [false] + d) == Xor(Xor(copy, [false] + t), Zeros(|t| - 15) + r)
  {
  }

  lemma {:induction false} FeedIsRemainder(r: Residue, m: Poly) returns (q: Poly)
    ensures LeavesRemainder(Dividend(r, m), q, Feed(r, m))
    decreases |m|
  {
    if m == [] {
      q := [];
    } else {
      var next := Shift(FlipFirst(r, m[0]));
      var rest := FeedIsRemainder(next, m[1..]);
      q := [r[0] != m[0]] + rest;
      assert q[1..] == rest;
      DivisionStep(r, m);
      Regroup(LeadingCopy(q[0], |q|), Dividend(next, m[1..]), TimesGenerator(rest), Feed(r, m));
    }
  }

  lemma XorCancel(copy: Poly, t: Poly, p: Poly)
    requires |copy| == |t| == |p|
    ensures Xor(Xor(Xor(copy, t), p), copy) == Xor(t, p)
  {
  }

  lemma XorTail(t: Poly, r: Residue)
    requires |t| >= 16
    ensures Xor([false] + t, Zeros(|t| - 15) + r)[1..] == Xor(t, Zeros(|t| - 16) + r)
  {
  }

  lemma LeadingTerm(d: Poly, q: Poly, r: Residue)
    requires |d| > 16 && LeavesRemainder(d, q, r)
    ensures d[0] == q[0]
  {
  }

  lemma QuotientStep(d: Poly, q: Poly, r: Residue)
    requires |d| > 16 && LeavesRemainder(d, q, r)
    ensures d[0] == q[0]
    ensures LeavesRemainder(Xor(d, LeadingCopy(q[0], |q|))[1..], q[1..], r)
  {
    LeadingTerm(d, q, r);
    XorCancel(LeadingCopy(q[0], |q|), [false] + TimesGenerator(q[1..]), Zeros(|q|) + r);
    XorTail(TimesGenerator(q[1..]), r);
  }

  lemma {:induction false} RemainderUnique(d: Poly, q: Poly, r: Residue, q': Poly, r': Residue)
    requires |d| >= 16
    requires LeavesRemainder(d, q, r) && LeavesRemainder(d, q', r')
    ensures q == q' && r == r'
    decreases |d|
  {
    if q == [] {
      assert r == d && r' == d;
    } else {
      QuotientStep(d, q, r);
      QuotientStep(d, q', r');
      RemainderUnique(Xor(d, LeadingCopy(q[0], |q|))[1..], q[1..], r, q'[1..], r');
      assert q == [d[0]] + q[1..] && q' == [d[0]] + q'[1..];
    }
  }
}
