/**
 The CRC-16 of src/AtlasGT.Infrastructure/Protocols/IntegrityChecker.cs: the two nested loops over a
 16-bit register, proved to be division by the generator polynomial, and what the check detects.
 */
module Crc16 {
  import opened Bytes
  import opened Polynomials

  /** Exclusive or of two 16-bit words. */
  function XorWord(a: ushort, b: ushort): (w: ushort)
    ensures WordBits(w) == Xor(WordBits(a), WordBits(b))
  {
    WordOfBits(Xor(WordBits(a), WordBits(b)))
  }

  /** The bits of a frame in the order they are sent: byte by byte, lowest bit first. */
  function FrameBits(frame: seq<byte>): (bits: Poly)
    ensures |bits| == 8 * |frame|
  {
    if frame == [] then [] else ByteBits(frame[0]) + FrameBits(frame[1..])
  }

  const INITIAL: Residue := Ones(16)

  /** The sixteen check bits of a message, in transmission order. */
  function CheckBits(data: seq<byte>): Residue {
    Feed(INITIAL, FrameBits(data))
  }

  /** A message followed by its check bits, as a sender lays them out. */
  function AppendCheck(data: seq<byte>): (frame: seq<byte>)
    ensures |frame| == |data| + 2 && frame[..|data|] == data
  {
    data + [ByteOfBits(CheckBits(data)[..8]), ByteOfBits(CheckBits(data)[8..])]
  }

  predicate Accepts(frame: seq<byte>) {
    |frame| >= 2 && CheckBits(frame[..|frame| - 2]) == FrameBits(frame[|frame| - 2..])
  }

  // ---------- the loops ----------

  /** The register's bits, lowest first, are the coefficients of x^15 down to x^0. */
  method CalculateCRC16(data: seq<byte>) returns (crc: ushort)
    ensures WordBits(crc) == CheckBits(data)
  {
    crc := 0xFFFF;
    InitialRegister();
    for i := 0 to |data|
      invariant Feed(WordBits(crc), FrameBits(data[i..])) == CheckBits(data)
    {
      MixNextByte(crc, data, i);
      crc := XorWord(crc, data[i] as ushort);
      crc := ShiftByte(crc);
    }
  }

  /** The inner loop. */
  method ShiftByte(mixed: ushort) returns (crc: ushort)
    ensures WordBits(crc) == Feed(WordBits(mixed), Zeros(8))
  {
    crc := mixed;
    for j := 0 to 8
      invariant Feed(WordBits(crc), Zeros(8 - j)) == Feed(WordBits(mixed), Zeros(8))
    {
      FeedZero(WordBits(crc), 8 - j);
      ShiftRegister(crc);
      if crc % 2 != 0 {
        crc := XorWord(crc / 2, 0xA001);
      } else {
        crc := crc / 2;
      }
    }
  }

  method ValidateCRC16(data: seq<byte>) returns (ok: bool)
    ensures ok <==> Accepts(data)
  {
    if |data| < 2 {
      return false;
    }
    var calculatedCrc := CalculateCRC16(data[..|data| - 2]);
    var low, high := data[|data| - 2], data[|data| - 1];
    var receivedCrc := Word(high, low);
    assert data[|data| - 2..] == [low, high];
    ReceivedBits(high, low);
    if WordBits(calculatedCrc) == WordBits(receivedCrc) {
      WordInjective(calculatedCrc, receivedCrc);
    }
    ok := calculatedCrc == receivedCrc;
  }

  // ---------- registers and bits ----------

  lemma HalfBits(w: ushort)
    ensures WordBits(w)[0] == (w % 2 == 1)
    ensures WordBits(w / 2) == WordBits(w)[1..] + [false]
  {
    var tail := WordBits(w)[1..];
    assert tail == Bits(w as int / 2, Zeros(16)[1..]);
    assert Value(tail) == w as int / 2 by {
      Pow2Table();
      ValueOfBits(w as int / 2, Zeros(16)[1..]);
    }
    ValueAppend(tail, [false]);
    WordBitsUnique(w / 2, tail + [false]);
  }

  /** 0xA001 is the generator without its leading term, lowest bit first. */
  lemma ReflectedGenerator()
    ensures WordBits(0xA001) == GENERATOR[1..]
  {
    var low, high := [true] + Zeros(12), [true, false, true];
    ValueOfZeros(12);
    assert low[1..] == Zeros(12);
    ValueAppend(low, high);
    Pow2Table();
    assert Value(high[1..]) == 2;
    assert GENERATOR[1..] == low + high;
    WordBitsUnique(0xA001, low + high);
  }

  lemma InitialRegister()
    ensures WordBits(0xFFFF) == INITIAL
  {
    ValueOfOnes(16);
    Pow2Table();
    WordBitsUnique(0xFFFF, Ones(16));
  }

  lemma {:induction false} ValueOfOnes(n: nat)
    ensures Value(Ones(n)) == Pow2(n) - 1
  {
    if n > 0 {
      assert Ones(n)[1..] == Ones(n - 1);
      ValueOfOnes(n - 1);
    }
  }

  lemma ShiftRegister(crc: ushort)
    ensures WordBits(if crc % 2 != 0 then XorWord(crc / 2, 0xA001) else crc / 2) == Shift(WordBits(crc))
  {
    HalfBits(crc);
    ReflectedGenerator();
  }

  lemma {:induction false} ValueOfZeros(n: nat)
    ensures Value(Zeros(n)) == 0
  {
    if n > 0 {
      assert Zeros(n)[1..] == Zeros(n - 1);
      ValueOfZeros(n - 1);
    }
  }

  lemma XorByte(crc: ushort, b: byte)
    ensures WordBits(XorWord(crc, b as ushort)) == Xor(WordBits(crc), ByteBits(b) + Zeros(8))
  {
    ValueAppend(ByteBits(b), Zeros(8));
    ValueOfZeros(8);
    ValueOfByte(b);
    WordBitsUnique(b as ushort, ByteBits(b) + Zeros(8));
  }

  lemma ReceivedBits(high: byte, low: byte)
    ensures WordBits(Word(high, low)) == FrameBits([low, high])
  {
    BitsOfWord(high, low);
    FrameBitsOfPair(low, high);
  }

  lemma FeedByteBits(r: Residue, bits: Poly, rest: Poly)
    requires |bits| == 8
    ensures Feed(r, bits + rest) == Feed(Feed(Xor(r, bits + Zeros(8)), Zeros(8)), rest)
  {
    FeedAppend(r, bits, rest);
    FeedWindow(r, bits);
  }

  lemma FrameBitsOfPair(a: byte, b: byte)
    ensures FrameBits([a, b]) == ByteBits(a) + ByteBits(b)
  {
  }

  /** Exclusive-or of a byte into the register and eight shifts feed its eight bits. */
  lemma MixByte(crc: ushort, b: byte, rest: Poly)
    ensures Feed(WordBits(crc), ByteBits(b) + rest)
         == Feed(Feed(WordBits(XorWord(crc, b as ushort)), Zeros(8)), rest)
  {
    XorByte(crc, b);
    FeedByteBits(WordBits(crc), ByteBits(b), rest);
  }

  lemma MixNextByte(crc: ushort, data: seq<byte>, i: nat)
    requires i < |data|
    ensures Feed(WordBits(crc), FrameBits(data[i..]))
         == Feed(Feed(WordBits(XorWord(crc, data[i] as ushort)), Zeros(8)), FrameBits(data[i + 1..]))
  {
    MixByte(crc, data[i], FrameBits(data[i + 1..]));
    assert data[i..][1..] == data[i + 1..];
  }

  lemma {:induction false} FrameBitsAppend(a: seq<byte>, b: seq<byte>)
    ensures FrameBits(a + b) == FrameBits(a) + FrameBits(b)
  {
    if a == [] {
      assert a + b == b;
    } else {
      assert (a + b)[1..] == a[1..] + b;
      FrameBitsAppend(a[1..], b);
    }
  }

  lemma {:induction false} FrameBitsInjective(f: seq<byte>, g: seq<byte>)
    requires FrameBits(f) == FrameBits(g)
    ensures f == g
  {
    if f != [] {
      assert ByteBits(f[0]) == FrameBits(f)[..8] == ByteBits(g[0]);
      assert FrameBits(f[1..]) == FrameBits(f)[8..] == FrameBits(g[1..]);
      ByteInjective(f[0], g[0]);
      FrameBitsInjective(f[1..], g[1..]);
      assert f == [f[0]] + f[1..] && g == [g[0]] + g[1..];
    }
  }

  // ---------- what the check bits are ----------

  /** The register is the one remainder of (message * x^16 + initial * x^n) by the generator. */
  lemma CheckBitsAreTheRemainder(data: seq<byte>, r: Residue)
    ensures r == CheckBits(data) <==> HasRemainder(Dividend(INITIAL, FrameBits(data)), r)
  {
    FeedIsOnlyRemainder(INITIAL, FrameBits(data), r);
  }

  lemma FeedIsOnlyRemainder(start: Residue, m: Poly, r: Residue)
    ensures r == Feed(start, m) <==> HasRemainder(Dividend(start, m), r)
  {
    var d := Dividend(start, m);
    var q := FeedIsRemainder(start, m);
    assert HasRemainder(d, Feed(start, m));
    if HasRemainder(d, r) {
      var other: Poly :| LeavesRemainder(d, other, r);
      RemainderUnique(d, q, Feed(start, m), other, r);
    }
  }

  lemma FeedToZero(r: Residue, t: Residue)
    ensures Feed(r, t) == Zeros(16) <==> r == t
  {
    FeedWindow(r, t);
    assert t + Zeros(0) == t;
    FeedZerosKernel(Xor(r, t), 16);
    if Xor(r, t) == Zeros(16) {
      assert forall k :: 0 <= k < 16 ==> Xor(r, t)[k] == (r[k] != t[k]);
      assert r == t;
    }
    if r == t {
      assert Xor(r, t) == Zeros(16);
    }
  }

  /** A frame is accepted exactly when the register over all of it, check bytes included, ends at zero. */
  lemma AcceptsIffResidueZero(frame: seq<byte>)
    requires |frame| >= 2
    ensures Accepts(frame) <==> CheckBits(frame) == Zeros(16)
  {
    var data, check := frame[..|frame| - 2], frame[|frame| - 2..];
    assert frame == data + check;
    FrameBitsAppend(data, check);
    FeedAppend(INITIAL, FrameBits(data), FrameBits(check));
    FeedToZero(CheckBits(data), FrameBits(check));
  }

  lemma AppendedCheckAccepted(data: seq<byte>)
    ensures Accepts(AppendCheck(data))
  {
    var c := CheckBits(data);
    var check := [ByteOfBits(c[..8]), ByteOfBits(c[8..])];
    assert AppendCheck(data)[|data|..] == check;
    FrameBitsOfPair(check[0], check[1]);
    assert c == c[..8] + c[8..];
  }

  /** And nothing else is accepted. */
  lemma OnlyTheCheckIsAccepted(frame: seq<byte>)
    requires Accepts(frame)
    ensures frame == AppendCheck(frame[..|frame| - 2])
  {
    var data, tail := frame[..|frame| - 2], frame[|frame| - 2..];
    var c := CheckBits(data);
    assert tail == [tail[0], tail[1]];
    FrameBitsOfPair(tail[0], tail[1]);
    assert c[..8] == ByteBits(tail[0]) && c[8..] == ByteBits(tail[1]);
    ByteInjective(tail[0], ByteOfBits(c[..8]));
    ByteInjective(tail[1], ByteOfBits(c[8..]));
    assert frame == data + tail;
  }

  // ---------- what the check detects ----------

  /** Flipping bits of an accepted frame moves the final register to that of the flipped bits alone. */
  lemma ErrorDecides(f: seq<byte>, g: seq<byte>)
    requires Accepts(f) && |g| == |f|
    ensures Accepts(g) <==> Feed(Zeros(16), Xor(FrameBits(f), FrameBits(g))) == Zeros(16)
  {
    AcceptsIffResidueZero(f);
    AcceptsIffResidueZero(g);
    FeedLinear(INITIAL, INITIAL, FrameBits(f), FrameBits(g));
    assert Xor(INITIAL, INITIAL) == Zeros(16);
    assert Xor(Zeros(16), CheckBits(g)) == CheckBits(g);
  }

  lemma XorIsZeroPoly(a: Poly, b: Poly)
    requires |a| == |b|
    ensures Xor(a, b) == Zeros(|a|) <==> a == b
  {
    if Xor(a, b) == Zeros(|a|) {
      assert forall k :: 0 <= k < |a| ==> Xor(a, b)[k] == (a[k] != b[k]);
    }
  }

  lemma RemainderShift(m: Poly, t: Residue, q: Poly, r: Residue)
    requires LeavesRemainder(Dividend(Zeros(16), m), q, r)
    ensures LeavesRemainder(m + t, q, Xor(r, t))
  {
    var claimed := Xor(TimesGenerator(q), Zeros(|q|) + Xor(r, t));
    var d := Dividend(Zeros(16), m);
    assert forall k :: 0 <= k < |d| ==> d[k] == Xor(TimesGenerator(q), Zeros(|q|) + r)[k];
    assert forall k :: 0 <= k < |d| ==> (m + t)[k] == claimed[k];
  }

  /** An error of at least 16 bits is a multiple of the generator exactly when it returns the zero register to zero. */
  lemma ZeroRunIffMultiple(e: Poly)
    requires |e| >= 16
    ensures Feed(Zeros(16), e) == Zeros(16) <==> IsMultiple(e)
  {
    var m, t := e[..|e| - 16], e[|e| - 16..];
    assert e == m + t;
    FeedAppend(Zeros(16), m, t);
    var r := Feed(Zeros(16), m);
    FeedToZero(r, t);
    XorIsZeroPoly(r, t);
    var q := FeedIsRemainder(Zeros(16), m);
    RemainderShift(m, t, q, r);
    NoRemainder(e, q, Xor(r, t));
  }

  lemma NoRemainder(e: Poly, q: Poly, r: Residue)
    requires |e| >= 16 && LeavesRemainder(e, q, r)
    ensures r == Zeros(16) <==> IsMultiple(e)
  {
    if r == Zeros(16) {
      assert Xor(TimesGenerator(q), Zeros(|q|) + r) == TimesGenerator(q);
    }
    if q': Poly :| e == TimesGenerator(q') {
      assert Xor(TimesGenerator(q'), Zeros(|q'|) + Zeros(16)) == TimesGenerator(q');
      RemainderUnique(e, q, r, q', Zeros(16));
    }
  }

  /** The errors that pass are exactly the multiples of the generator. */
  lemma UndetectedIffMultiple(f: seq<byte>, g: seq<byte>)
    requires Accepts(f) && |g| == |f|
    ensures Accepts(g) <==> IsMultiple(Xor(FrameBits(f), FrameBits(g)))
  {
    ErrorDecides(f, g);
    ZeroRunIffMultiple(Xor(FrameBits(f), FrameBits(g)));
  }

  /** f and g differ only within 16 consecutive bits, in transmission order, starting at bit i. */
  ghost predicate DifferInBurst(f: seq<byte>, g: seq<byte>, i: nat) {
    && |f| == |g|
    && forall k :: 0 <= k < 8 * |f| && FrameBits(f)[k] != FrameBits(g)[k] ==> i <= k < i + 16
  }

  /** Every burst error is rejected, wherever it falls and however long the frame is. */
  lemma BurstRejected(f: seq<byte>, g: seq<byte>, i: nat)
    requires Accepts(f) && f != g && DifferInBurst(f, g, i)
    ensures !Accepts(g)
  {
    var e := Xor(FrameBits(f), FrameBits(g));
    XorIsZeroPoly(FrameBits(f), FrameBits(g));
    if e == Zeros(|e|) {
      FrameBitsInjective(f, g);
    }
    BurstFeedsNonzero(e, i);
    ErrorDecides(f, g);
  }

  lemma BurstFeedsNonzero(e: Poly, i: nat)
    requires e != Zeros(|e|)
    requires forall k :: 0 <= k < |e| && e[k] ==> i <= k < i + 16
    ensures Feed(Zeros(16), e) != Zeros(16)
  {
    var at :| 0 <= at < |e| && e[at];
    WindowFeedsNonzero(e, i, if i + 16 <= |e| then i + 16 else |e|, at);
  }

  lemma WindowFeedsNonzero(e: Poly, i: nat, j: nat, at: nat)
    requires i <= at < j <= |e| && j <= i + 16 && e[at]
    requires forall k :: 0 <= k < |e| && e[k] ==> i <= k < j
    ensures Feed(Zeros(16), e) != Zeros(16)
  {
    var w := e[i..j];
    assert w[at - i];
    assert e[..i] == Zeros(i);
    assert e[j..] == Zeros(|e| - j);
    SplitThree(e, i, j);
    BurstMovesRegister(i, w, |e| - j);
  }

  lemma SplitThree(e: Poly, i: nat, j: nat)
    requires i <= j <= |e|
    ensures e == e[..i] + e[i..j] + e[j..]
  {
  }

  lemma BurstMovesRegister(before: nat, w: Poly, after: nat)
    requires |w| <= 16 && w != Zeros(|w|)
    ensures Feed(Zeros(16), Zeros(before) + w + Zeros(after)) != Zeros(16)
  {
    FeedAppend(Zeros(16), Zeros(before) + w, Zeros(after));
    FeedAppend(Zeros(16), Zeros(before), w);
    FeedZerosKernel(Zeros(16), before);
    WindowMovesRegister(w);
    FeedZerosKernel(Feed(Zeros(16), w), after);
  }

  lemma WindowMovesRegister(w: Poly)
    requires |w| <= 16 && w != Zeros(|w|)
    ensures Feed(Zeros(16), w) != Zeros(16)
  {
    var padded := w + Zeros(16 - |w|);
    FeedWindow(Zeros(16), w);
    XorIsZeroPoly(Zeros(16), padded);
    assert padded != Zeros(16) by {
      var k :| 0 <= k < |w| && w[k];
      assert padded[k];
    }
    FeedZerosKernel(Xor(Zeros(16), padded), |w|);
  }

  // ---------- an odd number of flipped bits ----------

  function Odd(bits: Poly): bool {
    if bits == [] then false else bits[0] != Odd(bits[1..])
  }

  lemma ShiftKeepsParity(r: Residue)
    ensures Odd(Shift(r)) == Odd(r)
  {
    OddOf16(r);
    OddOf16(Shift(r));
  }

  lemma OddOf4(r: Poly)
    requires |r| >= 4
    ensures Odd(r) == (r[0] != (r[1] != (r[2] != (r[3] != Odd(r[4..])))))
  {
    assert r[1..][1..] == r[2..] && r[2..][1..] == r[3..] && r[3..][1..] == r[4..];
    assert Odd(r[1..]) == (r[1] != Odd(r[2..]));
    assert Odd(r[2..]) == (r[2] != Odd(r[3..]));
  }

  lemma OddOf16(r: Residue)
    ensures Odd(r) == (r[0] != (r[1] != (r[2] != (r[3] != (r[4] != (r[5] != (r[6] != (r[7] !=
                      (r[8] != (r[9] != (r[10] != (r[11] != (r[12] != (r[13] != (r[14] != r[15])))))))))))))))
  {
    OddOf4(r);
    OddOf4(r[4..]);
    assert r[4..][4..] == r[8..];
    OddOf4(r[8..]);
    assert r[8..][4..] == r[12..];
    OddOf4(r[12..]);
    assert r[12..][4..] == [];
  }

  lemma {:induction false} FeedKeepsParity(r: Residue, m: Poly)
    ensures Odd(Feed(r, m)) == (Odd(r) != Odd(m))
    decreases |m|
  {
    if m != [] {
      ShiftKeepsParity(FlipFirst(r, m[0]));
      assert FlipFirst(r, m[0])[1..] == r[1..];
      FeedKeepsParity(Shift(FlipFirst(r, m[0])), m[1..]);
    }
  }

  lemma {:induction false} ZerosAreEven(n: nat)
    ensures !Odd(Zeros(n))
  {
    if n > 0 {
      assert Zeros(n)[1..] == Zeros(n - 1);
      ZerosAreEven(n - 1);
    }
  }

  /** Flipping an odd number of bits, anywhere in an accepted frame, is always rejected. */
  lemma OddErrorsRejected(f: seq<byte>, g: seq<byte>)
    requires Accepts(f) && |g| == |f|
    requires Odd(Xor(FrameBits(f), FrameBits(g)))
    ensures !Accepts(g)
  {
    ErrorDecides(f, g);
    FeedKeepsParity(Zeros(16), Xor(FrameBits(f), FrameBits(g)));
    ZerosAreEven(16);
  }
}
