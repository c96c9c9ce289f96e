/** Bytes, 16-bit words and .NET Int32 arithmetic, shared by the protocol modules. */
module Bytes {

  newtype byte = x: int | 0 <= x < 256

  newtype ushort = x: int | 0 <= x < 0x1_0000

  const MAX_INT32 := 0x7FFF_FFFF
  const MIN_INT32 := -0x8000_0000

  /** The range of a .NET `int`. */
  type int32 = x: int | MIN_INT32 <= x <= MAX_INT32

  /** Unchecked Int32 arithmetic: keep the low 32 bits, read them as two's complement. */
  function Wrap32(x: int): (r: int32)
    ensures MIN_INT32 <= x <= MAX_INT32 ==> r == x
    ensures (r - x) % 0x1_0000_0000 == 0
  {
    var low := x % 0x1_0000_0000;
    if low > MAX_INT32 then low - 0x1_0000_0000 else low
  }

  // ---------- binary digits ----------

  function Pow2(n: nat): (p: nat)
    ensures p > 0
  {
    if n == 0 then 1 else 2 * Pow2(n - 1)
  }

  function Zeros(n: nat): (z: seq<bool>)
    ensures |z| == n && forall k :: 0 <= k < n ==> !z[k]
  {
    seq(n, _ => false)
  }

  function Ones(n: nat): (z: seq<bool>)
    ensures |z| == n && forall k :: 0 <= k < n ==> z[k]
  {
    seq(n, _ => true)
  }

  /** The lowest binary digits of a number, lowest first, as many as there are in `room`. */
  function Bits(x: nat, room: seq<bool>): (bits: seq<bool>)
    ensures |bits| == |room|
    decreases |room|
  {
    if room == [] then [] else [x % 2 == 1] + Bits(x / 2, room[1..])
  }

  function Value(bits: seq<bool>): (x: nat)
    ensures x < Pow2(|bits|)
  {
    if bits == [] then 0 else (if bits[0] then 1 else 0) + 2 * Value(bits[1..])
  }

  lemma {:induction false} BitsOfValue(bits: seq<bool>, room: seq<bool>)
    requires |room| == |bits|
    ensures Bits(Value(bits), room) == bits
  {
    if bits != [] {
      BitsOfValue(bits[1..], room[1..]);
    }
  }

  lemma {:induction false} ValueOfBits(x: nat, room: seq<bool>)
    requires x < Pow2(|room|)
    ensures Value(Bits(x, room)) == x
    decreases |room|
  {
    if room != [] {
      ValueOfBits(x / 2, room[1..]);
    }
  }

  /** The bits of a byte, lowest first. */
  function ByteBits(b: byte): (bits: seq<bool>)
    ensures |bits| == 8
  {
    Bits(b as int, Zeros(8))
  }

  lemma {:induction false} ZeroBits(room: seq<bool>)
    requires forall k :: 0 <= k < |room| ==> !room[k]
    ensures Bits(0, room) == room
  {
    if room != [] {
      ZeroBits(room[1..]);
    }
  }

  /** A byte is zero exactly when none of its bits is set. */
  lemma SomeBit(b: byte)
    ensures true in ByteBits(b) <==> b != 0
  {
    ZeroBits(Zeros(8));
    if true !in ByteBits(b) {
      assert forall k :: 0 <= k < 8 ==> ByteBits(b)[k] in ByteBits(b);
      assert ByteBits(b) == ByteBits(0);
      ByteInjective(b, 0);
    }
  }

  lemma LowestBit(b: byte)
    ensures ByteBits(b)[0] <==> b % 2 != 0
  {
  }

  function WordBits(w: ushort): (bits: seq<bool>)
    ensures |bits| == 16
  {
    Bits(w as int, Zeros(16))
  }

  lemma Pow2Table()
    ensures Pow2(8) == 256 && Pow2(16) == 0x1_0000
  {
    assert Pow2(4) == 16;
    assert Pow2(8) == 256;
    assert Pow2(12) == 4096;
  }

  function ByteOfBits(bits: seq<bool>): (b: byte)
    requires |bits| == 8
    ensures ByteBits(b) == bits
  {
    Pow2Table();
    BitsOfValue(bits, Zeros(8));
    Value(bits) as byte
  }

  function WordOfBits(bits: seq<bool>): (w: ushort)
    requires |bits| == 16
    ensures WordBits(w) == bits
  {
    Pow2Table();
    BitsOfValue(bits, Zeros(16));
    Value(bits) as ushort
  }

  lemma ByteInjective(a: byte, b: byte)
    requires ByteBits(a) == ByteBits(b)
    ensures a == b
  {
    Pow2Table();
    ValueOfBits(a as int, Zeros(8));
    ValueOfBits(b as int, Zeros(8));
  }

  lemma WordInjective(a: ushort, b: ushort)
    requires WordBits(a) == WordBits(b)
    ensures a == b
  {
    Pow2Table();
    ValueOfBits(a as int, Zeros(16));
    ValueOfBits(b as int, Zeros(16));
  }

  // ---------- words and their bytes ----------

  /** The casts `(byte)x` and `(ushort)x` of a nonnegative number. */
  function LowByte(x: nat): byte {
    (x % 256) as byte
  }

  function LowWord(x: nat): ushort {
    (x % 0x1_0000) as ushort
  }

  function Word(high: byte, low: byte): ushort {
    (high as int * 256 + low as int) as ushort
  }

  /** `(byte)(w >> 8)` and `(byte)(w & 0xFF)`. */
  function HighHalf(w: ushort): byte { (w as int / 256) as byte }

  function LowHalf(w: ushort): byte { (w as int % 256) as byte }

  lemma DoubleProduct(p: int, v: int)
    ensures 2 * (p * v) == (2 * p) * v
  {
  }

  lemma {:induction false} ValueAppend(a: seq<bool>, b: seq<bool>)
    ensures Value(a + b) == Value(a) + Pow2(|a|) * Value(b)
  {
    if a == [] {
      assert a + b == b;
    } else {
      var s := a + b;
      assert s[1..] == a[1..] + b && s[0] == a[0];
      ValueAppend(a[1..], b);
      DoubleProduct(Pow2(|a| - 1), Value(b));
    }
  }

  lemma ValueOfByte(b: byte)
    ensures Value(ByteBits(b)) == b as int
  {
    Pow2Table();
    ValueOfBits(b as int, Zeros(8));
  }

  lemma ValueOfPair(high: byte, low: byte)
    ensures Value(ByteBits(low) + ByteBits(high)) == low as int + 256 * high as int
  {
    var l, h := ByteBits(low), ByteBits(high);
    ValueOfByte(low);
    ValueOfByte(high);
    ValueAppend(l, h);
    assert Pow2(|l|) == 256 by {
      Pow2Table();
    }
  }

  lemma WordBitsUnique(w: ushort, bits: seq<bool>)
    requires |bits| == 16 && Value(bits) == w as int
    ensures WordBits(w) == bits
  {
    BitsOfValue(bits, Zeros(16));
  }

  lemma BitsOfWord(high: byte, low: byte)
    ensures WordBits(Word(high, low)) == ByteBits(low) + ByteBits(high)
  {
    ValueOfPair(high, low);
    WordBitsUnique(Word(high, low), ByteBits(low) + ByteBits(high));
  }
}
