/** .NET's `BinaryPrimitives`: reading and writing unsigned and signed integers in either byte order. */
module BinaryPrimitives {
  import opened Bytes

  datatype Endianness = Big | Little

  function Pow256(n: nat): (p: nat)
    ensures p > 0
  {
    if n == 0 then 1 else 256 * Pow256(n - 1)
  }

  function Reverse(b: seq<byte>): (r: seq<byte>)
    ensures |r| == |b|
  {
    seq(|b|, k requires 0 <= k < |b| => b[|b| - 1 - k])
  }

  lemma ReverseTwice(b: seq<byte>)
    ensures Reverse(Reverse(b)) == b
  {
  }

  function ReadLittleEndian(b: seq<byte>): (x: nat)
    ensures x < Pow256(|b|)
  {
    if b == [] then 0 else b[0] as int + 256 * ReadLittleEndian(b[1..])
  }

  /** What `slot` holds after x is written over it. */
  function WriteLittleEndian(x: nat, slot: seq<byte>): (b: seq<byte>)
    ensures |b| == |slot|
    decreases |slot|
  {
    if slot == [] then [] else [(x % 256) as byte] + WriteLittleEndian(x / 256, slot[1..])
  }

  function ReadUnsigned(b: seq<byte>, order: Endianness): (x: nat)
    ensures x < Pow256(|b|)
  {
    if order.Big? then ReadLittleEndian(Reverse(b)) else ReadLittleEndian(b)
  }

  function WriteUnsigned(x: nat, slot: seq<byte>, order: Endianness): (b: seq<byte>)
    ensures |b| == |slot|
  {
    var little := WriteLittleEndian(x, slot);
    if order.Big? then Reverse(little) else little
  }

  lemma {:induction false} ReadWriteLittle(x: nat, slot: seq<byte>)
    requires x < Pow256(|slot|)
    ensures ReadLittleEndian(WriteLittleEndian(x, slot)) == x
    decreases |slot|
  {
    if slot != [] {
      ReadWriteLittle(x / 256, slot[1..]);
    }
  }

  lemma {:induction false} WriteReadLittle(b: seq<byte>, slot: seq<byte>)
    requires |slot| == |b|
    ensures WriteLittleEndian(ReadLittleEndian(b), slot) == b
  {
    if b != [] {
      WriteReadLittle(b[1..], slot[1..]);
    }
  }

  /** What is written is read back, in either byte order. */
  lemma ReadWrite(x: nat, slot: seq<byte>, order: Endianness)
    requires x < Pow256(|slot|)
    ensures ReadUnsigned(WriteUnsigned(x, slot, order), order) == x
  {
    ReadWriteLittle(x, slot);
    ReverseTwice(WriteLittleEndian(x, slot));
  }

  /** Only one sequence of bytes reads as a given number. */
  lemma ReadInjective(a: seq<byte>, b: seq<byte>, order: Endianness)
    requires |a| == |b| && ReadUnsigned(a, order) == ReadUnsigned(b, order)
    ensures a == b
  {
    WriteReadLittle(if order.Big? then Reverse(a) else a, a);
    WriteReadLittle(if order.Big? then Reverse(b) else b, a);
    ReverseTwice(a);
    ReverseTwice(b);
  }

  lemma {:induction false} LittleEndianAppend(b: seq<byte>, last: byte)
    ensures ReadLittleEndian(b + [last]) == ReadLittleEndian(b) + Pow256(|b|) * last as int
  {
    if b == [] {
      assert b + [last] == [last];
    } else {
      assert (b + [last])[1..] == b[1..] + [last];
      LittleEndianAppend(b[1..], last);
      ScaledSum(ReadLittleEndian(b[1..]), Pow256(|b| - 1), last as int);
    }
  }

  lemma ScaledSum(x: int, p: int, d: int)
    ensures 256 * (x + p * d) == 256 * x + (256 * p) * d
  {
  }

  /** In big-endian order the first byte weighs most. */
  lemma FirstByteBig(first: byte, rest: seq<byte>)
    ensures ReadUnsigned([first] + rest, Big) == Pow256(|rest|) * first as int + ReadUnsigned(rest, Big)
  {
    ReverseOfCons(first, rest);
    LittleEndianAppend(Reverse(rest), first);
  }

  lemma ReverseOfCons(first: byte, rest: seq<byte>)
    ensures Reverse([first] + rest) == Reverse(rest) + [first]
  {
  }

  /** In little-endian order it weighs least. */
  lemma FirstByteLittle(first: byte, rest: seq<byte>)
    ensures ReadUnsigned([first] + rest, Little) == first as int + 256 * ReadUnsigned(rest, Little)
  {
    assert ([first] + rest)[1..] == rest;
  }

  lemma Pow256Of4()
    ensures Pow256(4) == 0x1_0000_0000
  {
    assert Pow256(2) == 0x1_0000;
  }

  // ---------- Int32 ----------

  function ReadInt32(b: seq<byte>, order: Endianness): int32
    requires |b| == 4
  {
    Wrap32(ReadUnsigned(b, order))
  }

  function WriteInt32(n: int32, slot: seq<byte>, order: Endianness): (b: seq<byte>)
    requires |slot| == 4
    ensures |b| == 4
  {
    WriteUnsigned(if n < 0 then n + 0x1_0000_0000 else n, slot, order)
  }

  lemma ReadWriteInt32(n: int32, slot: seq<byte>, order: Endianness)
    requires |slot| == 4
    ensures ReadInt32(WriteInt32(n, slot, order), order) == n
  {
    Pow256Of4();
    ReadWrite(if n < 0 then n + 0x1_0000_0000 else n, slot, order);
  }
}
