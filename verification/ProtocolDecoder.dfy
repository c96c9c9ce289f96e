/**
 src/AtlasGT.Infrastructure/Protocols/ProtocolDecoder.cs: reading one field out of a frame,
 and the writing a device does to put it there.
 */
module ProtocolDecoder {
  import opened Bytes
  import opened Results
  import opened BinaryPrimitives
  import FrameProcessor

  /** `Undefined` is an enum value outside the declared ones. */
  datatype EncodingType = Int32 | UInt32 | Float32 | Float64 | StringAscii | Boolean | BitField | Undefined

  datatype FieldDefinition =
    FieldDefinition(name: string, offset: int32, length: int32, encoding: EncodingType, endianness: Endianness)

  /** Floating-point values are their bit patterns. */
  datatype Value =
    | Int32Value(n: int32)
    | UInt32Value(u: nat)
    | Float32Value(bits32: nat)
    | Float64Value(bits64: nat)
    | BoolValue(b: bool)
    | TextValue(text: string)

  // ---------- reading ----------

  function AsciiChar(b: byte): char {
    if b < 128 then b as int as char else '?'
  }

  function AsciiText(slice: seq<byte>): (text: string)
    ensures |text| == |slice|
  {
    seq(|slice|, k requires 0 <= k < |slice| => AsciiChar(slice[k]))
  }

  /** The first n bytes of a slice, as the fixed-width readers take them. */
  function Head(slice: seq<byte>, n: nat): Result<seq<byte>> {
    if |slice| < n then Err(ArgumentOutOfRange) else Ok(slice[..n])
  }

  function FromSlice(slice: seq<byte>, field: FieldDefinition): Result<Value> {
    match field.encoding
    case Int32 =>
      var h :- Head(slice, 4);
      Ok(Int32Value(ReadInt32(h, field.endianness)))
    case UInt32 =>
      var h :- Head(slice, 4);
      Ok(UInt32Value(ReadUnsigned(h, field.endianness)))
    case Float32 =>
      var h :- Head(slice, 4);
      Ok(Float32Value(ReadUnsigned(h, field.endianness)))
    case Float64 =>
      var h :- Head(slice, 8);
      Ok(Float64Value(ReadUnsigned(h, field.endianness)))
    case Boolean =>
      if slice == [] then Err(IndexOutOfRange) else Ok(BoolValue(slice[0] != 0))
    case StringAscii => Ok(TextValue(AsciiText(slice)))
    case BitField =>
      if slice == [] then Err(IndexOutOfRange) else Ok(BoolValue(slice[0] % 2 != 0))
    case Undefined => Err(NotSupported)
  }

  function Decode(data: seq<byte>, field: FieldDefinition): Result<Value> {
    if |data| < Wrap32(field.offset + field.length) then Err(ArgumentOutOfRange)
    else
      var slice :- FrameProcessor.Span(data, field.offset, field.length);
      FromSlice(slice, field)
  }

  // ---------- which fields can be read ----------

  function RequiredLength(encoding: EncodingType): nat {
    match encoding
    case Int32 => 4
    case UInt32 => 4
    case Float32 => 4
    case Float64 => 8
    case Boolean => 1
    case BitField => 1
    case StringAscii => 0
    case Undefined => 0
  }

  predicate Overflows(field: FieldDefinition) {
    field.offset + field.length > MAX_INT32
  }

  predicate LongEnough(field: FieldDefinition) {
    RequiredLength(field.encoding) == 0 || RequiredLength(field.encoding) <= field.length
  }

  /** On data of .NET size, decoding succeeds exactly for a declared encoding on bytes that are all there. */
  lemma DecodeSucceeds(data: seq<byte>, field: FieldDefinition)
    requires |data| <= MAX_INT32
    requires field.offset >= 0 && field.length > 0 && LongEnough(field)
    ensures Decode(data, field).Ok? <==> field.offset + field.length <= |data| && !field.encoding.Undefined?
  {
  }

  /**
   What the one-byte encodings and text make of any bytes: a Boolean is false for zero alone, a bit field is the
   lowest bit, and a text has the characters of its bytes, with a question mark for each byte outside ASCII.
   */
  lemma BytesRead(slice: seq<byte>, field: FieldDefinition)
    ensures FromSlice(slice, field).Ok? <==> |slice| >= RequiredLength(field.encoding) && !field.encoding.Undefined?
    ensures field.encoding.Boolean? && slice != [] ==>
              FromSlice(slice, field) == Ok(BoolValue(true in ByteBits(slice[0])))
    ensures field.encoding.BitField? && slice != [] ==>
              FromSlice(slice, field) == Ok(BoolValue(ByteBits(slice[0])[0]))
    ensures field.encoding.StringAscii? ==>
              var r := FromSlice(slice, field);
              && r.value.TextValue? && |r.value.text| == |slice|
              && forall k :: 0 <= k < |slice| ==>
                   r.value.text[k] == if slice[k] as int <= 0x7F then slice[k] as int as char else '?'
  {
    if slice != [] {
      SomeBit(slice[0]);
      LowestBit(slice[0]);
    }
  }

  // ---------- writing ----------

  /** v is a value of the field's type that the field's bytes can hold. */
  predicate Fits(v: Value, field: FieldDefinition) {
    match field.encoding
    case Int32 => v.Int32Value?
    case UInt32 => v.UInt32Value? && v.u < Pow256(4)
    case Float32 => v.Float32Value? && v.bits32 < Pow256(4)
    case Float64 => v.Float64Value? && v.bits64 < Pow256(8)
    case Boolean => v.BoolValue?
    case BitField => v.BoolValue?
    case StringAscii => v.TextValue? && |v.text| == field.length && forall c :: c in v.text ==> c as int < 128
    case Undefined => false
  }

  /** The slot after the value is written over it; bytes and bits the encoding does not use stay as they were. */
  function Encode(v: Value, field: FieldDefinition, slot: seq<byte>): (b: seq<byte>)
    requires Fits(v, field) && LongEnough(field) && |slot| == field.length
    ensures |b| == |slot|
  {
    match field.encoding
    case Int32 => WriteInt32(v.n, slot[..4], field.endianness) + slot[4..]
    case UInt32 => WriteUnsigned(v.u, slot[..4], field.endianness) + slot[4..]
    case Float32 => WriteUnsigned(v.bits32, slot[..4], field.endianness) + slot[4..]
    case Float64 => WriteUnsigned(v.bits64, slot[..8], field.endianness) + slot[8..]
    case Boolean => slot[0 := if v.b then 1 else 0]
    case BitField => slot[0 := slot[0] - slot[0] % 2 + if v.b then 1 else 0]
    case StringAscii => seq(|v.text|, k requires 0 <= k < |v.text| => AsciiByte(v.text, k))
  }

  function AsciiByte(text: string, k: nat): byte
    requires k < |text| && forall c :: c in text ==> c as int < 128
  {
    assert text[k] in text;
    text[k] as int as byte
  }

  lemma TextRoundTrip(text: string)
    requires forall c :: c in text ==> c as int < 128
    ensures AsciiText(seq(|text|, k requires 0 <= k < |text| => AsciiByte(text, k))) == text
  {
    var bytes := seq(|text|, k requires 0 <= k < |text| => AsciiByte(text, k));
    forall k | 0 <= k < |text|
      ensures AsciiText(bytes)[k] == text[k]
    {
      assert text[k] in text;
      assert bytes[k] as int == text[k] as int;
    }
  }

  lemma HeadOf(a: seq<byte>, rest: seq<byte>, n: nat)
    requires |a| == n
    ensures Head(a + rest, n) == Ok(a)
  {
    assert (a + rest)[..n] == a;
  }

  /** What was written into a slot is what is read from it. */
  lemma SlotRoundTrip(v: Value, field: FieldDefinition, slot: seq<byte>)
    requires Fits(v, field) && LongEnough(field) && |slot| == field.length
    ensures FromSlice(Encode(v, field, slot), field) == Ok(v)
  {
    var order := field.endianness;
    match field.encoding
    case Int32 =>
      ReadWriteInt32(v.n, slot[..4], order);
      HeadOf(WriteInt32(v.n, slot[..4], order), slot[4..], 4);
    case UInt32 =>
      ReadWrite(v.u, slot[..4], order);
      HeadOf(WriteUnsigned(v.u, slot[..4], order), slot[4..], 4);
    case Float32 =>
      ReadWrite(v.bits32, slot[..4], order);
      HeadOf(WriteUnsigned(v.bits32, slot[..4], order), slot[4..], 4);
    case Float64 =>
      ReadWrite(v.bits64, slot[..8], order);
      HeadOf(WriteUnsigned(v.bits64, slot[..8], order), slot[8..], 8);
    case Boolean =>
    case BitField =>
    case StringAscii => TextRoundTrip(v.text);
  }
}
