/** src/AtlasGT.Infrastructure/Protocols/ProtocolSchemaValidator.cs: which schemas are accepted. */
module ProtocolSchemaValidator {
  import opened Bytes
  import opened Results
  import opened FrameProcessor
  import opened IntegrityChecker
  import opened ProtocolDecoder
  import opened StableSort

  datatype ProtocolSchema =
    ProtocolSchema(
      protocolName: Option<string>,
      framing: Option<FramingConfig>,
      validation: Option<ValidationConfig>,
      fields: Option<seq<FieldDefinition>>)

  datatype Violation =
    | SchemaMissing
    | NameEmpty
    | NoFields
    | TooShortForType(name: string)
    | NegativeOffset(name: string)
    | LengthNotPositive(name: string)
    | Overlap(name: string)
    | FramingMissing
    | FixedLengthNotPositive
    | FieldsBeyondFrame
    | NegativeLengthOffset
    | UnsupportedChecksum

  // ---------- the checks as functions ----------

  /** The Unicode white space of `string.IsNullOrWhiteSpace`. */
  predicate IsWhiteSpace(c: char) {
    var u := c as int;
    || 0x09 <= u <= 0x0D || u == 0x20 || u == 0x85 || u == 0xA0 || u == 0x1680
    || 0x2000 <= u <= 0x200A || u == 0x2028 || u == 0x2029 || u == 0x202F || u == 0x205F || u == 0x3000
  }

  predicate IsBlank(s: Option<string>) {
    s.None? || forall c :: c in s.value ==> IsWhiteSpace(c)
  }

  /** The first field whose length is too small for its type. */
  function TypeViolation(fields: seq<FieldDefinition>): Option<Violation> {
    if fields == [] then None
    else if LongEnough(fields[0]) then TypeViolation(fields[1..])
    else Some(TooShortForType(fields[0].name))
  }

  datatype Sweep = Reached(position: int32) | Stopped(why: Violation)

  /** The overlap sweep over sorted fields, with the Int32 sum that can wrap. */
  function SweepFrom(position: int32, fields: seq<FieldDefinition>): Sweep
    decreases |fields|
  {
    if fields == [] then Reached(position)
    else
      var f := fields[0];
      if f.offset < 0 then Stopped(NegativeOffset(f.name))
      else if f.length <= 0 then Stopped(LengthNotPositive(f.name))
      else if f.offset < position then Stopped(Overlap(f.name))
      else SweepFrom(Wrap32(f.offset + f.length), fields[1..])
  }

  function Sorted(fields: seq<FieldDefinition>): seq<FieldDefinition> {
    OrderBy((f: FieldDefinition) => f.offset, fields)
  }

  function FramingViolation(framing: Option<FramingConfig>, end: int32): Option<Violation> {
    match framing
    case None => Some(FramingMissing)
    case Some(c) =>
      if c.framing.FixedLength? && c.fixedLength <= 0 then Some(FixedLengthNotPositive)
      else if c.framing.FixedLength? && end > c.fixedLength then Some(FieldsBeyondFrame)
      else if c.framing.LengthPrefix? && c.lengthOffset < 0 then Some(NegativeLengthOffset)
      else None
  }

  function ChecksumViolation(validation: Option<ValidationConfig>): Option<Violation> {
    if validation.Some? && validation.value.enableChecksum
       && validation.value.checksumAlgorithm !in ["None", "Checksum8", "CRC16"]
    then Some(UnsupportedChecksum) else None
  }

  /** The first violation found, or none for an accepted schema. */
  function FirstViolation(schema: Option<ProtocolSchema>): Option<Violation> {
    if schema.None? then Some(SchemaMissing)
    else
      var s := schema.value;
      if IsBlank(s.protocolName) then Some(NameEmpty)
      else if s.fields.None? || s.fields.value == [] then Some(NoFields)
      else if TypeViolation(s.fields.value).Some? then TypeViolation(s.fields.value)
      else
        match SweepFrom(0, Sorted(s.fields.value))
        case Stopped(why) => Some(why)
        case Reached(end) =>
          if FramingViolation(s.framing, end).Some? then FramingViolation(s.framing, end)
          else ChecksumViolation(s.validation)
  }

  predicate Accepted(schema: ProtocolSchema) {
    FirstViolation(Some(schema)).None?
  }

  // ---------- the loops ----------

  method CheckTypes(fields: seq<FieldDefinition>) returns (r: Option<Violation>)
    ensures r == TypeViolation(fields)
  {
    for i := 0 to |fields|
      invariant TypeViolation(fields[i..]) == TypeViolation(fields)
    {
      assert fields[i..][1..] == fields[i + 1..];
      var requiredLength := RequiredLength(fields[i].encoding);
      if requiredLength > 0 && fields[i].length < requiredLength {
        return Some(TooShortForType(fields[i].name));
      }
    }
    r := None;
  }

  method CheckOverlaps(sortedFields: seq<FieldDefinition>) returns (r: Sweep)
    ensures r == SweepFrom(0, sortedFields)
  {
    var currentPosition: int32 := 0;
    for i := 0 to |sortedFields|
      invariant SweepFrom(currentPosition, sortedFields[i..]) == SweepFrom(0, sortedFields)
    {
      var field := sortedFields[i];
      assert sortedFields[i..][0] == field && sortedFields[i..][1..] == sortedFields[i + 1..];
      if field.offset < 0 {
        return Stopped(NegativeOffset(field.name));
      }
      if field.length <= 0 {
        return Stopped(LengthNotPositive(field.name));
      }
      if field.offset < currentPosition {
        return Stopped(Overlap(field.name));
      }
      currentPosition := Wrap32(field.offset + field.length);
    }
    r := Reached(currentPosition);
  }

  method Validate(schema: Option<ProtocolSchema>) returns (r: Option<Violation>)
    ensures r == FirstViolation(schema)
  {
    if schema.None? {
      return Some(SchemaMissing);
    }
    var s := schema.value;
    if IsBlank(s.protocolName) {
      return Some(NameEmpty);
    }
    if s.fields.None? || |s.fields.value| == 0 {
      return Some(NoFields);
    }
    var tooShort := CheckTypes(s.fields.value);
    if tooShort.Some? {
      return tooShort;
    }
    var sweep := CheckOverlaps(Sorted(s.fields.value));
    if sweep.Stopped? {
      return Some(sweep.why);
    }
    var currentPosition := sweep.position;
    if s.framing.None? {
      return Some(FramingMissing);
    }
    var framing := s.framing.value;
    if framing.framing.FixedLength? {
      if framing.fixedLength <= 0 {
        return Some(FixedLengthNotPositive);
      }
      if currentPosition > framing.fixedLength {
        return Some(FieldsBeyondFrame);
      }
    }
    if framing.framing.LengthPrefix? {
      if framing.lengthOffset < 0 {
        return Some(NegativeLengthOffset);
      }
    }
    if s.validation.Some? && s.validation.value.enableChecksum {
      if s.validation.value.checksumAlgorithm !in ["None", "Checksum8", "CRC16"] {
        return Some(UnsupportedChecksum);
      }
    }
    return None;
  }

  // ---------- what the sweep means ----------

  predicate Covers(field: FieldDefinition, p: int) {
    field.offset <= p < field.offset + field.length
  }

  /** How many fields contain byte p. */
  function CoverCount(fields: seq<FieldDefinition>, p: int): nat {
    if fields == [] then 0 else (if Covers(fields[0], p) then 1 else 0) + CoverCount(fields[1..], p)
  }

  /** Offsets and lengths make sense, and no byte belongs to two fields. */
  ghost predicate LayoutOk(fields: seq<FieldDefinition>) {
    && (forall f :: f in fields ==> f.offset >= 0 && f.length > 0)
    && (forall p :: CoverCount(fields, p) <= 1)
  }

  /** Each field starts where the one before it ends, or later. */
  predicate InOrder(position: int, fields: seq<FieldDefinition>)
    decreases |fields|
  {
    fields == []
    || (fields[0].offset >= 0 && fields[0].length > 0 && fields[0].offset >= position
        && InOrder(fields[0].offset + fields[0].length, fields[1..]))
  }

  /** No field but the last ends beyond the range of Int32. */
  predicate NoEarlyOverflow(fields: seq<FieldDefinition>) {
    forall i :: 0 <= i < |fields| - 1 ==> !Overflows(fields[i])
  }

  lemma {:induction false} InOrderCovers(position: int, fields: seq<FieldDefinition>, p: int)
    requires InOrder(position, fields)
    ensures CoverCount(fields, p) <= 1
    ensures p < position ==> CoverCount(fields, p) == 0
    decreases |fields|
  {
    if fields != [] {
      InOrderCovers(fields[0].offset + fields[0].length, fields[1..], p);
    }
  }

  lemma {:induction false} InOrderFields(position: int, fields: seq<FieldDefinition>)
    requires InOrder(position, fields)
    ensures forall f :: f in fields ==> f.offset >= 0 && f.length > 0 && f.offset >= position
    decreases |fields|
  {
    if fields != [] {
      InOrderFields(fields[0].offset + fields[0].length, fields[1..]);
    }
  }

  lemma {:induction false} DisjointIsInOrder(position: int, fields: seq<FieldDefinition>)
    requires Ascending((f: FieldDefinition) => f.offset, fields)
    requires LayoutOk(fields)
    requires fields != [] ==> fields[0].offset >= position
    ensures InOrder(position, fields)
    decreases |fields|
  {
    if fields != [] {
      var f, rest := fields[0], fields[1..];
      assert f in fields;
      forall p
        ensures CoverCount(rest, p) <= 1
      {
        assert CoverCount(fields, p) <= 1;
      }
      if rest != [] {
        assert rest[0] in fields;
        assert f.offset <= rest[0].offset by {
          assert fields[1] == rest[0];
        }
        assert CoverCount(fields, rest[0].offset) <= 1;
        assert Covers(rest[0], rest[0].offset);
      }
      DisjointIsInOrder(f.offset + f.length, rest);
    }
  }

  lemma {:induction false} InsertCoverCount(f: FieldDefinition, fields: seq<FieldDefinition>, p: int)
    ensures CoverCount(Insert((g: FieldDefinition) => g.offset, f, fields), p)
         == (if Covers(f, p) then 1 else 0) + CoverCount(fields, p)
  {
    var key := (g: FieldDefinition) => g.offset;
    if fields != [] && key(f) > key(fields[0]) {
      InsertCoverCount(f, fields[1..], p);
      assert Insert(key, f, fields)[1..] == Insert(key, f, fields[1..]);
    } else {
      assert Insert(key, f, fields)[1..] == fields;
    }
  }

  lemma {:induction false} SortedCoverCount(fields: seq<FieldDefinition>, p: int)
    ensures CoverCount(Sorted(fields), p) == CoverCount(fields, p)
  {
    if fields != [] {
      SortedCoverCount(fields[1..], p);
      InsertCoverCount(fields[0], Sorted(fields[1..]), p);
    }
  }

  lemma SortedLayout(fields: seq<FieldDefinition>)
    ensures LayoutOk(Sorted(fields)) <==> LayoutOk(fields)
  {
    MembersOfOrderBy((f: FieldDefinition) => f.offset, fields);
    forall p
      ensures CoverCount(Sorted(fields), p) == CoverCount(fields, p)
    {
      SortedCoverCount(fields, p);
    }
  }

  /** With the sums in range, the wrapped sweep is the exact one. */
  lemma {:induction false} SweepIffInOrder(position: int32, fields: seq<FieldDefinition>)
    requires NoEarlyOverflow(fields)
    ensures SweepFrom(position, fields).Reached? <==> InOrder(position, fields)
    decreases |fields|
  {
    if fields != [] && fields[0].offset >= 0 && fields[0].length > 0 && fields[0].offset >= position {
      var f, rest := fields[0], fields[1..];
      assert forall i :: 0 <= i < |rest| - 1 ==> rest[i] == fields[i + 1];
      if rest == [] {
      } else {
        SweepIffInOrder(f.offset + f.length, rest);
      }
    }
  }

  lemma {:induction false} InOrderNoEarlyOverflow(position: int, fields: seq<FieldDefinition>)
    requires InOrder(position, fields)
    ensures NoEarlyOverflow(fields)
    decreases |fields|
  {
    if fields != [] {
      var rest := fields[1..];
      InOrderNoEarlyOverflow(fields[0].offset + fields[0].length, rest);
      forall i | 0 <= i < |fields| - 1
        ensures !Overflows(fields[i])
      {
        if i > 0 {
          assert fields[i] == rest[i - 1];
        } else {
          assert rest[0].offset >= fields[0].offset + fields[0].length;
        }
      }
    }
  }

  /**
   The layout is sound exactly when the sweep passes and no field before the last one overflows
   its Int32 sum. The second condition is not checked by the code.
   */
  lemma SweepExact(fields: seq<FieldDefinition>)
    ensures LayoutOk(fields) <==> SweepFrom(0, Sorted(fields)).Reached? && NoEarlyOverflow(Sorted(fields))
  {
    var s := Sorted(fields);
    OrderByAscending((f: FieldDefinition) => f.offset, fields);
    SortedLayout(fields);
    if LayoutOk(s) {
      assert s != [] ==> s[0] in s;
      DisjointIsInOrder(0, s);
      InOrderNoEarlyOverflow(0, s);
      SweepIffInOrder(0, s);
    }
    if SweepFrom(0, s).Reached? && NoEarlyOverflow(s) {
      SweepIffInOrder(0, s);
      InOrderFields(0, s);
      forall p
        ensures CoverCount(s, p) <= 1
      {
        InOrderCovers(0, s, p);
      }
    }
  }

  /** A schema with two fields on one byte, in frames of ten bytes. */
  function OverlappingSchema(): ProtocolSchema {
    var f := FieldDefinition("a", MAX_INT32, 1, Boolean, BinaryPrimitives.Big);
    ProtocolSchema(Some("p"), Some(FramingConfig(FixedLength, None, 0, 10)), None, Some([f, f]))
  }

  /** It is accepted: the first sum wraps to a negative position, which nothing overlaps and which fits any frame. */
  lemma OverlapThatPasses()
    ensures Accepted(OverlappingSchema()) && !LayoutOk(OverlappingSchema().fields.value)
  {
    var f := FieldDefinition("a", MAX_INT32, 1, Boolean, BinaryPrimitives.Big);
    var key := (g: FieldDefinition) => g.offset;
    assert [f, f][1..] == [f];
    assert OrderBy(key, [f]) == [f];
    assert Sorted([f, f]) == [f, f];
    assert TypeViolation([f]).None?;
    assert SweepFrom(Wrap32(f.offset + f.length), [f]) == Reached(MIN_INT32);
    assert CoverCount([f], MAX_INT32) == 1;
    assert CoverCount([f, f], MAX_INT32) == 2;
    var name := "p";
    assert name[0] in name && !IsWhiteSpace(name[0]);
  }

  // ---------- what an accepted schema guarantees ----------

  lemma {:induction false} SweepBound(position: int32, fields: seq<FieldDefinition>)
    requires SweepFrom(position, fields).Reached?
    requires forall f :: f in fields ==> !Overflows(f)
    ensures SweepFrom(position, fields).position >= position
    ensures forall f :: f in fields ==>
              f.offset >= 0 && f.length > 0 && f.offset + f.length <= SweepFrom(position, fields).position
    decreases |fields|
  {
    if fields != [] {
      assert fields[0] in fields;
      SweepBound(fields[0].offset + fields[0].length, fields[1..]);
    }
  }

  lemma {:induction false} TypesLongEnough(fields: seq<FieldDefinition>)
    ensures TypeViolation(fields).None? <==> forall f :: f in fields ==> LongEnough(f)
  {
    if fields != [] {
      TypesLongEnough(fields[1..]);
      assert fields[0] in fields && forall f :: f in fields ==> f == fields[0] || f in fields[1..];
    }
  }

  /** The sweep ends where its last field ends, in Int32 arithmetic. */
  lemma {:induction false} SweepEnd(position: int32, fields: seq<FieldDefinition>)
    requires fields != [] && SweepFrom(position, fields).Reached?
    ensures var last := fields[|fields| - 1];
      last in fields && SweepFrom(position, fields).position == Wrap32(last.offset + last.length)
    decreases |fields|
  {
    if |fields| > 1 {
      SweepEnd(Wrap32(fields[0].offset + fields[0].length), fields[1..]);
      assert fields[1..][|fields| - 2] == fields[|fields| - 1];
    }
  }

  /** The end of the swept fields, for a schema whose sweep passes. */
  lemma AcceptedFields(schema: ProtocolSchema)
    requires Accepted(schema)
    requires forall f :: f in schema.fields.value ==> !Overflows(f)
    ensures LayoutOk(schema.fields.value)
    ensures schema.framing.value.framing.FixedLength? ==>
              forall f :: f in schema.fields.value ==> f.offset + f.length <= schema.framing.value.fixedLength
    ensures forall f :: f in schema.fields.value ==> f.offset >= 0 && f.length > 0 && LongEnough(f)
  {
    var fields := schema.fields.value;
    var s := Sorted(fields);
    MembersOfOrderBy((f: FieldDefinition) => f.offset, fields);
    assert forall i :: 0 <= i < |s| ==> s[i] in s;
    SweepExact(fields);
    SweepBound(0, s);
    TypesLongEnough(fields);
  }

  /** An accepted schema has a sound layout exactly when no field but the last overflows. */
  lemma AcceptedLayoutIff(schema: ProtocolSchema)
    requires Accepted(schema)
    ensures LayoutOk(schema.fields.value) <==> NoEarlyOverflow(Sorted(schema.fields.value))
  {
    SweepExact(schema.fields.value);
  }

  lemma {:induction false} SweptSigns(position: int32, fields: seq<FieldDefinition>)
    requires SweepFrom(position, fields).Reached?
    ensures forall f :: f in fields ==> f.offset >= 0 && f.length > 0
    decreases |fields|
  {
    if fields != [] {
      SweptSigns(Wrap32(fields[0].offset + fields[0].length), fields[1..]);
    }
  }

  /**
   Under an accepted FixedLength schema every buffer of that length yields a frame, and every field
   decodes from it exactly when no field overflows and every encoding is a declared one.
   */
  lemma AcceptedSchemaDecodes(schema: ProtocolSchema, raw: seq<byte>)
    requires Accepted(schema) && schema.framing.value.framing.FixedLength?
    requires schema.framing.value.fixedLength <= |raw|
    ensures Extracted(raw, schema.framing.value).Ok?
    ensures (forall f :: f in schema.fields.value ==> Decode(Extracted(raw, schema.framing.value).value, f).Ok?)
        <==> (forall f :: f in schema.fields.value ==> !Overflows(f) && !f.encoding.Undefined?)
  {
    var fields := schema.fields.value;
    var frame := Extracted(raw, schema.framing.value).value;
    assert |frame| == schema.framing.value.fixedLength;
    MembersOfOrderBy((f: FieldDefinition) => f.offset, fields);
    SweptSigns(0, Sorted(fields));
    TypesLongEnough(fields);
    forall f | f in fields
      ensures Decode(frame, f).Ok? <==> f.offset + f.length <= |frame| && !f.encoding.Undefined?
    {
      DecodeSucceeds(frame, f);
    }
    if forall f :: f in fields ==> !Overflows(f) {
      AcceptedFields(schema);
    }
  }

  // ---------- acceptance and violations, without the order of the checks ----------

  predicate HasAName(schema: ProtocolSchema) {
    schema.protocolName.Some? && exists c :: c in schema.protocolName.value && !IsWhiteSpace(c)
  }

  /** Without overflow a schema is accepted exactly when it is complete, and its layout and settings are sound. */
  lemma AcceptedIff(schema: ProtocolSchema)
    requires schema.fields.Some? ==> forall f :: f in schema.fields.value ==> !Overflows(f)
    ensures Accepted(schema)
        <==> && HasAName(schema)
             && schema.fields.Some? && schema.fields.value != []
             && (forall f :: f in schema.fields.value ==> LongEnough(f))
             && LayoutOk(schema.fields.value)
             && schema.framing.Some?
             && (schema.framing.value.framing.FixedLength? ==>
                   forall f :: f in schema.fields.value ==> f.offset + f.length <= schema.framing.value.fixedLength)
             && (schema.framing.value.framing.LengthPrefix? ==> schema.framing.value.lengthOffset >= 0)
             && (schema.validation.Some? && schema.validation.value.enableChecksum ==>
                   schema.validation.value.checksumAlgorithm in ["None", "Checksum8", "CRC16"])
  {
    if schema.fields.Some? && schema.fields.value != [] {
      var fields := schema.fields.value;
      var s := Sorted(fields);
      MembersOfOrderBy((f: FieldDefinition) => f.offset, fields);
      assert forall i :: 0 <= i < |s| ==> s[i] in s;
      TypesLongEnough(fields);
      SweepExact(fields);
      assert fields[0] in fields;
      if SweepFrom(0, s).Reached? {
        SweepBound(0, s);
        SweepEnd(0, s);
      }
    }
  }

  /** What a violation that names a field says about it. */
  predicate FieldViolates(fields: seq<FieldDefinition>, f: FieldDefinition, v: Violation) {
    match v
    case TooShortForType(name) => f.name == name && f.length < RequiredLength(f.encoding)
    case NegativeOffset(name) => f.name == name && f.offset < 0
    case LengthNotPositive(name) => f.name == name && f.length <= 0
    case Overlap(name) => f.name == name && Covers(f, f.offset) && CoverCount(fields, f.offset) >= 2
    case _ => false
  }

  /** What a violation says about the schema. */
  ghost predicate Explains(schema: ProtocolSchema, v: Violation) {
    match v
    case SchemaMissing => false
    case NameEmpty => !HasAName(schema)
    case NoFields => schema.fields.None? || schema.fields.value == []
    case FramingMissing => schema.framing.None?
    case FixedLengthNotPositive =>
      schema.framing.Some? && schema.framing.value.framing.FixedLength? && schema.framing.value.fixedLength <= 0
    case FieldsBeyondFrame =>
      && schema.framing.Some? && schema.framing.value.framing.FixedLength? && schema.fields.Some?
      && exists f :: f in schema.fields.value && f.offset + f.length > schema.framing.value.fixedLength
    case NegativeLengthOffset =>
      schema.framing.Some? && schema.framing.value.framing.LengthPrefix? && schema.framing.value.lengthOffset < 0
    case UnsupportedChecksum =>
      && schema.validation.Some? && schema.validation.value.enableChecksum
      && schema.validation.value.checksumAlgorithm !in ["None", "Checksum8", "CRC16"]
    case _ => schema.fields.Some? && exists f :: f in schema.fields.value && FieldViolates(schema.fields.value, f, v)
  }

  lemma {:induction false} TooShortIsReal(fields: seq<FieldDefinition>) returns (f: FieldDefinition)
    requires TypeViolation(fields).Some?
    ensures f in fields && !LongEnough(f) && TypeViolation(fields) == Some(TooShortForType(f.name))
  {
    f := fields[0];
    if LongEnough(f) {
      f := TooShortIsReal(fields[1..]);
    }
  }

  /** What stops the sweep is really so, even where its sums wrap: a wrapped sum is smaller than the true one. */
  lemma {:induction false} StoppedIsReal(position: int32, fields: seq<FieldDefinition>) returns (f: FieldDefinition)
    requires SweepFrom(position, fields).Stopped?
    requires Ascending((f: FieldDefinition) => f.offset, fields)
    ensures f in fields
    ensures var why := SweepFrom(position, fields).why;
      || FieldViolates(fields, f, why)
      || (f == fields[0] && why == Overlap(f.name) && Covers(f, f.offset) && 0 <= f.offset < position)
    decreases |fields|
  {
    f := fields[0];
    if f.offset >= 0 && f.length > 0 && f.offset >= position {
      var first, rest := f, fields[1..];
      assert forall i :: 0 <= i < |rest| ==> rest[i] == fields[i + 1];
      f := StoppedIsReal(Wrap32(first.offset + first.length), rest);
      if !FieldViolates(rest, f, SweepFrom(position, fields).why) {
        assert first.offset <= fields[1].offset;
        CoveredTwice(fields);
      }
    }
  }

  lemma CoveredTwice(fields: seq<FieldDefinition>)
    requires |fields| >= 2 && fields[0].offset <= fields[1].offset < fields[0].offset + fields[0].length
    requires Covers(fields[1], fields[1].offset)
    ensures CoverCount(fields, fields[1].offset) >= 2
  {
    assert fields[1..][0] == fields[1];
  }

  lemma FieldFault(fields: seq<FieldDefinition>) returns (f: FieldDefinition)
    requires TypeViolation(fields).Some? || SweepFrom(0, Sorted(fields)).Stopped?
    ensures f in fields
    ensures FieldViolates(fields, f, if TypeViolation(fields).Some? then TypeViolation(fields).value
                                     else SweepFrom(0, Sorted(fields)).why)
  {
    if TypeViolation(fields).Some? {
      f := TooShortIsReal(fields);
    } else {
      MembersOfOrderBy((f: FieldDefinition) => f.offset, fields);
      OrderByAscending((f: FieldDefinition) => f.offset, fields);
      f := StoppedIsReal(0, Sorted(fields));
      SortedCoverCount(fields, f.offset);
    }
  }

  lemma LastSweptField(fields: seq<FieldDefinition>) returns (f: FieldDefinition)
    requires fields != [] && SweepFrom(0, Sorted(fields)).Reached?
    ensures f in fields && f.offset + f.length >= SweepFrom(0, Sorted(fields)).position
  {
    var s := Sorted(fields);
    MembersOfOrderBy((f: FieldDefinition) => f.offset, fields);
    SweptSigns(0, s);
    SweepEnd(0, s);
    f := s[|s| - 1];
  }

  /** A rejected schema has the fault it is rejected for. */
  lemma ViolationIsReal(schema: ProtocolSchema)
    requires !Accepted(schema)
    ensures Explains(schema, FirstViolation(Some(schema)).value)
  {
    if HasAName(schema) && schema.fields.Some? && schema.fields.value != [] {
      var fields := schema.fields.value;
      if TypeViolation(fields).Some? || SweepFrom(0, Sorted(fields)).Stopped? {
        var f := FieldFault(fields);
        assert FieldViolates(fields, f, FirstViolation(Some(schema)).value);
      } else {
        var f := LastSweptField(fields);
      }
    }
  }
}
