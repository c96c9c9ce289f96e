/**
 What a report says about the received bytes, and what a rejection says, in terms of the layout, the check, the
 expected reply and the fields: without reference to the stages or to how they are chosen.
 */
module Reports {
  import opened Bytes
  import opened Results
  import opened FrameProcessor
  import opened IntegrityChecker
  import opened ProtocolDecoder
  import opened ProtocolSchemaValidator
  import opened GenericProtocolConnector
  import opened DeviceReplies
  import Crc16
  import ResponseMatcher

  // ---------- the integrity check ----------

  /**
   A frame passes exactly when it is what a device sends under these settings; the settings that cannot be
   carried out are exactly those the schema validator refuses; and any other failure is an integrity error.
   */
  lemma VerdictExact(frame: seq<byte>, validation: Option<ValidationConfig>)
    ensures Verdict(frame, validation) == Ok(())
        <==> ChecksumViolation(validation).None? && exists data :: frame == WithCheck(data, validation)
    ensures Verdict(frame, validation) == Err(NotSupported) <==> ChecksumViolation(validation).Some?
    ensures Verdict(frame, validation) in {Ok(()), Err(NotSupported), Err(Integrity)}
  {
    if exists data :: frame == WithCheck(data, validation) {
      var data :| frame == WithCheck(data, validation);
      if ChecksumViolation(validation).None? {
        WithCheckPasses(data, validation);
      }
    }
    if Verdict(frame, validation) == Ok(()) {
      var data := SentData(frame, validation);
    }
  }

  /** The data part of an accepted frame. */
  lemma SentData(frame: seq<byte>, validation: Option<ValidationConfig>) returns (data: seq<byte>)
    requires Verdict(frame, validation) == Ok(())
    ensures frame == WithCheck(data, validation)
  {
    if validation.None? || !validation.value.enableChecksum || validation.value.checksumAlgorithm == "None" {
      data := frame;
    } else if validation.value.checksumAlgorithm == "Checksum8" {
      data := frame[..|frame| - 1];
      assert frame == data + [frame[|frame| - 1]];
    } else {
      data := frame[..|frame| - 2];
      Crc16.OnlyTheCheckIsAccepted(frame);
    }
  }

  /** The algorithms by their names, a check that is switched off or absent, and a name that is none of them. */
  lemma VerdictByName(frame: seq<byte>, name: string)
    ensures Verdict(frame, None) == Ok(()) && Verdict(frame, Some(ValidationConfig(false, name))) == Ok(())
    ensures Verdict(frame, Some(ValidationConfig(true, "None"))) == Ok(())
    ensures Verdict(frame, Some(ValidationConfig(true, "Checksum8")))
         == if SumAccepts(frame) then Ok(()) else Err(Integrity)
    ensures Verdict(frame, Some(ValidationConfig(true, "CRC16")))
         == if Crc16.Accepts(frame) then Ok(()) else Err(Integrity)
    ensures name !in ["None", "Checksum8", "CRC16"] ==>
              Verdict(frame, Some(ValidationConfig(true, name))) == Err(NotSupported)
  {
    assert "None"[0] == 'N' && "Checksum8"[1] == 'h' && "CRC16"[1] == 'R';
  }

  // ---------- overrides ----------

  /** An operation's own framing is used whatever the schema's is; without one, the schema's is. */
  lemma FramingOverrideWins(schema: ProtocolSchema, operation: ProtocolOperation, raw: seq<byte>,
                            other: Option<FramingConfig>)
    requires |raw| <= MAX_INT32
    ensures var r := Processed(schema, operation, raw);
      match operation.framingOverride
      case Some(c) =>
        && (r.Ok? ==> IsFramed(raw, c, r.value.rawPayload))
        && Processed(schema.(framing := other), operation, raw) == r
      case None =>
        && (r.Ok? ==> schema.framing.Some? && IsFramed(raw, schema.framing.value, r.value.rawPayload))
        && (schema.framing.Some? ==>
              Processed(schema.(framing := other), operation.(framingOverride := schema.framing), raw) == r)
  {
    var r := Processed(schema, operation, raw);
    if r.Ok? {
      ExtractedIffFramed(raw, Or(operation.framingOverride, schema.framing).value, r.value.rawPayload);
    }
  }

  /** The same for the check: what is reported passed the operation's own check, or without one the schema's. */
  lemma ValidationOverrideWins(schema: ProtocolSchema, operation: ProtocolOperation, raw: seq<byte>,
                               other: Option<ValidationConfig>)
    ensures var r := Processed(schema, operation, raw);
      match operation.validationOverride
      case Some(v) =>
        && (r.Ok? ==> exists data :: r.value.rawPayload == WithCheck(data, Some(v)))
        && Processed(schema.(validation := other), operation, raw) == r
      case None =>
        && (r.Ok? ==> exists data :: r.value.rawPayload == WithCheck(data, schema.validation))
        && (schema.validation.Some? ==>
              Processed(schema.(validation := other), operation.(validationOverride := schema.validation), raw) == r)
  {
    var r := Processed(schema, operation, raw);
    if r.Ok? {
      VerdictExact(r.value.rawPayload, Or(operation.validationOverride, schema.validation));
    }
  }

  // ---------- reports and rejections, exactly ----------

  /** The setting is the operation's where it has one, and the schema's where it has none. */
  predicate InForce<T(==)>(setting: Option<T>, ofOperation: Option<T>, ofSchema: Option<T>) {
    match ofOperation
    case Some(own) => setting == Some(own)
    case None => setting == ofSchema
  }

  /** The frame is the reply the operation asks for: byte for byte, where it names one, and by its first bytes. */
  ghost predicate IsReply(frame: seq<byte>, operation: ProtocolOperation) {
    && (operation.exactMatch.Some? && operation.exactMatch.value != [] ==> frame == operation.exactMatch.value)
    && (operation.expectedPrefix.Some? ==>
          |operation.expectedPrefix.value| <= |frame|
          && forall k :: 0 <= k < |operation.expectedPrefix.value| ==> frame[k] == operation.expectedPrefix.value[k])
  }

  /** The table holds what each field reads in the payload, under the field's name, and nothing else. */
  ghost predicate ReadsAs(results: Fields, payload: seq<byte>, fields: seq<FieldDefinition>) {
    && (forall f :: f in fields ==> f.name in results && Decode(payload, f) == Ok(results[f.name]))
    && (forall name :: name in results ==> exists i :: 0 <= i < |fields| && fields[i].name == name)
  }

  lemma {:induction false} DecodeAllErrors(payload: seq<byte>, fields: seq<FieldDefinition>, results: Fields)
    requires DecodeAll(payload, fields, results).Err?
    ensures DecodeAll(payload, fields, results).error
         in {ArgumentOutOfRange, IndexOutOfRange, NotSupported, DuplicateKey}
    decreases |fields|
  {
    if Decode(payload, fields[0]).Ok? && fields[0].name !in results {
      DecodeAllErrors(payload, fields[1..], results[fields[0].name := Decode(payload, fields[0]).value]);
    }
  }

  lemma ReplyMatches(frame: seq<byte>, operation: ProtocolOperation)
    ensures IsReply(frame, operation)
        <==> ResponseMatcher.Matches(frame, operation.expectedPrefix, operation.exactMatch)
  {
    if IsReply(frame, operation) && operation.expectedPrefix.Some? {
      var prefix := operation.expectedPrefix.value;
      assert prefix == frame[..|prefix|];
    }
  }

  lemma {:induction false} NamesOfAll(payload: seq<byte>, fields: seq<FieldDefinition>, results: Fields)
    requires DecodeAll(payload, fields, results).Ok?
    ensures forall name :: name in DecodeAll(payload, fields, results).value ==>
              name in results || exists i :: 0 <= i < |fields| && fields[i].name == name
    decreases |fields|
  {
    if fields != [] {
      var next := results[fields[0].name := Decode(payload, fields[0]).value];
      NamesOfAll(payload, fields[1..], next);
      forall name | name in DecodeAll(payload, fields, results).value
        ensures name in results || exists i :: 0 <= i < |fields| && fields[i].name == name
      {
        if name !in next {
          var i :| 0 <= i < |fields| - 1 && fields[1..][i].name == name;
          assert fields[i + 1].name == name;
        } else if name !in results {
          assert fields[0].name == name;
        }
      }
    }
  }

  lemma TableUnique(results: Fields, table: Fields, payload: seq<byte>, fields: seq<FieldDefinition>)
    requires ReadsAs(results, payload, fields) && ReadsAs(table, payload, fields)
    ensures results == table
  {
    forall name | name in results
      ensures name in table && table[name] == results[name]
    {
      var i :| 0 <= i < |fields| && fields[i].name == name;
      assert fields[i] in fields;
    }
    forall name | name in table
      ensures name in results
    {
      var i :| 0 <= i < |fields| && fields[i].name == name;
      assert fields[i] in fields;
    }
  }

  /** Fields with names of their own that all read are decoded. */
  lemma AllDecode(payload: seq<byte>, fields: seq<FieldDefinition>)
    requires DistinctNames(fields) && forall f :: f in fields ==> Decode(payload, f).Ok?
    ensures DecodeAll(payload, fields, map[]).Ok?
  {
    assert forall i :: 0 <= i < |fields| ==> fields[i] in fields;
    var values := seq(|fields|, i requires 0 <= i < |fields| => Decode(payload, fields[i]).value);
    var table := DecodeAllTabulates(payload, fields, values, |fields|);
    assert fields[|fields|..] == [];
  }

  lemma DecodedReads(payload: seq<byte>, fields: seq<FieldDefinition>)
    requires DecodeAll(payload, fields, map[]).Ok?
    ensures DistinctNames(fields) && ReadsAs(DecodeAll(payload, fields, map[]).value, payload, fields)
  {
    DecodedAll(payload, fields, map[]);
    NamesOfAll(payload, fields, map[]);
  }

  lemma DecodedIff(payload: seq<byte>, fields: seq<FieldDefinition>, results: Fields)
    ensures DecodeAll(payload, fields, map[]) == Ok(results)
        <==> DistinctNames(fields) && ReadsAs(results, payload, fields)
  {
    if DecodeAll(payload, fields, map[]).Ok? {
      DecodedReads(payload, fields);
    } else if DistinctNames(fields) && ReadsAs(results, payload, fields) {
      AllDecode(payload, fields);
    }
    if DistinctNames(fields) && ReadsAs(results, payload, fields) {
      TableUnique(results, DecodeAll(payload, fields, map[]).value, payload, fields);
    }
  }

  /**
   A report is made exactly when the buffer starts with its payload in the layout in force, the payload passes
   the check in force and is the reply asked for, and its fields, under names of their own, read as reported.
   */
  lemma ReportedIff(schema: ProtocolSchema, operation: ProtocolOperation, raw: seq<byte>, report: Report,
                    framing: Option<FramingConfig>, validation: Option<ValidationConfig>)
    requires |raw| <= MAX_INT32
    requires InForce(framing, operation.framingOverride, schema.framing)
    requires InForce(validation, operation.validationOverride, schema.validation)
    ensures Processed(schema, operation, raw) == Ok(report)
        <==> && framing.Some? && IsFramed(raw, framing.value, report.rawPayload)
             && Verdict(report.rawPayload, validation) == Ok(())
             && IsReply(report.rawPayload, operation)
             && schema.fields.Some? && DistinctNames(schema.fields.value)
             && ReadsAs(report.fields, report.rawPayload, schema.fields.value)
  {
    if framing.Some? {
      ExtractedIffFramed(raw, framing.value, report.rawPayload);
    }
    ReplyMatches(report.rawPayload, operation);
    if schema.fields.Some? {
      DecodedIff(report.rawPayload, schema.fields.value, report.fields);
    }
  }

  /** The first stage that fails decides: the check before the expected reply, and both before the fields. */
  lemma RejectedIff(schema: ProtocolSchema, operation: ProtocolOperation, raw: seq<byte>, frame: seq<byte>,
                    framing: FramingConfig, validation: Option<ValidationConfig>)
    requires |raw| <= MAX_INT32 && IsFramed(raw, framing, frame)
    requires InForce(Some(framing), operation.framingOverride, schema.framing)
    requires InForce(validation, operation.validationOverride, schema.validation)
    ensures Processed(schema, operation, raw) == Err(Integrity) <==> Verdict(frame, validation) == Err(Integrity)
    ensures Processed(schema, operation, raw) == Err(ResponseMismatch)
        <==> Verdict(frame, validation) == Ok(()) && !IsReply(frame, operation)
  {
    ExtractedIffFramed(raw, framing, frame);
    ReplyMatches(frame, operation);
    VerdictExact(frame, validation);
    if schema.fields.Some? && DecodeAll(frame, schema.fields.value, map[]).Err? {
      DecodeAllErrors(frame, schema.fields.value, map[]);
    }
  }
}
