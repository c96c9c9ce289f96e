/**
 The other end of the wire: a device that puts each field's value in its slice of the frame, adds the check bytes
 and wraps the frame as the framing asks. What the gateway reports about such a reply, intact or damaged.
 */
module DeviceReplies {
  import opened Bytes
  import opened Results
  import opened FrameProcessor
  import opened IntegrityChecker
  import opened ProtocolDecoder
  import opened ProtocolSchemaValidator
  import opened GenericProtocolConnector
  import Crc16
  import BinaryPrimitives
  import ResponseMatcher

  /** The bytes of a field lie within the buffer. */
  predicate Inside(field: FieldDefinition, size: nat) {
    field.offset >= 0 && field.length > 0 && field.offset + field.length <= size
  }

  function Slot(buffer: seq<byte>, field: FieldDefinition): seq<byte>
    requires Inside(field, |buffer|)
  {
    buffer[field.offset..field.offset + field.length]
  }

  /** Every value suits its field, and every field lies within the buffer. */
  ghost predicate Encodable(fields: seq<FieldDefinition>, values: seq<Value>, size: nat) {
    && |fields| == |values|
    && forall i :: 0 <= i < |fields| ==>
         Inside(fields[i], size) && LongEnough(fields[i]) && Fits(values[i], fields[i])
  }

  function Place(buffer: seq<byte>, field: FieldDefinition, value: Value): (b: seq<byte>)
    requires Inside(field, |buffer|) && LongEnough(field) && Fits(value, field)
    ensures |b| == |buffer|
  {
    buffer[..field.offset] + Encode(value, field, Slot(buffer, field)) + buffer[field.offset + field.length..]
  }

  function PlaceAll(buffer: seq<byte>, fields: seq<FieldDefinition>, values: seq<Value>): (b: seq<byte>)
    requires Encodable(fields, values, |buffer|)
    ensures |b| == |buffer|
    decreases |fields|
  {
    if fields == [] then buffer
    else PlaceAll(Place(buffer, fields[0], values[0]), fields[1..], values[1..])
  }

  /** The data and the check bytes that the validation settings ask for behind them. */
  function WithCheck(data: seq<byte>, validation: Option<ValidationConfig>): (frame: seq<byte>)
    ensures data <= frame && |frame| <= |data| + 2
  {
    if validation.None? || !validation.value.enableChecksum || validation.value.checksumAlgorithm == "None" then data
    else if validation.value.checksumAlgorithm == "Checksum8" then data + [(Total(data) % 256) as byte]
    else Crc16.AppendCheck(data)
  }

  /** The frame as it goes over the wire: behind its length, or before its delimiter. */
  function Wire(config: FramingConfig, header: seq<byte>, frame: seq<byte>): seq<byte>
    requires |frame| <= MAX_INT32
  {
    match config.framing
    case FixedLength => frame
    case Delimiter => frame + if config.delimiter.Some? then config.delimiter.value else []
    case LengthPrefix => header + BinaryPrimitives.WriteInt32(|frame|, [0, 0, 0, 0], BinaryPrimitives.Big) + frame
    case Undefined => frame
  }

  /**
   The framing can carry this frame: the right length, or no delimiter inside, or a header up to the length
   offset.
   */
  ghost predicate Sendable(config: FramingConfig, header: seq<byte>, frame: seq<byte>) {
    match config.framing
    case FixedLength => |frame| == config.fixedLength
    case Delimiter =>
      && config.delimiter.Some? && config.delimiter.value != []
      && IsFirstMatch(frame + config.delimiter.value, config.delimiter.value, |frame|)
    case LengthPrefix => |header| == config.lengthOffset && |frame| <= MAX_DECLARED_LENGTH
    case Undefined => false
  }

  // ---------- each field keeps its own bytes ----------

  lemma {:induction false} PlaceAllKeeps(buffer: seq<byte>, fields: seq<FieldDefinition>, values: seq<Value>, p: nat)
    requires Encodable(fields, values, |buffer|)
    requires p < |buffer| && CoverCount(fields, p) == 0
    ensures PlaceAll(buffer, fields, values)[p] == buffer[p]
    decreases |fields|
  {
    if fields != [] {
      PlaceAllKeeps(Place(buffer, fields[0], values[0]), fields[1..], values[1..], p);
    }
  }

  lemma PlacedSlot(buffer: seq<byte>, field: FieldDefinition, value: Value)
    requires Inside(field, |buffer|) && LongEnough(field) && Fits(value, field)
    ensures Slot(Place(buffer, field, value), field) == Encode(value, field, Slot(buffer, field))
  {
  }

  lemma DecodeSlot(data: seq<byte>, field: FieldDefinition)
    requires |data| <= MAX_INT32 && Inside(field, |data|)
    ensures Decode(data, field) == FromSlice(Slot(data, field), field)
  {
  }

  lemma {:induction false} PlacedDecodes(buffer: seq<byte>, fields: seq<FieldDefinition>, values: seq<Value>, i: nat)
    requires |buffer| <= MAX_INT32 && Encodable(fields, values, |buffer|)
    requires forall p :: CoverCount(fields, p) <= 1
    requires i < |fields|
    ensures Decode(PlaceAll(buffer, fields, values), fields[i]) == Ok(values[i])
    decreases |fields|
  {
    var field, value := fields[0], values[0];
    var next := Place(buffer, field, value);
    var rest := fields[1..];
    forall p
      ensures CoverCount(rest, p) <= 1
    {
      assert CoverCount(fields, p) <= 1;
    }
    if i > 0 {
      PlacedDecodes(next, rest, values[1..], i - 1);
    } else {
      var final := PlaceAll(next, rest, values[1..]);
      forall p | field.offset <= p < field.offset + field.length
        ensures final[p] == next[p]
      {
        assert Covers(field, p);
        assert CoverCount(fields, p) <= 1;
        PlaceAllKeeps(next, rest, values[1..], p);
      }
      assert Slot(final, field) == Slot(next, field);
      PlacedSlot(buffer, field, value);
      SlotRoundTrip(value, field, Slot(buffer, field));
      DecodeSlot(final, field);
    }
  }

  /** Bytes behind the data do not matter to a field inside it. */
  lemma DecodeIgnoresTail(data: seq<byte>, frame: seq<byte>, field: FieldDefinition)
    requires data <= frame && |frame| <= MAX_INT32 && Inside(field, |data|)
    ensures Decode(frame, field) == Decode(data, field)
  {
    DecodeSlot(data, field);
    DecodeSlot(frame, field);
    assert Slot(frame, field) == Slot(data, field);
  }

  // ---------- the table of results ----------

  ghost predicate DistinctNames(fields: seq<FieldDefinition>) {
    forall i, j :: 0 <= i < j < |fields| ==> fields[i].name != fields[j].name
  }

  /** The table maps each field's name to the value at the same position, and has no other names. */
  ghost predicate Tabulates(results: Fields, fields: seq<FieldDefinition>, values: seq<Value>) {
    && |fields| == |values|
    && (forall i :: 0 <= i < |fields| ==> fields[i].name in results && results[fields[i].name] == values[i])
    && (forall name :: name in results ==> exists i :: 0 <= i < |fields| && fields[i].name == name)
  }

  lemma {:induction false} DecodeAllTabulates(payload: seq<byte>, fields: seq<FieldDefinition>, values: seq<Value>,
                                              n: nat)
      returns (results: Fields)
    requires DistinctNames(fields) && |fields| == |values| && n <= |fields|
    requires forall i :: 0 <= i < |fields| ==> Decode(payload, fields[i]) == Ok(values[i])
    ensures Tabulates(results, fields[..n], values[..n])
    ensures DecodeAll(payload, fields, map[]) == DecodeAll(payload, fields[n..], results)
  {
    if n == 0 {
      results := map[];
      assert fields[0..] == fields;
    } else {
      var before := DecodeAllTabulates(payload, fields, values, n - 1);
      var field := fields[n - 1];
      assert fields[n - 1..][0] == field && fields[n - 1..][1..] == fields[n..];
      FreshName(before, fields, values, n);
      results := before[field.name := values[n - 1]];
      ExtendTable(before, fields, values, n);
    }
  }

  lemma FreshName(before: Fields, fields: seq<FieldDefinition>, values: seq<Value>, n: nat)
    requires DistinctNames(fields) && |fields| == |values| && 0 < n <= |fields|
    requires Tabulates(before, fields[..n - 1], values[..n - 1])
    ensures fields[n - 1].name !in before
  {
    var earlier := fields[..n - 1];
    forall i | 0 <= i < |earlier|
      ensures earlier[i].name != fields[n - 1].name
    {
      assert earlier[i] == fields[i];
    }
  }

  lemma ExtendTable(before: Fields, fields: seq<FieldDefinition>, values: seq<Value>, n: nat)
    requires DistinctNames(fields) && |fields| == |values| && 0 < n <= |fields|
    requires Tabulates(before, fields[..n - 1], values[..n - 1])
    ensures Tabulates(before[fields[n - 1].name := values[n - 1]], fields[..n], values[..n])
  {
    var results := before[fields[n - 1].name := values[n - 1]];
    forall i | 0 <= i < n
      ensures fields[..n][i].name in results && results[fields[..n][i].name] == values[..n][i]
    {
      if i < n - 1 {
        assert fields[..n - 1][i].name in before;
      }
    }
    forall name | name in results
      ensures exists i :: 0 <= i < n && fields[..n][i].name == name
    {
      if name == fields[n - 1].name {
        assert fields[..n][n - 1].name == name;
      } else {
        var i :| 0 <= i < n - 1 && fields[..n - 1][i].name == name;
        assert fields[..n][i].name == name;
      }
    }
  }

  // ---------- end to end ----------

  lemma WireFramed(config: FramingConfig, header: seq<byte>, frame: seq<byte>, tail: seq<byte>)
    requires |frame| <= MAX_INT32 && Sendable(config, header, frame)
    requires |Wire(config, header, frame)| + |tail| <= MAX_INT32
    ensures Extracted(Wire(config, header, frame) + tail, config) == Ok(frame)
  {
    match config.framing
    case FixedLength => FixedRoundTrip(frame, tail, config);
    case Delimiter => DelimitedRoundTrip(frame, tail, config);
    case LengthPrefix => PrefixedRoundTrip(header, [0, 0, 0, 0], frame, tail, config);
  }

  lemma WithCheckPasses(data: seq<byte>, validation: Option<ValidationConfig>)
    requires ChecksumViolation(validation).None?
    ensures Verdict(WithCheck(data, validation), validation) == Ok(())
  {
    Crc16.AppendedCheckAccepted(data);
    OnlyTheSumIsAccepted(data, (Total(data) % 256) as byte);
  }

  function FramingOf(schema: ProtocolSchema, operation: ProtocolOperation): Option<FramingConfig> {
    Or(operation.framingOverride, schema.framing)
  }

  function ValidationOf(schema: ProtocolSchema, operation: ProtocolOperation): Option<ValidationConfig> {
    Or(operation.validationOverride, schema.validation)
  }

  /** The setting of the round trip: an accepted schema whose fields have names of their own and fit in `size` bytes. */
  ghost predicate Setting(schema: ProtocolSchema, operation: ProtocolOperation, size: nat) {
    && Accepted(schema) && DistinctNames(schema.fields.value)
    && FramingOf(schema, operation).Some? && ChecksumViolation(ValidationOf(schema, operation)).None?
    && size <= RECEIVE_LIMIT
    && forall f :: f in schema.fields.value ==> f.offset + f.length <= size
  }

  lemma SettingLayout(schema: ProtocolSchema, operation: ProtocolOperation, size: nat)
    requires Setting(schema, operation, size)
    ensures LayoutOk(schema.fields.value)
    ensures forall f :: f in schema.fields.value ==> Inside(f, size) && LongEnough(f)
  {
    AcceptedFields(schema);
  }

  /** In this setting a device can encode any values that suit the fields' types. */
  lemma SettingEncodable(schema: ProtocolSchema, operation: ProtocolOperation, size: nat, values: seq<Value>)
    requires Setting(schema, operation, size) && |values| == |schema.fields.value|
    ensures Encodable(schema.fields.value, values, size)
        <==> forall i :: 0 <= i < |values| ==> Fits(values[i], schema.fields.value[i])
  {
    var fields := schema.fields.value;
    SettingLayout(schema, operation, size);
    assert forall i :: 0 <= i < |fields| ==> fields[i] in fields;
  }

  /** The frame of a device's reply. */
  function ReplyFrame(schema: ProtocolSchema, operation: ProtocolOperation, blank: seq<byte>, values: seq<Value>)
      : (frame: seq<byte>)
    requires schema.fields.Some? && Encodable(schema.fields.value, values, |blank|)
    ensures |frame| <= |blank| + 2
  {
    WithCheck(PlaceAll(blank, schema.fields.value, values), ValidationOf(schema, operation))
  }

  lemma FrameTabulates(blank: seq<byte>, fields: seq<FieldDefinition>, values: seq<Value>, frame: seq<byte>)
      returns (results: Fields)
    requires Encodable(fields, values, |blank|) && LayoutOk(fields) && DistinctNames(fields)
    requires PlaceAll(blank, fields, values) <= frame && |frame| <= MAX_INT32
    ensures DecodeAll(frame, fields, map[]) == Ok(results)
    ensures Tabulates(results, fields, values)
  {
    forall i | 0 <= i < |fields|
      ensures Decode(frame, fields[i]) == Ok(values[i])
    {
      PlacedDecodes(blank, fields, values, i);
      DecodeIgnoresTail(PlaceAll(blank, fields, values), frame, fields[i]);
    }
    results := DecodeAllTabulates(frame, fields, values, |fields|);
    assert fields[..|fields|] == fields && values[..|values|] == values;
  }

  /** Cutting a buffer at the receive limit cuts only what follows the wrapped frame. */
  lemma CutBehind(wire: seq<byte>, later: seq<byte>) returns (tail: seq<byte>)
    requires |wire| <= RECEIVE_LIMIT
    ensures Take(wire + later, RECEIVE_LIMIT) == wire + tail && |wire + tail| <= RECEIVE_LIMIT
  {
    tail := Take(later, RECEIVE_LIMIT - |wire|);
    if |wire + later| > RECEIVE_LIMIT && |wire| < RECEIVE_LIMIT {
      assert (wire + later)[..RECEIVE_LIMIT] == wire + later[..RECEIVE_LIMIT - |wire|];
    }
  }

  /** The reply reaches the decoder as the frame that was sent, with its check passed. */
  lemma ReplyArrives(schema: ProtocolSchema, operation: ProtocolOperation, data: seq<byte>, header: seq<byte>,
                     later: seq<byte>)
    requires FramingOf(schema, operation).Some? && ChecksumViolation(ValidationOf(schema, operation)).None?
    requires |data| <= RECEIVE_LIMIT
    requires var frame := WithCheck(data, ValidationOf(schema, operation));
      && Sendable(FramingOf(schema, operation).value, header, frame)
      && |Wire(FramingOf(schema, operation).value, header, frame)| <= RECEIVE_LIMIT
    ensures var frame := WithCheck(data, ValidationOf(schema, operation));
      && Framed(Take(Wire(FramingOf(schema, operation).value, header, frame) + later, RECEIVE_LIMIT),
                FramingOf(schema, operation)) == Ok(frame)
      && Verdict(frame, ValidationOf(schema, operation)) == Ok(())
  {
    var config, frame := FramingOf(schema, operation).value, WithCheck(data, ValidationOf(schema, operation));
    var tail := CutBehind(Wire(config, header, frame), later);
    WireFramed(config, header, frame, tail);
    WithCheckPasses(data, ValidationOf(schema, operation));
  }

  /**
   What a device encodes is what the gateway reports: exactly the values, under exactly the field names, for any
   number of fields, any of the three framings and any of the checks, whatever bytes follow the reply in the
   receive buffer. The matcher alone can still turn the reply away.
   */
  lemma RoundTrip(schema: ProtocolSchema, operation: ProtocolOperation, blank: seq<byte>, values: seq<Value>,
                  header: seq<byte>, later: seq<byte>)
      returns (results: Fields)
    requires Setting(schema, operation, |blank|) && Encodable(schema.fields.value, values, |blank|)
    requires Sendable(FramingOf(schema, operation).value, header, ReplyFrame(schema, operation, blank, values))
    requires |Wire(FramingOf(schema, operation).value, header, ReplyFrame(schema, operation, blank, values))|
          <= RECEIVE_LIMIT
    ensures Tabulates(results, schema.fields.value, values)
    ensures var frame := ReplyFrame(schema, operation, blank, values);
      Processed(schema, operation, Take(Wire(FramingOf(schema, operation).value, header, frame) + later, RECEIVE_LIMIT))
      == if ResponseMatcher.Matches(frame, operation.expectedPrefix, operation.exactMatch)
         then Ok(Report(results, frame)) else Err(ResponseMismatch)
  {
    var fields := schema.fields.value;
    var data, frame := PlaceAll(blank, fields, values), ReplyFrame(schema, operation, blank, values);
    SettingLayout(schema, operation, |blank|);
    results := FrameTabulates(blank, fields, values, frame);
    ReplyArrives(schema, operation, data, header, later);
    var wire := Wire(FramingOf(schema, operation).value, header, frame);
    ProcessedFrame(schema, operation, Take(wire + later, RECEIVE_LIMIT), frame, results);
  }

  /**
   The same through the connector: the device's reply arrives on a reachable transport, a connector for the
   schema connects and executes a permitted operation, and reports exactly the device's values.
   */
  method ReadDevice(schema: ProtocolSchema, operation: ProtocolOperation, blank: seq<byte>, values: seq<Value>,
                    header: seq<byte>, later: seq<byte>)
      returns (r: Result<Report>, requests: seq<seq<byte>>)
    requires Setting(schema, operation, |blank|) && Encodable(schema.fields.value, values, |blank|)
    requires Sendable(FramingOf(schema, operation).value, header, ReplyFrame(schema, operation, blank, values))
    requires |Wire(FramingOf(schema, operation).value, header, ReplyFrame(schema, operation, blank, values))|
          <= RECEIVE_LIMIT
    ensures requests == [operation.requestBytes]
    ensures var frame := ReplyFrame(schema, operation, blank, values);
      if ResponseMatcher.Matches(frame, operation.expectedPrefix, operation.exactMatch)
      then r.Ok? && r.value.rawPayload == frame && Tabulates(r.value.fields, schema.fields.value, values)
      else r == Err(ResponseMismatch)
  {
    var frame := ReplyFrame(schema, operation, blank, values);
    ghost var results := RoundTrip(schema, operation, blank, values, header, later);
    r, requests := Ask(schema, operation, Wire(FramingOf(schema, operation).value, header, frame) + later);
  }

  /** A fresh connector on a reachable transport that holds one reply: one request, and what becomes of the reply. */
  method Ask(schema: ProtocolSchema, operation: ProtocolOperation, reply: seq<byte>)
      returns (r: Result<Report>, requests: seq<seq<byte>>)
    ensures requests == [operation.requestBytes]
    ensures r == Processed(schema, operation, Take(reply, RECEIVE_LIMIT))
  {
    var transport := new Transport([Arrives(reply)], true);
    var connector := new Connector(schema, transport);
    var connected := connector.Connect();
    r := connector.Execute(operation, true);
    requests := transport.sent;
  }

  lemma ProcessedFrame(schema: ProtocolSchema, operation: ProtocolOperation, raw: seq<byte>, frame: seq<byte>,
                       results: Fields)
    requires schema.fields.Some?
    requires Framed(raw, Or(operation.framingOverride, schema.framing)) == Ok(frame)
    requires Verdict(frame, Or(operation.validationOverride, schema.validation)) == Ok(())
    requires DecodeAll(frame, schema.fields.value, map[]) == Ok(results)
    ensures Processed(schema, operation, raw)
         == if ResponseMatcher.Matches(frame, operation.expectedPrefix, operation.exactMatch)
            then Ok(Report(results, frame)) else Err(ResponseMismatch)
  {
  }

  /** Fixed-length frames with CRC, which is where damage cannot move the end of a frame. */
  predicate FixedWithCrc(schema: ProtocolSchema, operation: ProtocolOperation) {
    && FramingOf(schema, operation).Some? && FramingOf(schema, operation).value.framing.FixedLength?
    && FramingOf(schema, operation).value.fixedLength <= RECEIVE_LIMIT
    && ValidationOf(schema, operation) == Some(ValidationConfig(true, "CRC16"))
  }

  /** A reply damaged by a burst of at most 16 bits is never reported as a success. */
  lemma DamagedReplyRejected(schema: ProtocolSchema, operation: ProtocolOperation, sent: seq<byte>, received: seq<byte>,
                             burstStart: nat, later: seq<byte>)
    requires FixedWithCrc(schema, operation)
    requires |sent| == FramingOf(schema, operation).value.fixedLength && Crc16.Accepts(sent)
    requires received != sent && Crc16.DifferInBurst(sent, received, burstStart)
    ensures Processed(schema, operation, Take(received + later, RECEIVE_LIMIT)) == Err(Integrity)
  {
    var tail := CutBehind(received, later);
    FixedRoundTrip(received, tail, FramingOf(schema, operation).value);
    Crc16.BurstRejected(sent, received, burstStart);
  }

  /** Whatever is reported came from a frame that passed the integrity check and the matcher, field by field. */
  lemma ReportsAreChecked(schema: ProtocolSchema, operation: ProtocolOperation, raw: seq<byte>)
    requires Processed(schema, operation, raw).Ok?
    requires schema.fields.Some?
    ensures var report := Processed(schema, operation, raw).value;
      && Framed(raw, Or(operation.framingOverride, schema.framing)) == Ok(report.rawPayload)
      && Verdict(report.rawPayload, Or(operation.validationOverride, schema.validation)).Ok?
      && ResponseMatcher.Matches(report.rawPayload, operation.expectedPrefix, operation.exactMatch)
      && DistinctNames(schema.fields.value)
      && forall f :: f in schema.fields.value ==>
           f.name in report.fields && Decode(report.rawPayload, f) == Ok(report.fields[f.name])
  {
    DecodedAll(Processed(schema, operation, raw).value.rawPayload, schema.fields.value, map[]);
  }

  lemma {:induction false} DecodedAll(payload: seq<byte>, fields: seq<FieldDefinition>, results: Fields)
    requires DecodeAll(payload, fields, results).Ok?
    ensures var final := DecodeAll(payload, fields, results).value;
      && (forall name :: name in results ==> name in final && final[name] == results[name])
      && (forall f :: f in fields ==> f.name in final && Decode(payload, f) == Ok(final[f.name]))
    ensures DistinctNames(fields) && forall f :: f in fields ==> f.name !in results
    decreases |fields|
  {
    if fields != [] {
      var name := fields[0].name;
      DecodedAll(payload, fields[1..], results[name := Decode(payload, fields[0]).value]);
      forall i, j | 0 <= i < j < |fields|
        ensures fields[i].name != fields[j].name
      {
        assert fields[j] == fields[1..][j - 1] && fields[j] in fields[1..];
        if i > 0 {
          assert fields[i] == fields[1..][i - 1];
        }
      }
    }
  }
}
