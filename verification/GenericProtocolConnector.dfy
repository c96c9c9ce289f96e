/**
 src/AtlasGT.Infrastructure/Connectors/GenericProtocolConnector.cs: the stages of one operation
 in order, and what a gateway reports about what a device sent.
 */
module GenericProtocolConnector {
  import opened Bytes
  import opened Results
  import opened FrameProcessor
  import opened IntegrityChecker
  import opened ProtocolDecoder
  import opened ProtocolSchemaValidator
  import ResponseMatcher

  datatype ProtocolOperation =
    ProtocolOperation(
      requestBytes: seq<byte>,
      expectedPrefix: Option<seq<byte>>,
      exactMatch: Option<seq<byte>>,
      framingOverride: Option<FramingConfig>,
      validationOverride: Option<ValidationConfig>)

  type Fields = map<string, Value>

  datatype Report = Report(fields: Fields, rawPayload: seq<byte>)

  const RECEIVE_LIMIT := 4096

  // ---------- the stages ----------

  /** Decoding every field in order; a repeated name makes `Dictionary.Add` throw. */
  function DecodeAll(payload: seq<byte>, fields: seq<FieldDefinition>, results: Fields): Result<Fields>
    decreases |fields|
  {
    if fields == [] then Ok(results)
    else
      var value :- Decode(payload, fields[0]);
      if fields[0].name in results then Err(DuplicateKey)
      else DecodeAll(payload, fields[1..], results[fields[0].name := value])
  }

  function Framed(raw: seq<byte>, config: Option<FramingConfig>): Result<seq<byte>> {
    if config.None? then Err(ArgumentNull) else Extracted(raw, config.value)
  }

  function Or<T>(first: Option<T>, second: Option<T>): Option<T> {
    if first.Some? then first else second
  }

  /** What a received buffer is turned into: a report, or the first stage's failure. */
  function Processed(schema: ProtocolSchema, operation: ProtocolOperation, raw: seq<byte>): Result<Report> {
    var frame :- Framed(raw, Or(operation.framingOverride, schema.framing));
    var _ :- Verdict(frame, Or(operation.validationOverride, schema.validation));
    if !ResponseMatcher.Matches(frame, operation.expectedPrefix, operation.exactMatch) then Err(ResponseMismatch)
    else if schema.fields.None? then Err(ArgumentNull)
    else
      var results :- DecodeAll(frame, schema.fields.value, map[]);
      Ok(Report(results, frame))
  }

  // ---------- transport and connector ----------

  datatype ConnectorState = Disconnected | Connecting | Connected | Faulted

  datatype Reply = Arrives(data: seq<byte>) | Lost

  /** A transport as the connector sees it: what it was given to send, and the replies still to come. */
  class Transport {
    var sent: seq<seq<byte>>
    var replies: seq<Reply>
    /** Whether the other end takes connections and data. */
    var reachable: bool

    constructor (replies: seq<Reply>, reachable: bool)
      ensures this.replies == replies && this.reachable == reachable && sent == []
    {
      this.replies, this.reachable, sent := replies, reachable, [];
    }

    method Send(data: seq<byte>) returns (r: Result<()>)
      modifies this`sent
      ensures reachable ==> r == Ok(()) && sent == old(sent) + [data]
      ensures !reachable ==> r == Err(Error.Transport) && sent == old(sent)
    {
      if !reachable {
        return Err(Error.Transport);
      }
      sent := sent + [data];
      r := Ok(());
    }

    /** At most `maxLength` bytes of the next reply; with no reply left, a timeout. */
    method Receive(maxLength: nat) returns (r: Result<seq<byte>>)
      modifies this`replies
      ensures old(replies) == [] ==> r == Err(Error.Transport) && replies == []
      ensures old(replies) != [] ==> replies == old(replies)[1..]
      ensures old(replies) != [] && old(replies)[0].Lost? ==> r == Err(Error.Transport)
      ensures old(replies) != [] && old(replies)[0].Arrives? ==> r == Ok(Take(old(replies)[0].data, maxLength))
    {
      if replies == [] {
        return Err(Error.Transport);
      }
      var reply := replies[0];
      replies := replies[1..];
      match reply
      case Lost => r := Err(Error.Transport);
      case Arrives(data) => r := Ok(Take(data, maxLength));
    }
  }

  class Connector {
    const schema: ProtocolSchema
    const transport: Transport
    var state: ConnectorState

    constructor (schema: ProtocolSchema, transport: Transport)
      ensures this.schema == schema && this.transport == transport && state == Disconnected
    {
      this.schema, this.transport, state := schema, transport, Disconnected;
    }

    method Connect() returns (ok: bool)
      modifies this`state
      ensures ok == transport.reachable
      ensures state == if ok then Connected else Faulted
    {
      state := Connecting;
      if transport.reachable {
        state := Connected;
        ok := true;
      } else {
        state := Faulted;
        ok := false;
      }
    }

    /** The reply `Execute` would read next, cut to the receive limit. */
    ghost function NextBytes(): Result<seq<byte>>
      reads transport
    {
      if transport.replies == [] || transport.replies[0].Lost? then Err(Error.Transport)
      else Ok(Take(transport.replies[0].data, RECEIVE_LIMIT))
    }

    /**
     One operation. `permitted` is the answer of the command safety service. Nothing is sent unless
     the connector is connected and the command is permitted; then one request goes out, one reply is
     read, and the outcome is what `Processed` says about it. What is reported lies in the reply as the operation's
     own framing asks, or without one the schema's, and passed the operation's own check, or without one the schema's.
     */
    method Execute(operation: ProtocolOperation, permitted: bool) returns (r: Result<Report>)
      modifies transport`sent, transport`replies
      ensures old(state) != Connected ==> r == Err(InvalidOperation)
      ensures old(state) == Connected && !permitted ==> r == Err(SafetyViolation)
      ensures old(state) != Connected || !permitted || !transport.reachable ==>
                transport.sent == old(transport.sent) && transport.replies == old(transport.replies)
      ensures old(state) == Connected && permitted && !transport.reachable ==> r == Err(Error.Transport)
      ensures old(state) == Connected && permitted && transport.reachable ==>
                && transport.sent == old(transport.sent) + [operation.requestBytes]
                && transport.replies == (if old(transport.replies) == [] then [] else old(transport.replies)[1..])
                && r == match old(NextBytes()) {
                          case Err(e) => Err(e)
                          case Ok(raw) => Processed(schema, operation, raw)
                        }
      ensures r.Ok? ==> old(NextBytes()).Ok?
      ensures r.Ok? ==>
                match operation.framingOverride
                case Some(c) => IsFramed(old(NextBytes()).value, c, r.value.rawPayload)
                case None =>
                  schema.framing.Some? && IsFramed(old(NextBytes()).value, schema.framing.value, r.value.rawPayload)
      ensures r.Ok? ==>
                match operation.validationOverride
                case Some(v) => Verdict(r.value.rawPayload, Some(v)) == Ok(())
                case None => Verdict(r.value.rawPayload, schema.validation) == Ok(())
    {
      if state != Connected {
        return Err(InvalidOperation);
      }
      if !permitted {
        return Err(SafetyViolation);
      }
      var _ :- transport.Send(operation.requestBytes);
      var rawBuffer :- transport.Receive(RECEIVE_LIMIT);
      var framingConfig := if operation.framingOverride.Some? then operation.framingOverride else schema.framing;
      var framedPayload :- ExtractFrame(rawBuffer, framingConfig);
      ExtractedIffFramed(rawBuffer, framingConfig.value, framedPayload);
      var validationConfig :=
        if operation.validationOverride.Some? then operation.validationOverride else schema.validation;
      var _ :- IntegrityChecker.Validate(framedPayload, validationConfig);
      var _ :- ResponseMatcher.Match(framedPayload, operation.expectedPrefix, operation.exactMatch);
      if schema.fields.None? {
        return Err(ArgumentNull);
      }
      var fields := schema.fields.value;
      var results: Fields := map[];
      for i := 0 to |fields|
        invariant DecodeAll(framedPayload, fields[i..], results) == DecodeAll(framedPayload, fields, map[])
      {
        assert fields[i..][0] == fields[i] && fields[i..][1..] == fields[i + 1..];
        var value :- Decode(framedPayload, fields[i]);
        if fields[i].name in results {
          return Err(DuplicateKey);
        }
        results := results[fields[i].name := value];
      }
      r := Ok(Report(results, framedPayload));
    }
  }
}
