/** Client and simulator together: a session of reads over two byte streams that may be cut anywhere. */
module ModbusSession {
  import opened Bytes
  import opened Results
  import opened ByteStreams
  import opened ModbusTcp

  /** A function code the simulator serves. */
  predicate Served34(req: ReadRequest) {
    req.functionCode == 3 || req.functionCode == 4
  }

  function ReplyTo(registers: seq<ushort>, tid: ushort, unit: byte, req: ReadRequest): seq<byte> {
    ReplyAdu(registers, RequestAdu(tid, unit, req)[..6], unit, req.functionCode, req.startAddress, req.quantity)
  }

  function Requested(registers: seq<ushort>, req: ReadRequest): seq<ushort> {
    Window(registers, req.startAddress as int, req.quantity as int)
  }

  /** The registers a read yields: those from its start address on, and 0 for each address past the last register. */
  ghost predicate Reads(registers: seq<ushort>, req: ReadRequest, yielded: seq<ushort>) {
    && |yielded| == req.quantity as int
    && forall k :: 0 <= k < |yielded| ==>
         yielded[k] == if req.startAddress as int + k < |registers|
                       then registers[req.startAddress as int + k] else 0
  }

  lemma RequestedIsRead(registers: seq<ushort>, req: ReadRequest, yielded: seq<ushort>)
    ensures Reads(registers, req, yielded) <==> yielded == Requested(registers, req)
  {
    var start := req.startAddress as int;
    forall k | 0 <= k < req.quantity as int
      ensures Requested(registers, req)[k] == if start + k < |registers| then registers[start + k] else 0
    {
      assert Requested(registers, req)[k] == RegisterAt(registers, start + k);
    }
    if Reads(registers, req, yielded) {
      assert yielded == Requested(registers, req);
    }
  }

  lemma WordOfHalves(w: ushort)
    ensures Word(HighHalf(w), LowHalf(w)) == w
  {
  }

  /** Two bytes of a message, high byte first, as a number. */
  function WordAt(adu: seq<byte>, i: nat): nat
    requires i + 1 < |adu|
  {
    256 * adu[i] as int + adu[i + 1] as int
  }

  /** Where each field of a request is. */
  lemma RequestFields(tid: ushort, unit: byte, req: ReadRequest)
    ensures var adu := RequestAdu(tid, unit, req);
      && |adu| == 12
      && WordAt(adu, 0) == tid as int && WordAt(adu, 2) == 0 && WordAt(adu, 4) == |adu| - 6
      && adu[6] == unit && adu[7] == req.functionCode
      && WordAt(adu, 8) == req.startAddress as int && WordAt(adu, 10) == req.quantity as int
  {
  }

  /** Where each field of a reply is: ids and unit are those of the request, and the length counts what follows it. */
  lemma ReplyFields(registers: seq<ushort>, tid: ushort, unit: byte, req: ReadRequest)
    requires req.quantity <= 127
    ensures var adu := ReplyTo(registers, tid, unit, req);
      && |adu| == 9 + 2 * req.quantity as int
      && WordAt(adu, 0) == tid as int && WordAt(adu, 2) == 0 && WordAt(adu, 4) == |adu| - 6
      && adu[6] == unit && adu[7] == req.functionCode && adu[8] as int == |adu| - 9
  {
  }

  /** The registers stand behind their byte count, high bytes first. */
  lemma ReplyRegisters(registers: seq<ushort>, tid: ushort, unit: byte, req: ReadRequest, k: nat)
    requires k < req.quantity as int
    ensures var adu, address := ReplyTo(registers, tid, unit, req), req.startAddress as int + k;
      WordAt(adu, 9 + 2 * k) == if address < |registers| then registers[address] as int else 0
  {
    var adu, w := ReplyTo(registers, tid, unit, req), Requested(registers, req);
    RegisterByteAt(w, k);
    assert adu[9..] == RegisterBytes(w);
    assert adu[9 + 2 * k] == adu[9..][2 * k] && adu[10 + 2 * k] == adu[9..][2 * k + 1];
  }

  lemma TwelveBytesServed(registers: seq<ushort>, adu: seq<byte>, rest: seq<byte>)
    requires |adu| == 12 && Word(adu[4], adu[5]) == 6 && (adu[7] == 3 || adu[7] == 4)
    ensures Serve(registers, adu + rest)
         == Reply(ReplyAdu(registers, adu[..6], adu[6], adu[7], Word(adu[8], adu[9]), Word(adu[10], adu[11])), rest)
  {
    var input := adu + rest;
    assert input[..6] == adu[..6] && input[6..12] == adu[6..] && input[12..] == rest;
  }

  /** The simulator reads exactly one request and answers it. */
  lemma RequestIsServed(registers: seq<ushort>, tid: ushort, unit: byte, req: ReadRequest, rest: seq<byte>)
    requires Served34(req)
    ensures Serve(registers, RequestAdu(tid, unit, req) + rest) == Reply(ReplyTo(registers, tid, unit, req), rest)
  {
    WordOfHalves(req.startAddress);
    WordOfHalves(req.quantity);
    TwelveBytesServed(registers, RequestAdu(tid, unit, req), rest);
  }

  /** What the simulator does with any other input: it ends the connection, or passes over one whole request. */
  lemma OtherInput(registers: seq<ushort>, input: seq<byte>)
    ensures Serve(registers, input).Stopped?
        <==> || |input| < 6 || WordAt(input, 4) < 2 || WordAt(input, 4) > 260 || |input| < 6 + WordAt(input, 4)
             || (input[7] in {3, 4} && WordAt(input, 4) < 6)
    ensures Serve(registers, input).Ignored? ==>
              input[7] !in {3, 4} && Serve(registers, input).rest == input[6 + WordAt(input, 4)..]
    ensures Serve(registers, input).Reply? ==>
              input[7] in {3, 4} && Serve(registers, input).rest == input[6 + WordAt(input, 4)..]
  {
  }

  lemma {:induction false} RegisterByteAt(w: seq<ushort>, i: nat)
    requires i < |w|
    ensures RegisterBytes(w)[2 * i] == HighHalf(w[i]) && RegisterBytes(w)[2 * i + 1] == LowHalf(w[i])
  {
    if i < |w| - 1 {
      RegisterByteAt(w[..|w| - 1], i);
    }
  }

  /** A byte count that fits one byte lets the decoder read back the registers. */
  lemma ReplyDecodes(registers: seq<ushort>, header: seq<byte>, unit: byte, fc: byte, start: ushort, quantity: ushort)
    requires |header| == 6 && (fc == 3 || fc == 4) && quantity <= 127
    ensures Decoded(ReplyAdu(registers, header, unit, fc, start, quantity))
         == Some(Window(registers, start as int, quantity as int))
  {
    var adu := ReplyAdu(registers, header, unit, fc, start, quantity);
    var w := Window(registers, start as int, quantity as int);
    assert adu[7] == fc && adu[8] as int == 2 * quantity as int;
    var decoded := Decoded(adu).value;
    forall i | 0 <= i < |w|
      ensures decoded[i] == w[i]
    {
      RegisterByteAt(w, i);
      assert adu[9 + 2 * i] == RegisterBytes(w)[2 * i] && adu[10 + 2 * i] == RegisterBytes(w)[2 * i + 1];
      WordOfHalves(w[i]);
    }
    assert decoded == w;
  }

  lemma LongReplyNotDecoded(adu: seq<byte>)
    requires |adu| > 9 + 255
    ensures Decoded(adu).None?
  {
  }

  /** The size of a reply, and the length its header announces. */
  predicate ReplyShape(reply: seq<byte>, quantity: ushort) {
    |reply| == 9 + 2 * quantity as int && Word(reply[4], reply[5]) == LowWord(3 + 2 * quantity as int)
  }

  lemma ReplyHasShape(registers: seq<ushort>, header: seq<byte>, unit: byte, fc: byte, start: ushort, quantity: ushort)
    requires |header| == 6
    ensures ReplyShape(ReplyAdu(registers, header, unit, fc, start, quantity), quantity)
  {
    WordOfHalves(LowWord(3 + 2 * quantity as int));
  }

  /** The client cuts off exactly as many bytes as the length field says. */
  lemma CutByLength(input: seq<byte>, length: ushort)
    requires |input| >= 6 + length as int && Word(input[4], input[5]) == length
    ensures Received(input) == Some((input[..6 + length as int], input[6 + length as int..]))
  {
  }

  /** A reply of up to 127 registers is received whole. */
  lemma ShortReplyReceived(reply: seq<byte>, quantity: ushort)
    requires ReplyShape(reply, quantity) && quantity <= 127
    ensures Received(reply) == Some((reply, []))
  {
    CutByLength(reply, LowWord(3 + 2 * quantity as int));
    assert reply[..|reply|] == reply && reply[|reply|..] == [];
  }

  /** A longer one is cut short, or its byte count does not fit. */
  lemma LongReplyFails(reply: seq<byte>, quantity: ushort, adu: seq<byte>)
    requires ReplyShape(reply, quantity) && quantity > 127
    requires Received(reply) == Some((adu, []))
    ensures Decoded(adu).None?
  {
    LongReplyNotDecoded(adu);
  }

  /** What the client gets for one request: the decoded registers, with nothing left to read. */
  ghost predicate Answered(registers: seq<ushort>, tid: ushort, unit: byte, req: ReadRequest) {
    exists adu: seq<byte> ::
      && Received(ReplyTo(registers, tid, unit, req)) == Some((adu, []))
      && Decoded(adu).Some? && Reads(registers, req, Decoded(adu).value)
  }

  /**
   A read comes back right, with no byte left over, exactly for quantities up to 127. Beyond that the
   byte count no longer fits its byte, though the code accepts any 16-bit quantity.
   */
  lemma RoundTripIff(registers: seq<ushort>, tid: ushort, unit: byte, req: ReadRequest)
    requires Served34(req)
    ensures Answered(registers, tid, unit, req) <==> req.quantity <= 127
  {
    ReplyHasShape(registers, RequestAdu(tid, unit, req)[..6], unit, req.functionCode, req.startAddress, req.quantity);
    if req.quantity <= 127 {
      ShortReplyAnswers(registers, tid, unit, req);
      RequestedIsRead(registers, req, Requested(registers, req));
    } else if Answered(registers, tid, unit, req) {
      var adu: seq<byte> :|
        && Received(ReplyTo(registers, tid, unit, req)) == Some((adu, []))
        && Decoded(adu).Some? && Reads(registers, req, Decoded(adu).value);
      LongReplyFails(ReplyTo(registers, tid, unit, req), req.quantity, adu);
      assert false;
    }
  }

  lemma ShortReplyAnswers(registers: seq<ushort>, tid: ushort, unit: byte, req: ReadRequest)
    requires Served34(req) && req.quantity <= 127
    ensures Received(ReplyTo(registers, tid, unit, req)) == Some((ReplyTo(registers, tid, unit, req), []))
    ensures Decoded(ReplyTo(registers, tid, unit, req)) == Some(Requested(registers, req))
  {
    var header := RequestAdu(tid, unit, req)[..6];
    ReplyDecodes(registers, header, unit, req.functionCode, req.startAddress, req.quantity);
    ReplyHasShape(registers, header, unit, req.functionCode, req.startAddress, req.quantity);
    ShortReplyReceived(ReplyTo(registers, tid, unit, req), req.quantity);
  }

  // ---------- sessions ----------

  /** A way for the network to cut the i-th message into nonempty chunks. */
  type Cutting = (nat, seq<byte>) -> seq<seq<byte>>

  ghost predicate Cuts(cut: Cutting) {
    forall i, bytes :: IsCutOf(cut(i, bytes), bytes)
  }

  /** One read: the request travels to the simulator, its reply travels back and is decoded. */
  method Exchange(client: ModbusTcpConnector, server: ModbusTcpSimulator, req: ReadRequest, i: nat,
                  cutRequest: Cutting, cutReply: Cutting)
      returns (decoded: Option<seq<ushort>>)
    requires Cuts(cutRequest) && Cuts(cutReply)
    requires Served34(req) && req.quantity <= 127
    requires client.stream != server.stream && client.stream.Valid() && server.stream.Valid()
    requires client.stream.Unread() == [] && server.stream.Unread() == []
    modifies client, server, client.stream, server.stream
    ensures client.stream.Valid() && server.stream.Valid()
    ensures client.stream.Unread() == [] && server.stream.Unread() == []
    ensures decoded.Some? && Reads(server.registers, req, decoded.value)
  {
    var sentBefore := client.written;
    client.SendRequest(req);
    var request := client.written[|sentBefore|..];
    ghost var tid, unit := client.transactionId, client.unitId;
    assert request == RequestAdu(tid, unit, req);
    var requestChunks := cutRequest(i, request);
    assert IsCutOf(requestChunks, request);
    server.stream.Arrive(requestChunks);
    assert server.stream.Unread() == request + [];

    RequestIsServed(server.registers, tid, unit, req, []);
    var servedBefore := server.written;
    var more := server.HandleNext();
    var reply := server.written[|servedBefore|..];
    assert reply == ReplyTo(server.registers, tid, unit, req);
    var replyChunks := cutReply(i, reply);
    assert IsCutOf(replyChunks, reply);
    client.stream.Arrive(replyChunks);
    assert client.stream.Unread() == reply;

    ShortReplyAnswers(server.registers, tid, unit, req);
    var adu := client.ReceiveReply();
    decoded := DecodeRegisters(adu.value);
    RequestedIsRead(server.registers, req, Requested(server.registers, req));
  }

  /**
   Successive reads over one connection. Whatever way the network cuts the requests and the replies,
   each read yields the registers it asked for, and both streams end up fully read.
   */
  method Session(registers: seq<ushort>, unit: byte, requests: seq<ReadRequest>, cutRequest: Cutting, cutReply: Cutting)
      returns (results: seq<Option<seq<ushort>>>, unreadRequests: seq<byte>, unreadReplies: seq<byte>)
    requires Cuts(cutRequest) && Cuts(cutReply)
    requires forall req :: req in requests ==> Served34(req) && req.quantity <= 127
    ensures |results| == |requests|
    ensures forall i :: 0 <= i < |requests| ==>
              results[i].Some? && Reads(registers, requests[i], results[i].value)
    ensures unreadRequests == [] && unreadReplies == []
  {
    var toServer := new NetworkStream();
    var toClient := new NetworkStream();
    var client := new ModbusTcpConnector(unit, toClient);
    var server := new ModbusTcpSimulator(registers, toServer);
    results := [];
    for i := 0 to |requests|
      invariant toServer.Valid() && toClient.Valid()
      invariant toServer.Unread() == [] && toClient.Unread() == []
      invariant |results| == i
      invariant forall j :: 0 <= j < i ==> results[j].Some? && Reads(registers, requests[j], results[j].value)
    {
      var req := requests[i];
      assert req in requests;

      var decoded := Exchange(client, server, req, i, cutRequest, cutReply);
      results := results + [decoded];
    }
    unreadRequests, unreadReplies := toServer.Unread(), toClient.Unread();
  }
}
