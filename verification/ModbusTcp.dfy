/**
 The Modbus TCP client (src/AtlasGT.Connectors.Modbus/ModbusTcpConnector.cs) and simulator
 (src/AtlasGT.Connectors.Simulators/ModbusTcpSimulator.cs), byte for byte, and what a session yields.
 */
module ModbusTcp {
  import opened Bytes
  import opened Results
  import opened ByteStreams

  datatype ReadRequest = ReadRequest(functionCode: byte, startAddress: ushort, quantity: ushort)

  // ---------- the messages ----------

  /** Function code, start and quantity. */
  function RequestPdu(req: ReadRequest): (pdu: seq<byte>)
    ensures |pdu| == 5
  {
    [req.functionCode, HighHalf(req.startAddress), LowHalf(req.startAddress),
     HighHalf(req.quantity), LowHalf(req.quantity)]
  }

  /** The request: transaction id, protocol id 0, length 6, unit, and the five bytes above. */
  function RequestAdu(tid: ushort, unit: byte, req: ReadRequest): (adu: seq<byte>)
    ensures |adu| == 12
  {
    [HighHalf(tid), LowHalf(tid), 0, 0, 0, 6, unit] + RequestPdu(req)
  }

  /** Register number i, or 0 past the end. */
  function RegisterAt(registers: seq<ushort>, i: nat): ushort {
    if i < |registers| then registers[i] else 0
  }

  /** The registers a request asks for. */
  function Window(registers: seq<ushort>, start: nat, quantity: nat): (w: seq<ushort>)
    ensures |w| == quantity
  {
    seq(quantity, i requires 0 <= i < quantity => RegisterAt(registers, start + i))
  }

  /** Registers as bytes, high byte first. */
  function RegisterBytes(w: seq<ushort>): (b: seq<byte>)
    ensures |b| == 2 * |w|
  {
    if w == [] then [] else RegisterBytes(w[..|w| - 1]) + [HighHalf(w[|w| - 1]), LowHalf(w[|w| - 1])]
  }

  /** The reply: ids and unit copied, the length and byte count cut to 16 and 8 bits. */
  function ReplyAdu(registers: seq<ushort>, header: seq<byte>, unit: byte, fc: byte, start: ushort,
                    quantity: ushort): (adu: seq<byte>)
    requires |header| == 6
    ensures |adu| == 9 + 2 * quantity as int
  {
    var length := LowWord(3 + 2 * quantity as int);
    header[..4] + [HighHalf(length), LowHalf(length), unit, fc, LowByte(2 * quantity as int)]
    + RegisterBytes(Window(registers, start as int, quantity as int))
  }

  /** The registers of a reply, or none if it is not a well-formed one. */
  function Decoded(adu: seq<byte>): Option<seq<ushort>> {
    if |adu| < 9 || (adu[7] != 3 && adu[7] != 4) || |adu| != 9 + adu[8] as int then None
    else Some(seq(adu[8] as int / 2, i requires 0 <= i < adu[8] as int / 2 => Word(adu[9 + 2 * i], adu[10 + 2 * i])))
  }

  function ReplyPdu(registers: seq<ushort>, fc: byte, start: ushort, quantity: ushort): (pdu: seq<byte>)
    ensures |pdu| == 2 + 2 * quantity as int
  {
    [fc, LowByte(2 * quantity as int)] + RegisterBytes(Window(registers, start as int, quantity as int))
  }

  lemma ReplyParts(registers: seq<ushort>, header: seq<byte>, unit: byte, fc: byte, start: ushort, quantity: ushort)
    requires |header| == 6
    ensures var length := LowWord(3 + 2 * quantity as int);
      ReplyAdu(registers, header, unit, fc, start, quantity)
      == header[..4] + [HighHalf(length), LowHalf(length), unit] + ReplyPdu(registers, fc, start, quantity)
  {
  }

  // ---------- the client ----------

  class ModbusTcpConnector {
    const unitId: byte
    const stream: NetworkStream
    var transactionId: ushort
    /** What has been written to the stream. */
    var written: seq<byte>

    constructor (unitId: byte, stream: NetworkStream)
      ensures this.unitId == unitId && this.stream == stream && transactionId == 0 && written == []
    {
      this.unitId, this.stream, transactionId, written := unitId, stream, 0, [];
    }

    method SendRequest(req: ReadRequest)
      modifies this`transactionId, this`written
      ensures transactionId == LowWord(old(transactionId) as int + 1)
      ensures written == old(written) + RequestAdu(transactionId, unitId, req)
    {
      transactionId := LowWord(transactionId as int + 1);
      var tid := transactionId;
      var pdu := BuildPdu(req);
      var adu := new byte[7 + pdu.Length];
      adu[0], adu[1] := HighHalf(tid), LowHalf(tid);
      adu[2], adu[3] := 0, 0;
      var len := LowWord(1 + pdu.Length);
      adu[4], adu[5] := HighHalf(len), LowHalf(len);
      adu[6] := unitId;
      forall i | 0 <= i < pdu.Length {
        adu[7 + i] := pdu[i];
      }
      assert adu[..7] == [HighHalf(tid), LowHalf(tid), 0, 0, 0, 6, unitId];
      assert adu[7..] == pdu[..];
      assert adu[..] == adu[..7] + adu[7..];
      written := written + adu[..];
    }

    method BuildPdu(req: ReadRequest) returns (pdu: array<byte>)
      ensures fresh(pdu)
      ensures pdu[..] == RequestPdu(req)
    {
      pdu := new byte[5];
      pdu[0] := req.functionCode;
      pdu[1] := HighHalf(req.startAddress);
      pdu[2] := LowHalf(req.startAddress);
      pdu[3] := HighHalf(req.quantity);
      pdu[4] := LowHalf(req.quantity);
    }

    /** Reads one reply, header first; none stands for the IOException when the stream ends early. */
    method ReceiveReply() returns (full: Option<seq<byte>>)
      requires stream.Valid()
      modifies stream
      ensures stream.Valid()
      ensures match Received(old(stream.Unread()))
              case Some((adu, rest)) => full == Some(adu) && stream.Unread() == rest
              case None => full == None
    {
      ghost var input := stream.Unread();
      var mbap := stream.ReadExact(6);
      if mbap.None? {
        return None;
      }
      var respLen := Word(mbap.value[4], mbap.value[5]) as int;
      var body := stream.ReadExact(respLen);
      if body.None? {
        return None;
      }
      full := Some(mbap.value + body.value);
      assert input[..6] + input[6..][..respLen] == input[..6 + respLen];
      assert input[6..][respLen..] == input[6 + respLen..];
    }
  }

  /** One reply at the front of the input and what follows it. */
  function Received(input: seq<byte>): Option<(seq<byte>, seq<byte>)> {
    if |input| < 6 then None
    else
      var n := 6 + Word(input[4], input[5]) as int;
      if |input| < n then None else Some((input[..n], input[n..]))
  }

  method DecodeRegisters(adu: seq<byte>) returns (r: Option<seq<ushort>>)
    ensures r == Decoded(adu)
    ensures r.Some? <==> |adu| >= 9 && adu[7] in {3, 4} && adu[8] as int == |adu| - 9
    ensures r.Some? ==> |r.value| == (|adu| - 9) / 2
    ensures r.Some? ==>
              forall k :: 0 <= k < |r.value| ==>
                r.value[k] as int == 256 * adu[9 + 2 * k] as int + adu[10 + 2 * k] as int
  {
    if |adu| < 9 {
      return None;
    }
    var fc := adu[7];
    if fc != 3 && fc != 4 {
      return None;
    }
    var byteCount := adu[8] as int;
    if |adu| != 9 + byteCount {
      return None;
    }
    var regs := new ushort[byteCount / 2];
    for i := 0 to regs.Length
      invariant forall k :: 0 <= k < i ==> regs[k] == Word(adu[9 + 2 * k], adu[10 + 2 * k])
    {
      regs[i] := Word(adu[9 + i * 2], adu[9 + i * 2 + 1]);
    }
    assert regs[..] == Decoded(adu).value;
    r := Some(regs[..]);
  }

  // ---------- the simulator ----------

  datatype Served =
    | Reply(adu: seq<byte>, rest: seq<byte>)
    | Ignored(rest: seq<byte>)
    | Stopped

  /** What the simulator does with the first request in its input. */
  function Serve(registers: seq<ushort>, input: seq<byte>): Served {
    if |input| < 6 then Stopped
    else
      var len := Word(input[4], input[5]) as int;
      if len < 2 || len > 260 || |input| < 6 + len then Stopped
      else
        var body, rest := input[6..6 + len], input[6 + len..];
        if body[1] != 3 && body[1] != 4 then Ignored(rest)
        else if len < 6 then Stopped
        else
          Reply(ReplyAdu(registers, input[..6], body[0], body[1], Word(body[2], body[3]), Word(body[4], body[5])), rest)
  }

  class ModbusTcpSimulator {
    const registers: seq<ushort>
    const stream: NetworkStream
    /** What has been written to the stream. */
    var written: seq<byte>

    constructor (registers: seq<ushort>, stream: NetworkStream)
      ensures this.registers == registers && this.stream == stream && written == []
    {
      this.registers, this.stream, written := registers, stream, [];
    }

    /** One turn of the receive loop; false when it ends. */
    method HandleNext() returns (more: bool)
      requires stream.Valid()
      modifies this`written, stream
      ensures stream.Valid()
      ensures match Serve(registers, old(stream.Unread()))
              case Reply(adu, rest) => more && written == old(written) + adu && stream.Unread() == rest
              case Ignored(rest) => more && written == old(written) && stream.Unread() == rest
              case Stopped => !more && written == old(written)
    {
      ghost var input := stream.Unread();
      var mbap := stream.ReadExact(6);
      if mbap.None? {
        return false;
      }
      var len := Word(mbap.value[4], mbap.value[5]) as int;
      if len < 2 || len > 260 {
        return false;
      }
      var unitAndPdu := stream.ReadExact(len);
      if unitAndPdu.None? {
        return false;
      }
      var body := unitAndPdu.value;
      assert body == input[6..6 + len] && stream.Unread() == input[6 + len..];
      var unit, fc := body[0], body[1];
      if fc != 3 && fc != 4 {
        return true;
      }
      if len < 6 {
        // Reading the start address indexes past the end, and the connection's task fails.
        return false;
      }
      var resp := BuildReply(mbap.value, unit, fc, Word(body[2], body[3]), Word(body[4], body[5]));
      written := written + resp;
      more := true;
    }

    method BuildReply(mbap: seq<byte>, unit: byte, fc: byte, start: ushort, qty: ushort) returns (adu: seq<byte>)
      requires |mbap| == 6
      ensures adu == ReplyAdu(registers, mbap, unit, fc, start, qty)
    {
      var respPdu := BuildPdu(fc, start, qty);
      var resp := new byte[6 + 1 + respPdu.Length];
      resp[0], resp[1], resp[2], resp[3] := mbap[0], mbap[1], mbap[2], mbap[3];
      var rl := LowWord(1 + respPdu.Length);
      resp[4], resp[5] := HighHalf(rl), LowHalf(rl);
      resp[6] := unit;
      forall i | 0 <= i < respPdu.Length {
        resp[7 + i] := respPdu[i];
      }
      ghost var head := mbap[..4] + [HighHalf(rl), LowHalf(rl), unit];
      assert resp[..7] == head;
      assert resp[7..] == respPdu[..];
      assert resp[..] == resp[..7] + resp[7..];
      adu := resp[..];
      ReplyParts(registers, mbap, unit, fc, start, qty);
    }

    method BuildPdu(fc: byte, start: ushort, qty: ushort) returns (respPdu: array<byte>)
      ensures fresh(respPdu)
      ensures respPdu[..] == ReplyPdu(registers, fc, start, qty)
    {
      var byteCount := qty as int * 2;
      respPdu := new byte[2 + byteCount];
      respPdu[0] := fc;
      respPdu[1] := LowByte(byteCount);
      ghost var w := Window(registers, start as int, qty as int);
      for i := 0 to qty as int
        invariant respPdu[0] == fc && respPdu[1] == LowByte(byteCount)
        invariant respPdu[2..2 + 2 * i] == RegisterBytes(w[..i])
      {
        var v: ushort := if start as int + i < |registers| then registers[start as int + i] else 0;
        assert w[..i + 1][..i] == w[..i];
        assert w[i] == v;
        ghost var done := respPdu[2..2 + 2 * i];
        respPdu[2 + i * 2] := HighHalf(v);
        respPdu[2 + i * 2 + 1] := LowHalf(v);
        assert respPdu[2..2 + 2 * (i + 1)] == done + [HighHalf(v), LowHalf(v)];
      }
      assert w[..qty as int] == w;
      assert respPdu[..] == [respPdu[0], respPdu[1]] + respPdu[2..];
    }
  }
}
