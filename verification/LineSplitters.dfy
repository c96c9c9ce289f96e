/**
 The byte loops that split a stream into lines in src/AtlasGT.Connectors.Network/TcpConnector.cs and
 src/AtlasGT.Connectors.Serial/SerialConnector.cs.
 */
module LineSplitters {
  import opened Bytes

  const LF: byte := 10
  const CR: byte := 13
  const QUESTION_MARK: byte := 63

  /** The byte does not occur. */
  predicate Free(s: seq<byte>, b: byte) {
    forall k :: 0 <= k < |s| ==> s[k] != b
  }

  // ---------- what the lines of a stream are ----------

  /** The stretches that end in a line feed, without it. */
  function Terminated(s: seq<byte>): seq<seq<byte>> {
    if s == [] then []
    else
      var n := |s| - 1;
      if s[n] == LF then Terminated(s[..n]) + [Tail(s[..n])] else Terminated(s[..n])
  }

  /** What follows the last line feed. */
  function Tail(s: seq<byte>): seq<byte> {
    if s == [] then []
    else
      var n := |s| - 1;
      if s[n] == LF then [] else Tail(s[..n]) + [s[n]]
  }

  function StripCr(s: seq<byte>): seq<byte> {
    if s == [] then []
    else StripCr(s[..|s| - 1]) + if s[|s| - 1] == CR then [] else [s[|s| - 1]]
  }

  /** The stripped segments that are not empty. */
  function Lines(segments: seq<seq<byte>>): seq<seq<byte>> {
    if segments == [] then []
    else
      var n := |segments| - 1;
      var line := StripCr(segments[n]);
      Lines(segments[..n]) + if line == [] then [] else [line]
  }

  /** The lines a stream yields. */
  function LinesOf(s: seq<byte>): seq<seq<byte>> {
    Lines(Terminated(s))
  }

  lemma OneMoreByte(s: seq<byte>, b: byte)
    ensures Tail(s + [b]) == if b == LF then [] else Tail(s) + [b]
    ensures Terminated(s + [b]) == if b == LF then Terminated(s) + [Tail(s)] else Terminated(s)
  {
    assert (s + [b])[..|s|] == s;
  }

  lemma NextByte(stream: seq<byte>, i: nat)
    requires i < |stream|
    ensures stream[..i + 1] == stream[..i] + [stream[i]]
  {
  }

  // ---------- the two loops ----------

  /** The TCP loop, over all bytes up to the end of the stream. */
  method TcpReadAll(stream: seq<byte>) returns (payloads: seq<seq<byte>>, held: seq<byte>)
    ensures payloads == LinesOf(stream)
    ensures held == StripCr(Tail(stream))
  {
    payloads := [];
    var lineBuffer: seq<byte> := [];
    for i := 0 to |stream|
      invariant payloads == LinesOf(stream[..i])
      invariant lineBuffer == StripCr(Tail(stream[..i]))
    {
      var b := stream[i];
      NextByte(stream, i);
      OneMoreByte(stream[..i], b);
      if b == LF {
        LinesAppend(Terminated(stream[..i]), Tail(stream[..i]));
        if |lineBuffer| != 0 {
          payloads := payloads + [lineBuffer];
          lineBuffer := [];
        }
      } else {
        StripAppend(Tail(stream[..i]), b);
        if b != CR {
          lineBuffer := lineBuffer + [b];
        }
      }
    }
    assert stream[..|stream|] == stream;
    held := lineBuffer;
  }

  /** `Encoding.ASCII.GetBytes`: a character outside ASCII becomes a question mark. */
  function AsciiBytes(chars: seq<char>): (b: seq<byte>)
    ensures |b| == |chars|
  {
    seq(|chars|, k requires 0 <= k < |chars| =>
      if chars[k] as int < 128 then chars[k] as int as byte else QUESTION_MARK)
  }

  function AsChar(b: byte): char {
    b as int as char
  }

  function AsChars(s: seq<byte>): (chars: seq<char>)
    ensures |chars| == |s|
  {
    seq(|s|, k requires 0 <= k < |s| => AsChar(s[k]))
  }

  function Masked(s: seq<byte>): (m: seq<byte>)
    ensures |m| == |s|
  {
    seq(|s|, k requires 0 <= k < |s| => if s[k] < 128 then s[k] else QUESTION_MARK)
  }

  function MaskedAll(lines: seq<seq<byte>>): (m: seq<seq<byte>>)
    ensures |m| == |lines|
  {
    seq(|lines|, k requires 0 <= k < |lines| => Masked(lines[k]))
  }

  /** The bytes agree, but for a question mark in the place of each byte outside ASCII. */
  predicate SameInAscii(payload: seq<byte>, line: seq<byte>) {
    && |payload| == |line|
    && forall k :: 0 <= k < |line| ==> payload[k] as int == if line[k] <= 0x7F then line[k] as int else '?' as int
  }

  /** The serial loop: bytes become characters, and a finished line goes back to bytes through ASCII. */
  method SerialReadAll(stream: seq<byte>) returns (payloads: seq<seq<byte>>)
    ensures payloads == MaskedAll(LinesOf(stream))
    ensures |payloads| == |LinesOf(stream)|
    ensures forall i :: 0 <= i < |payloads| ==> SameInAscii(payloads[i], LinesOf(stream)[i])
  {
    payloads := [];
    var sb: seq<char> := [];
    for i := 0 to |stream|
      invariant payloads == MaskedAll(LinesOf(stream[..i]))
      invariant sb == AsChars(StripCr(Tail(stream[..i])))
    {
      var b := stream[i];
      NextByte(stream, i);
      OneMoreByte(stream[..i], b);
      if b == LF {
        SerialLine(stream[..i]);
        if |sb| != 0 {
          payloads := payloads + [AsciiBytes(sb)];
          sb := [];
        }
      } else {
        StripAppend(Tail(stream[..i]), b);
        if b != CR {
          CharsAppend(StripCr(Tail(stream[..i])), b);
          sb := sb + [AsChar(b)];
        }
      }
    }
    assert stream[..|stream|] == stream;
  }

  /** What the serial loop emits at a line feed. */
  lemma SerialLine(s: seq<byte>)
    ensures var line := StripCr(Tail(s));
      MaskedAll(LinesOf(s + [LF]))
      == MaskedAll(LinesOf(s)) + if line == [] then [] else [AsciiBytes(AsChars(line))]
  {
    var line := StripCr(Tail(s));
    OneMoreByte(s, LF);
    LinesAppend(Terminated(s), Tail(s));
    AsciiOfChars(line);
    MaskedAppend(LinesOf(s), line);
    assert LinesOf(s) + [] == LinesOf(s);
  }

  lemma LinesAppend(segments: seq<seq<byte>>, segment: seq<byte>)
    ensures Lines(segments + [segment]) == Lines(segments) + if StripCr(segment) == [] then [] else [StripCr(segment)]
  {
    assert (segments + [segment])[..|segments|] == segments;
  }

  lemma StripAppend(s: seq<byte>, b: byte)
    ensures StripCr(s + [b]) == StripCr(s) + if b == CR then [] else [b]
  {
    assert (s + [b])[..|s|] == s;
  }

  lemma AsciiOfChars(s: seq<byte>)
    ensures AsciiBytes(AsChars(s)) == Masked(s)
  {
    forall k | 0 <= k < |s|
      ensures AsciiBytes(AsChars(s))[k] == Masked(s)[k]
    {
      assert AsChars(s)[k] as int == s[k] as int;
    }
  }

  lemma CharsAppend(s: seq<byte>, b: byte)
    ensures AsChars(s + [b]) == AsChars(s) + [AsChar(b)]
  {
  }

  lemma MaskedAppend(lines: seq<seq<byte>>, line: seq<byte>)
    ensures MaskedAll(lines + [line]) == MaskedAll(lines) + [Masked(line)]
  {
  }

  // ---------- the definitions are the right ones ----------

  /** The segments with their line feeds put back. */
  function Rejoined(segments: seq<seq<byte>>): seq<byte> {
    if segments == [] then [] else Rejoined(segments[..|segments| - 1]) + segments[|segments| - 1] + [LF]
  }

  ghost predicate NoLineFeeds(segments: seq<seq<byte>>) {
    forall k :: 0 <= k < |segments| ==> Free(segments[k], LF)
  }

  /** Segments and tail are the stream cut at every line feed. */
  lemma {:induction false} CutAtLineFeeds(s: seq<byte>)
    ensures Rejoined(Terminated(s)) + Tail(s) == s
    ensures NoLineFeeds(Terminated(s)) && Free(Tail(s), LF)
  {
    if s != [] {
      var n := |s| - 1;
      CutAtLineFeeds(s[..n]);
      assert s == s[..n] + [s[n]];
      if s[n] == LF {
        var segments := Terminated(s[..n]);
        assert (segments + [Tail(s[..n])])[..|segments|] == segments;
      }
    }
  }

  lemma {:induction false} TailAppend(s: seq<byte>, t: seq<byte>)
    requires Free(t, LF)
    ensures Tail(s + t) == Tail(s) + t && Terminated(s + t) == Terminated(s)
  {
    if t == [] {
      assert s + t == s;
    } else {
      var n := |t| - 1;
      TailAppend(s, t[..n]);
      OneMoreByte(s + t[..n], t[n]);
      assert s + t == s + t[..n] + [t[n]];
      assert t == t[..n] + [t[n]];
    }
  }

  /** There is only one such cut. */
  lemma {:induction false} CutUnique(segments: seq<seq<byte>>, tail: seq<byte>)
    requires NoLineFeeds(segments) && Free(tail, LF)
    ensures Terminated(Rejoined(segments) + tail) == segments && Tail(Rejoined(segments) + tail) == tail
  {
    TailAppend(Rejoined(segments), tail);
    if segments != [] {
      var n := |segments| - 1;
      CutUnique(segments[..n], segments[n]);
      OneMoreByte(Rejoined(segments[..n]) + segments[n], LF);
      assert segments == segments[..n] + [segments[n]];
    }
  }

  lemma {:induction false} StrippedIsClean(s: seq<byte>)
    requires Free(s, LF)
    ensures Free(StripCr(s), LF) && Free(StripCr(s), CR)
  {
    if s != [] {
      StrippedIsClean(s[..|s| - 1]);
    }
  }

  lemma {:induction false} LinesClean(segments: seq<seq<byte>>)
    requires NoLineFeeds(segments)
    ensures forall line :: line in Lines(segments) ==> line != [] && Free(line, LF) && Free(line, CR)
    ensures forall segment :: segment in segments && StripCr(segment) != [] ==> StripCr(segment) in Lines(segments)
  {
    if segments != [] {
      var n := |segments| - 1;
      assert segments == segments[..n] + [segments[n]];
      LinesClean(segments[..n]);
      StrippedIsClean(segments[n]);
    }
  }

  /** No emitted line is empty or holds a CR or LF, and every terminated stretch that is not empty then is emitted. */
  lemma EmittedLines(stream: seq<byte>)
    ensures forall line :: line in LinesOf(stream) ==> line != [] && Free(line, LF) && Free(line, CR)
    ensures forall segment :: segment in Terminated(stream) && StripCr(segment) != [] ==>
              StripCr(segment) in LinesOf(stream)
  {
    CutAtLineFeeds(stream);
    LinesClean(Terminated(stream));
  }

  // ---------- sent lines are recovered ----------

  /** Lines as a device sends them, each with LF or CRLF after it. */
  function Sent(lines: seq<seq<byte>>, crlf: seq<bool>): seq<byte>
    requires |lines| == |crlf|
  {
    if lines == [] then []
    else
      var n := |lines| - 1;
      Sent(lines[..n], crlf[..n]) + lines[n] + (if crlf[n] then [CR, LF] else [LF])
  }

  lemma {:induction false} NothingToStrip(s: seq<byte>)
    requires Free(s, CR)
    ensures StripCr(s) == s
  {
    if s != [] {
      NothingToStrip(s[..|s| - 1]);
      assert s == s[..|s| - 1] + [s[|s| - 1]];
    }
  }

  lemma OneMoreLine(before: seq<byte>, segment: seq<byte>)
    requires Tail(before) == [] && Free(segment, LF) && StripCr(segment) != []
    ensures LinesOf(before + segment + [LF]) == LinesOf(before) + [StripCr(segment)]
    ensures Tail(before + segment + [LF]) == []
  {
    TailAppend(before, segment);
    assert [] + segment == segment;
    OneMoreByte(before + segment, LF);
    LinesAppend(Terminated(before), segment);
  }

  lemma StripSent(line: seq<byte>, crlf: bool)
    requires line != [] && Free(line, CR)
    ensures StripCr(SentSegment(line, crlf)) == line
  {
    NothingToStrip(line);
    StripAppend(line, CR);
  }

  function SentSegment(line: seq<byte>, crlf: bool): seq<byte> {
    if crlf then line + [CR] else line
  }

  lemma SentStep(lines: seq<seq<byte>>, crlf: seq<bool>, n: nat)
    requires |lines| == |crlf| == n + 1
    ensures Sent(lines, crlf) == Sent(lines[..n], crlf[..n]) + SentSegment(lines[n], crlf[n]) + [LF]
  {
  }

  /** Nonempty lines free of CR and LF come back as they were, and nothing is held back. */
  lemma {:induction false} SentLinesRecovered(lines: seq<seq<byte>>, crlf: seq<bool>)
    requires |lines| == |crlf|
    requires forall k :: 0 <= k < |lines| ==> lines[k] != [] && Free(lines[k], LF) && Free(lines[k], CR)
    ensures LinesOf(Sent(lines, crlf)) == lines && Tail(Sent(lines, crlf)) == []
  {
    if lines != [] {
      var n := |lines| - 1;
      SentLinesRecovered(lines[..n], crlf[..n]);
      StripSent(lines[n], crlf[n]);
      OneMoreLine(Sent(lines[..n], crlf[..n]), SentSegment(lines[n], crlf[n]));
      SentStep(lines, crlf, n);
      assert lines == lines[..n] + [lines[n]];
    }
  }
}
