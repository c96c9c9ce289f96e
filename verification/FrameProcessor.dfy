/** src/AtlasGT.Infrastructure/Protocols/FrameProcessor.cs: cutting one frame out of a receive buffer. */
module FrameProcessor {
  import opened Bytes
  import opened Results
  import opened BinaryPrimitives

  /** `Undefined` is an enum value outside the three declared ones. */
  datatype FramingType = FixedLength | Delimiter | LengthPrefix | Undefined

  datatype FramingConfig =
    FramingConfig(framing: FramingType, delimiter: Option<seq<byte>>, lengthOffset: int32, fixedLength: int32)

  const MAX_DECLARED_LENGTH := 10 * 1024 * 1024

  // ---------- the delimiter search ----------

  predicate MatchesAt(data: seq<byte>, delimiter: seq<byte>, i: nat) {
    i + |delimiter| <= |data| && data[i..i + |delimiter|] == delimiter
  }

  /** i is the first place where the delimiter occurs. */
  ghost predicate IsFirstMatch(data: seq<byte>, delimiter: seq<byte>, i: nat) {
    MatchesAt(data, delimiter, i) && forall k :: 0 <= k < i ==> !MatchesAt(data, delimiter, k)
  }

  /** The first match at or after position i, or -1. */
  function FindFrom(data: seq<byte>, delimiter: seq<byte>, i: nat): (r: int)
    ensures r >= i ==> MatchesAt(data, delimiter, r) && forall k :: i <= k < r ==> !MatchesAt(data, delimiter, k)
    ensures r < i ==> r == -1 && forall k :: i <= k ==> !MatchesAt(data, delimiter, k)
    decreases |data| - i
  {
    if i + |delimiter| > |data| then -1
    else if MatchesAt(data, delimiter, i) then i
    else if i >= |data| then -1
    else FindFrom(data, delimiter, i + 1)
  }

  method FindDelimiter(data: seq<byte>, delimiter: seq<byte>) returns (r: int)
    ensures r == FindFrom(data, delimiter, 0)
    ensures r >= 0 ==> IsFirstMatch(data, delimiter, r)
    ensures r < 0 ==> r == -1 && forall k: nat :: !MatchesAt(data, delimiter, k)
  {
    var i := 0;
    while i <= |data| - |delimiter|
      invariant 0 <= i
      invariant forall k :: 0 <= k < i ==> !MatchesAt(data, delimiter, k)
      decreases |data| - i
    {
      var isMatch := true;
      var j := 0;
      while j < |delimiter|
        invariant 0 <= j <= |delimiter|
        invariant isMatch
        invariant data[i..i + j] == delimiter[..j]
      {
        if data[i + j] != delimiter[j] {
          isMatch := false;
          break;
        }
        j := j + 1;
      }
      assert isMatch <==> MatchesAt(data, delimiter, i) by {
        if !isMatch {
          assert data[i..i + |delimiter|][j] == data[i + j];
        }
      }
      if isMatch {
        return i;
      }
      i := i + 1;
    }
    r := -1;
  }

  // ---------- the frame ----------

  /** `AsSpan(start, length)` and `Slice(start, length)`: both bounds are checked. */
  function Span(data: seq<byte>, start: int, length: int): Result<seq<byte>> {
    if 0 <= start <= |data| && 0 <= length <= |data| - start then Ok(data[start..start + length])
    else Err(ArgumentOutOfRange)
  }

  /** `Take(n)`: nothing for n <= 0, everything when n is too large. */
  function Take(data: seq<byte>, n: int): seq<byte> {
    if n <= 0 then [] else if n >= |data| then data else data[..n]
  }

  function Extracted(raw: seq<byte>, config: FramingConfig): Result<seq<byte>> {
    match config.framing
    case FixedLength =>
      if |raw| < config.fixedLength then Err(Framing) else Ok(Take(raw, config.fixedLength))
    case Delimiter =>
      if config.delimiter.None? || config.delimiter.value == [] then Err(Framing)
      else
        var index := FindFrom(raw, config.delimiter.value, 0);
        if index == -1 then Err(Framing) else Ok(Take(raw, index))
    case LengthPrefix =>
      if |raw| < Wrap32(config.lengthOffset + 4) then Err(Framing)
      else
        var prefix :- Span(raw, config.lengthOffset, 4);
        var length := ReadInt32(prefix, Big);
        if length < 0 || length > MAX_DECLARED_LENGTH then Err(Framing)
        else if |raw| < Wrap32(Wrap32(config.lengthOffset + 4) + length) then Err(Framing)
        else Span(raw, Wrap32(config.lengthOffset + 4), length)
    case Undefined => Err(NotSupported)
  }

  method ExtractFrame(raw: seq<byte>, config: Option<FramingConfig>) returns (r: Result<seq<byte>>)
    ensures r == if config.None? then Err(ArgumentNull) else Extracted(raw, config.value)
  {
    if config.None? {
      return Err(ArgumentNull);
    }
    var c := config.value;
    match c.framing {
      case FixedLength =>
        if |raw| < c.fixedLength {
          return Err(Framing);
        }
        return Ok(Take(raw, c.fixedLength));
      case Delimiter =>
        if c.delimiter.None? || |c.delimiter.value| == 0 {
          return Err(Framing);
        }
        var index := FindDelimiter(raw, c.delimiter.value);
        if index == -1 {
          return Err(Framing);
        }
        return Ok(Take(raw, index));
      case LengthPrefix =>
        if |raw| < Wrap32(c.lengthOffset + 4) {
          return Err(Framing);
        }
        var prefix :- Span(raw, c.lengthOffset, 4);
        var length := ReadInt32(prefix, Big);
        if length < 0 || length > MAX_DECLARED_LENGTH {
          return Err(Framing);
        }
        if |raw| < Wrap32(Wrap32(c.lengthOffset + 4) + length) {
          return Err(Framing);
        }
        return Span(raw, Wrap32(c.lengthOffset + 4), length);
      case Undefined =>
        return Err(NotSupported);
    }
  }

  // ---------- what a frame is ----------

  /** The buffer starts with a header of o bytes, the length of the frame in four bytes, and the frame. */
  ghost predicate PiecesOf(raw: seq<byte>, o: int, header: seq<byte>, prefix: seq<byte>, frame: seq<byte>) {
    && |header| == o
    && |prefix| == 4 && ReadInt32(prefix, Big) == |frame|
    && header + prefix + frame <= raw
  }

  /** The layout each framing type describes, said without reference to how it is searched for. */
  ghost predicate IsFramed(raw: seq<byte>, config: FramingConfig, frame: seq<byte>) {
    match config.framing
    case FixedLength =>
      frame <= raw && |frame| == if config.fixedLength < 0 then 0 else config.fixedLength
    case Delimiter =>
      && config.delimiter.Some? && config.delimiter.value != []
      && frame + config.delimiter.value <= raw
      && forall k :: 0 <= k < |frame| ==> !MatchesAt(frame + config.delimiter.value, config.delimiter.value, k)
    case LengthPrefix =>
      && |frame| <= MAX_DECLARED_LENGTH
      && exists header: seq<byte>, prefix: seq<byte> :: PiecesOf(raw, config.lengthOffset, header, prefix, frame)
    case Undefined => false
  }

  lemma MatchInPrefix(raw: seq<byte>, frame: seq<byte>, d: seq<byte>, k: nat)
    requires frame + d <= raw && k <= |frame|
    ensures MatchesAt(raw, d, k) <==> MatchesAt(frame + d, d, k)
  {
    assert raw[k..k + |d|] == (frame + d)[k..k + |d|];
  }

  lemma DelimiterFrame(raw: seq<byte>, config: FramingConfig, frame: seq<byte>)
    requires config.framing.Delimiter?
    ensures Extracted(raw, config) == Ok(frame) <==> IsFramed(raw, config, frame)
  {
    if config.delimiter.Some? && config.delimiter.value != [] {
      var d := config.delimiter.value;
      var i := FindFrom(raw, d, 0);
      if i >= 0 {
        var found := raw[..i];
        assert found + d <= raw by {
          assert raw[..i + |d|] == found + d;
        }
        forall k | 0 <= k < i
          ensures !MatchesAt(found + d, d, k)
        {
          MatchInPrefix(raw, found, d, k);
        }
      }
      if IsFramed(raw, config, frame) {
        MatchInPrefix(raw, frame, d, |frame|);
        assert MatchesAt(frame + d, d, |frame|);
        forall k | 0 <= k < |frame|
          ensures !MatchesAt(raw, d, k)
        {
          MatchInPrefix(raw, frame, d, k);
        }
        assert i == |frame|;
        assert frame == raw[..i];
      }
    }
  }

  lemma SliceMiddle(raw: seq<byte>, a: seq<byte>, b: seq<byte>, c: seq<byte>)
    requires a + b + c <= raw
    ensures |a| + |b| + |c| <= |raw|
    ensures raw[|a|..|a| + |b|] == b && raw[|a| + |b|..|a| + |b| + |c|] == c
  {
    var whole := a + b + c;
    assert raw[..|whole|] == whole;
    assert raw[|a|..|a| + |b|] == whole[|a|..|a| + |b|] == b;
    assert raw[|a| + |b|..|whole|] == whole[|a| + |b|..] == c;
  }

  /** The length-prefixed layout by position: length word at the offset, payload behind it. */
  ghost predicate PrefixedAt(raw: seq<byte>, o: nat, frame: seq<byte>) {
    && |frame| <= MAX_DECLARED_LENGTH
    && o + 4 + |frame| <= |raw|
    && ReadInt32(raw[o..o + 4], Big) == |frame|
    && raw[o + 4..o + 4 + |frame|] == frame
  }

  lemma PrefixedExtraction(raw: seq<byte>, config: FramingConfig, frame: seq<byte>)
    requires config.framing.LengthPrefix? && |raw| <= MAX_INT32
    ensures Extracted(raw, config) == Ok(frame)
        <==> config.lengthOffset >= 0 && PrefixedAt(raw, config.lengthOffset, frame)
  {
  }

  lemma PrefixedFrame(raw: seq<byte>, config: FramingConfig, frame: seq<byte>)
    requires config.framing.LengthPrefix? && |raw| <= MAX_INT32
    ensures Extracted(raw, config) == Ok(frame) <==> IsFramed(raw, config, frame)
  {
    PrefixedExtraction(raw, config, frame);
    var o := config.lengthOffset;
    if o >= 0 && PrefixedAt(raw, o, frame) {
      PiecesAt(raw, o, frame);
    }
    if IsFramed(raw, config, frame) {
      var header: seq<byte>, prefix: seq<byte> :| PiecesOf(raw, o, header, prefix, frame);
      SliceMiddle(raw, header, prefix, frame);
    }
  }

  lemma PiecesAt(raw: seq<byte>, o: nat, frame: seq<byte>)
    requires PrefixedAt(raw, o, frame)
    ensures PiecesOf(raw, o, raw[..o], raw[o..o + 4], frame)
  {
    assert raw[..o] + raw[o..o + 4] + frame == raw[..o + 4 + |frame|];
  }

  lemma FixedFrame(raw: seq<byte>, config: FramingConfig, frame: seq<byte>)
    requires config.framing.FixedLength?
    ensures Extracted(raw, config) == Ok(frame) <==> IsFramed(raw, config, frame)
  {
    if Extracted(raw, config) == Ok(frame) || frame <= raw {
      assert frame == raw[..|frame|] && raw[..|raw|] == raw;
    }
  }

  /** A frame is extracted exactly when the buffer starts with that frame in the configured layout. */
  lemma ExtractedIffFramed(raw: seq<byte>, config: FramingConfig, frame: seq<byte>)
    requires |raw| <= MAX_INT32
    ensures Extracted(raw, config) == Ok(frame) <==> IsFramed(raw, config, frame)
  {
    match config.framing
    case FixedLength => FixedFrame(raw, config, frame);
    case Delimiter => DelimiterFrame(raw, config, frame);
    case LengthPrefix => PrefixedFrame(raw, config, frame);
    case Undefined =>
  }

  /** The four length bytes of a length-prefixed buffer lie outside it, or their end is beyond Int32. */
  predicate PrefixOutside(raw: seq<byte>, o: int) {
    (o < 0 && o + 4 <= |raw|) || o + 4 > MAX_INT32
  }

  /** The frame a length-prefixed buffer announces ends beyond Int32. */
  predicate EndsBeyondInt32(raw: seq<byte>, o: int) {
    0 <= o <= |raw| - 4 && 0 <= ReadInt32(raw[o..o + 4], Big) <= MAX_DECLARED_LENGTH
    && o + 4 + ReadInt32(raw[o..o + 4], Big) > MAX_INT32
  }

  /**
   How an extraction fails: an undeclared framing type is not supported; a length prefix outside the buffer, or a
   sum that wraps, is an index out of range; everything else that is not a frame is a framing error.
   */
  lemma ExtractionFails(raw: seq<byte>, config: FramingConfig)
    requires |raw| <= MAX_INT32 && forall frame :: !IsFramed(raw, config, frame)
    ensures Extracted(raw, config)
         == Err(if config.framing.Undefined? then NotSupported
                else if config.framing.LengthPrefix?
                     && (PrefixOutside(raw, config.lengthOffset) || EndsBeyondInt32(raw, config.lengthOffset))
                then ArgumentOutOfRange
                else Error.Framing)
  {
    if Extracted(raw, config).Ok? {
      ExtractedIffFramed(raw, config, Extracted(raw, config).value);
      assert false;
    }
  }

  lemma PrefixStays(x: seq<byte>, raw: seq<byte>, later: seq<byte>)
    requires x <= raw
    ensures x <= raw + later
  {
    assert (raw + later)[..|x|] == raw[..|x|];
  }

  lemma FramedStaysFramed(raw: seq<byte>, later: seq<byte>, config: FramingConfig, frame: seq<byte>)
    requires IsFramed(raw, config, frame)
    ensures IsFramed(raw + later, config, frame)
  {
    match config.framing
    case FixedLength => PrefixStays(frame, raw, later);
    case Delimiter => PrefixStays(frame + config.delimiter.value, raw, later);
    case LengthPrefix =>
      var header: seq<byte>, prefix: seq<byte> :| PiecesOf(raw, config.lengthOffset, header, prefix, frame);
      PrefixStays(header + prefix + frame, raw, later);
      assert PiecesOf(raw + later, config.lengthOffset, header, prefix, frame);
  }

  /** Bytes that arrive after a frame is complete do not change it. */
  lemma LaterBytesDoNotMatter(raw: seq<byte>, later: seq<byte>, config: FramingConfig)
    requires |raw + later| <= MAX_INT32
    requires Extracted(raw, config).Ok?
    ensures Extracted(raw + later, config) == Extracted(raw, config)
  {
    var frame := Extracted(raw, config).value;
    ExtractedIffFramed(raw, config, frame);
    FramedStaysFramed(raw, later, config, frame);
    ExtractedIffFramed(raw + later, config, frame);
  }

  /** A payload sent with its delimiter comes back exactly when the delimiter does not occur any earlier. */
  lemma DelimitedRoundTrip(payload: seq<byte>, tail: seq<byte>, config: FramingConfig)
    requires config.framing.Delimiter? && config.delimiter.Some? && config.delimiter.value != []
    ensures var d := config.delimiter.value;
            Extracted(payload + d + tail, config) == Ok(payload) <==> IsFirstMatch(payload + d, d, |payload|)
  {
    var d := config.delimiter.value;
    DelimiterFrame(payload + d + tail, config, payload);
    assert MatchesAt(payload + d, d, |payload|);
    assert payload + d <= payload + d + tail;
  }

  lemma PrefixedRoundTrip(header: seq<byte>, slot: seq<byte>, payload: seq<byte>, tail: seq<byte>,
                          config: FramingConfig)
    requires config.framing.LengthPrefix? && config.lengthOffset == |header|
    requires |slot| == 4 && |payload| <= MAX_DECLARED_LENGTH
    requires |header| + 4 + |payload| + |tail| <= MAX_INT32
    ensures Extracted(header + WriteInt32(|payload|, slot, Big) + payload + tail, config) == Ok(payload)
  {
    var prefix := WriteInt32(|payload|, slot, Big);
    ReadWriteInt32(|payload|, slot, Big);
    var raw := header + prefix + payload + tail;
    assert PiecesOf(raw, |header|, header, prefix, payload);
    PrefixedFrame(raw, config, payload);
  }

  lemma FixedRoundTrip(payload: seq<byte>, tail: seq<byte>, config: FramingConfig)
    requires config.framing.FixedLength? && config.fixedLength == |payload|
    ensures Extracted(payload + tail, config) == Ok(payload)
  {
    FixedFrame(payload + tail, config, payload);
  }
}
