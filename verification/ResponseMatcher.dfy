/** src/AtlasGT.Infrastructure/Protocols/ResponseMatcher.cs: is this the reply to that operation? */
module ResponseMatcher {
  import opened Bytes
  import opened Results

  /** The exact reply, if there is one to compare with, and the required prefix, if there is one. */
  predicate Matches(data: seq<byte>, expectedPrefix: Option<seq<byte>>, exactMatch: Option<seq<byte>>) {
    && (exactMatch.Some? && exactMatch.value != [] ==> data == exactMatch.value)
    && (expectedPrefix.Some? ==> expectedPrefix.value <= data)
  }

  method Match(data: seq<byte>, expectedPrefix: Option<seq<byte>>, exactMatch: Option<seq<byte>>)
      returns (r: Result<()>)
    ensures r == if Matches(data, expectedPrefix, exactMatch) then Ok(()) else Err(ResponseMismatch)
  {
    if exactMatch.Some? && |exactMatch.value| > 0 {
      if data != exactMatch.value {
        return Err(ResponseMismatch);
      }
    }
    if expectedPrefix.Some? && |expectedPrefix.value| > 0 {
      var prefix := expectedPrefix.value;
      if |data| < |prefix| {
        return Err(ResponseMismatch);
      }
      for i := 0 to |prefix|
        invariant prefix[..i] == data[..i]
      {
        if data[i] != prefix[i] {
          return Err(ResponseMismatch);
        }
      }
    }
    r := Ok(());
  }
}
