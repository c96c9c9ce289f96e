/** src/AtlasGT.Infrastructure/Protocols/IntegrityChecker.cs: the 8-bit sum, and the choice of algorithm. */
module IntegrityChecker {
  import opened Bytes
  import opened Results
  import Crc16

  datatype ValidationConfig = ValidationConfig(enableChecksum: bool, checksumAlgorithm: string)

  function Total(data: seq<byte>): nat {
    if data == [] then 0 else Total(data[..|data| - 1]) + data[|data| - 1] as int
  }

  /** The last byte is the sum of the others modulo 256. */
  predicate SumAccepts(frame: seq<byte>) {
    |frame| >= 1 && Total(frame[..|frame| - 1]) % 256 == frame[|frame| - 1] as int
  }

  method ValidateChecksum8(data: seq<byte>) returns (ok: bool)
    ensures ok <==> SumAccepts(data)
  {
    if |data| < 1 {
      return false;
    }
    var sum: byte := 0;
    for i := 0 to |data| - 1
      invariant sum as int == Total(data[..i]) % 256
    {
      assert data[..i + 1][..i] == data[..i];
      sum := ((sum as int + data[i] as int) % 256) as byte;
    }
    ok := sum == data[|data| - 1];
  }

  /** The verdict on a frame: a failure is the exception thrown. */
  function Verdict(data: seq<byte>, config: Option<ValidationConfig>): Result<()> {
    if config.None? || !config.value.enableChecksum then Ok(())
    else
      var algorithm := config.value.checksumAlgorithm;
      if algorithm == "None" then Ok(())
      else if algorithm == "Checksum8" then if SumAccepts(data) then Ok(()) else Err(Integrity)
      else if algorithm == "CRC16" then if Crc16.Accepts(data) then Ok(()) else Err(Integrity)
      else Err(NotSupported)
  }

  method Validate(data: seq<byte>, config: Option<ValidationConfig>) returns (r: Result<()>)
    ensures r == Verdict(data, config)
  {
    if config.None? || !config.value.enableChecksum {
      return Ok(());
    }
    if config.value.checksumAlgorithm == "None" {
      return Ok(());
    }
    if config.value.checksumAlgorithm == "Checksum8" {
      var ok := ValidateChecksum8(data);
      r := if ok then Ok(()) else Err(Integrity);
    } else if config.value.checksumAlgorithm == "CRC16" {
      var ok := Crc16.ValidateCRC16(data);
      r := if ok then Ok(()) else Err(Integrity);
    } else {
      r := Err(NotSupported);
    }
  }

  // ---------- what the sum detects ----------

  lemma {:induction false} TotalOfOneChange(f: seq<byte>, g: seq<byte>, i: nat)
    requires |f| == |g| && i < |f|
    requires forall k :: 0 <= k < |f| && k != i ==> f[k] == g[k]
    ensures Total(g) - Total(f) == g[i] as int - f[i] as int
  {
    var n := |f| - 1;
    if i == n {
      assert f[..n] == g[..n];
    } else {
      TotalOfOneChange(f[..n], g[..n], i);
    }
  }

  /** Changing exactly one byte of an accepted frame, the sum itself included, is always rejected. */
  lemma SingleByteErrorRejected(f: seq<byte>, g: seq<byte>, i: nat)
    requires SumAccepts(f) && |g| == |f| && i < |f|
    requires f[i] != g[i] && forall k :: 0 <= k < |f| && k != i ==> f[k] == g[k]
    ensures !SumAccepts(g)
  {
    var n := |f| - 1;
    if i == n {
      assert f[..n] == g[..n];
    } else {
      TotalOfOneChange(f[..n], g[..n], i);
      ModDifference(Total(f[..n]), Total(g[..n]));
    }
  }

  lemma ModDifference(a: int, b: int)
    requires -256 < b - a < 256 && a != b
    ensures a % 256 != b % 256
  {
  }

  /** Appending the sum of a message makes a frame the check accepts, and no other byte does. */
  lemma OnlyTheSumIsAccepted(data: seq<byte>, last: byte)
    ensures SumAccepts(data + [last]) <==> last as int == Total(data) % 256
  {
    assert (data + [last])[..|data|] == data;
  }
}
