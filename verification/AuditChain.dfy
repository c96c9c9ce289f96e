/**
 src/AtlasGT.Infrastructure/SignedFileAuditLog.cs and the hash fields of SignedAuditEntry.cs:
 appending to and verifying a hash-chained log. SHA-256 is a parameter; nothing is assumed of it but
 the shape of its output, so tamper evidence reads "or here are two texts that collide".
 */
module AuditChain {
  import opened Results
  import opened CanonicalForm
  import opened HashChain
  import opened Ordinal

  // ---------- entries and lines ----------

  datatype Entry = Entry(content: Content, prevHash: string, entryHash: string)

  function Form(e: Entry): string {
    Canonical(e.content, e.prevHash)
  }

  predicate SelfOk(lib: Library, e: Entry) {
    Complete(e.content) && SameIgnoringCase(lib.upper, lib.sha256(Form(e)), e.entryHash)
  }

  /** A non-blank line of the file: an entry, or text that does not deserialize. */
  datatype LogLine = Record(entry: Entry) | NotJson | JsonNull

  class SignedAuditEntry {
    const content: Content
    var prevHash: string
    var entryHash: string

    constructor (content: Content)
      ensures this.content == content && prevHash == "GENESIS" && entryHash == ""
    {
      this.content, prevHash, entryHash := content, "GENESIS", "";
    }

    function Snapshot(): Entry
      reads this
    {
      Entry(content, prevHash, entryHash)
    }

    /** Fails on a null actor or action, with the hash as it was. */
    method ComputeAndSetHash(lib: Library) returns (r: Result<()>)
      modifies this`entryHash
      ensures Complete(content) ==> r == Ok(()) && entryHash == lib.sha256(Canonical(content, prevHash))
      ensures !Complete(content) ==> r == Err(NullReference) && entryHash == old(entryHash)
    {
      var form :- BuildCanonicalForm(content, prevHash);
      entryHash := lib.sha256(form);
      r := Ok(());
    }

    method VerifySelf(lib: Library) returns (r: Result<bool>)
      ensures r == if Complete(content) then Ok(SelfOk(lib, Snapshot())) else Err(NullReference)
    {
      var form :- BuildCanonicalForm(content, prevHash);
      var expected := lib.sha256(form);
      r := Ok(SameIgnoringCase(lib.upper, expected, entryHash));
    }
  }

  // ---------- verification as a function ----------

  datatype TamperReason = InvalidJson | NullEntry | WrongPrevHash | WrongEntryHash

  /** A report, or the exception that hashing the entry in this line throws. */
  datatype Verification =
    | Report(valid: bool, totalEntries: nat, firstTampered: Option<string>, reason: Option<(nat, TamperReason)>,
             lastHash: Option<string>)
    | Threw(line: nat)
  {
    predicate Accepts() {
      Report? && valid
    }
  }

  /** The rest of a verification that has read `total` good entries, the last with hash `expectedPrev`. */
  function VerifyFrom(lib: Library, lines: seq<LogLine>, total: nat, expectedPrev: string,
                      lastHash: Option<string>): Verification
    requires total <= |lines|
    decreases |lines| - total
  {
    if total == |lines| then Report(true, total, None, None, lastHash)
    else
      match lines[total]
      case NotJson => Report(false, total, None, Some((total + 1, InvalidJson)), lastHash)
      case JsonNull => Report(false, total, None, Some((total + 1, NullEntry)), lastHash)
      case Record(e) =>
        if !SameIgnoringCase(lib.upper, e.prevHash, expectedPrev) then
          Report(false, total + 1, Some(e.content.id), Some((total + 1, WrongPrevHash)), lastHash)
        else if !Complete(e.content) then Threw(total + 1)
        else if !SelfOk(lib, e) then
          Report(false, total + 1, Some(e.content.id), Some((total + 1, WrongEntryHash)), lastHash)
        else VerifyFrom(lib, lines, total + 1, e.entryHash, Some(e.entryHash))
  }

  function Verified(lib: Library, lines: seq<LogLine>): Verification {
    VerifyFrom(lib, lines, 0, "GENESIS", None)
  }

  // ---------- what verification accepts, line by line ----------

  /** The hash line i must link to. */
  function LinkTarget(lines: seq<LogLine>, i: nat): string
    requires i <= |lines|
  {
    if i > 0 && lines[i - 1].Record? then lines[i - 1].entry.entryHash else "GENESIS"
  }

  predicate GoodLine(lib: Library, lines: seq<LogLine>, i: nat)
    requires i < |lines|
  {
    && lines[i].Record?
    && (i > 0 ==> lines[i - 1].Record?)
    && SameIgnoringCase(lib.upper, lines[i].entry.prevHash, LinkTarget(lines, i))
    && SelfOk(lib, lines[i].entry)
  }

  /** Every line is an entry, links to the one before it, and has the hash of its own form. */
  ghost predicate Chained(lib: Library, lines: seq<LogLine>) {
    forall i :: 0 <= i < |lines| ==> GoodLine(lib, lines, i)
  }

  /** The hash of the last line, if that is an entry. */
  function LastHash(lines: seq<LogLine>): Option<string> {
    if lines != [] && lines[|lines| - 1].Record? then Some(lines[|lines| - 1].entry.entryHash) else None
  }

  /** How a verification ends at its first bad line, by what is wrong with that line. */
  function Stopped(lib: Library, lines: seq<LogLine>, k: nat): Verification
    requires k < |lines|
  {
    var lastHash := LastHash(lines[..k]);
    match lines[k]
    case NotJson => Report(false, k, None, Some((k + 1, InvalidJson)), lastHash)
    case JsonNull => Report(false, k, None, Some((k + 1, NullEntry)), lastHash)
    case Record(e) =>
      var id := Some(e.content.id);
      if !SameIgnoringCase(lib.upper, e.prevHash, LinkTarget(lines, k)) then
        Report(false, k + 1, id, Some((k + 1, WrongPrevHash)), lastHash)
      else if Complete(e.content) then Report(false, k + 1, id, Some((k + 1, WrongEntryHash)), lastHash)
      else Threw(k + 1)
  }

  lemma VerifyGoodLine(lib: Library, lines: seq<LogLine>, n: nat)
    requires n < |lines| && GoodLine(lib, lines, n)
    ensures VerifyFrom(lib, lines, n, LinkTarget(lines, n), LastHash(lines[..n]))
         == VerifyFrom(lib, lines, n + 1, LinkTarget(lines, n + 1), LastHash(lines[..n + 1]))
  {
    assert LastHash(lines[..n + 1]) == Some(lines[n].entry.entryHash);
  }

  lemma VerifyBadLine(lib: Library, lines: seq<LogLine>, n: nat)
    requires n < |lines| && !GoodLine(lib, lines, n) && (n > 0 ==> lines[n - 1].Record?)
    ensures VerifyFrom(lib, lines, n, LinkTarget(lines, n), LastHash(lines[..n])) == Stopped(lib, lines, n)
    ensures !Stopped(lib, lines, n).Accepts()
  {
  }

  /** Good lines are passed one by one. */
  lemma {:induction false} VerifyGoodLines(lib: Library, lines: seq<LogLine>, n: nat)
    requires n <= |lines| && forall i :: 0 <= i < n ==> GoodLine(lib, lines, i)
    ensures Verified(lib, lines) == VerifyFrom(lib, lines, n, LinkTarget(lines, n), LastHash(lines[..n]))
  {
    if n == 0 {
      assert lines[..0] == [];
    } else {
      VerifyGoodLines(lib, lines, n - 1);
      VerifyGoodLine(lib, lines, n - 1);
    }
  }

  /** Line k is the first one that breaks the chain. */
  ghost predicate FirstBad(lib: Library, lines: seq<LogLine>, k: nat) {
    k < |lines| && !GoodLine(lib, lines, k) && forall i :: 0 <= i < k ==> GoodLine(lib, lines, i)
  }

  lemma {:induction false} FindFirstBad(lib: Library, lines: seq<LogLine>, n: nat) returns (k: nat)
    requires !Chained(lib, lines)
    requires n <= |lines| && forall i :: 0 <= i < n ==> GoodLine(lib, lines, i)
    ensures FirstBad(lib, lines, k)
    decreases |lines| - n
  {
    if GoodLine(lib, lines, n) {
      k := FindFirstBad(lib, lines, n + 1);
    } else {
      k := n;
    }
  }

  /** Verification accepts exactly the chained logs, reports their last hash, and else names the first bad line. */
  lemma VerifyExact(lib: Library, lines: seq<LogLine>)
    ensures Verified(lib, lines).Accepts() <==> Chained(lib, lines)
    ensures Chained(lib, lines) ==> Verified(lib, lines) == Report(true, |lines|, None, None, LastHash(lines))
    ensures !Chained(lib, lines) ==>
              exists k :: 0 <= k < |lines| && FirstBad(lib, lines, k) && Verified(lib, lines) == Stopped(lib, lines, k)
  {
    if Chained(lib, lines) {
      VerifyGoodLines(lib, lines, |lines|);
      assert lines[..|lines|] == lines;
    } else {
      var k := FindFirstBad(lib, lines, 0);
      VerifyGoodLines(lib, lines, k);
      assert k > 0 ==> GoodLine(lib, lines, k - 1);
      VerifyBadLine(lib, lines, k);
    }
  }

  /** What the line before this one leaves to link to. */
  predicate Links(lib: Library, lines: seq<LogLine>, k: nat)
    requires k < |lines| && lines[k].Record?
  {
    if k == 0 then SameIgnoringCase(lib.upper, lines[k].entry.prevHash, "GENESIS")
    else lines[k - 1].Record? && SameIgnoringCase(lib.upper, lines[k].entry.prevHash, lines[k - 1].entry.entryHash)
  }

  /** The reason is what is wrong with the line. */
  predicate Explains(lib: Library, lines: seq<LogLine>, k: nat, reason: TamperReason)
    requires k < |lines|
  {
    match lines[k]
    case NotJson => reason == InvalidJson
    case JsonNull => reason == NullEntry
    case Record(e) =>
      if Links(lib, lines, k)
      then && reason == WrongEntryHash && Complete(e.content)
           && !SameIgnoringCase(lib.upper, lib.sha256(Canonical(e.content, e.prevHash)), e.entryHash)
      else reason == WrongPrevHash
  }

  /**
   A rejection gives the number of the first bad line, counted from one, and what is wrong with it; it counts the
   entries read, that line's own included, names that entry, and gives the hash of the line before.
   */
  lemma RejectionExplained(lib: Library, lines: seq<LogLine>) returns (k: nat)
    requires !Verified(lib, lines).Accepts()
    ensures FirstBad(lib, lines, k)
    ensures k > 0 ==> lines[k - 1].Record?
    ensures match Verified(lib, lines)
            case Threw(line) =>
              line == k + 1 && lines[k].Record? && Links(lib, lines, k) && !Complete(lines[k].entry.content)
            case Report(_, total, first, reason, lastHash) =>
              && reason.Some? && reason.value.0 == k + 1 && Explains(lib, lines, k, reason.value.1)
              && total == (if lines[k].Record? then k + 1 else k)
              && first == (if lines[k].Record? then Some(lines[k].entry.content.id) else None)
              && lastHash == (if k == 0 then None else Some(lines[k - 1].entry.entryHash))
  {
    VerifyExact(lib, lines);
    k :| 0 <= k < |lines| && FirstBad(lib, lines, k) && Verified(lib, lines) == Stopped(lib, lines, k);
    assert k > 0 ==> GoodLine(lib, lines, k - 1);
  }

  // ---------- appending ----------

  /** The hash of the last entry that has one, looked for from the end of the first n lines. */
  function LastHashIn(lines: seq<LogLine>): Option<string> {
    if lines == [] then None
    else
      var last := lines[|lines| - 1];
      if last.Record? && last.entry.entryHash != "" then Some(last.entry.entryHash)
      else LastHashIn(lines[..|lines| - 1])
  }

  function Signed(lib: Library, content: Content, prevHash: string): Entry {
    Entry(content, prevHash, lib.sha256(Canonical(content, prevHash)))
  }

  /** One append; an entry that cannot be hashed leaves the log alone. */
  function Appended(lib: Library, lines: seq<LogLine>, content: Content): seq<LogLine> {
    var last := LastHashIn(lines);
    if !Complete(content) then lines
    else lines + [Record(Signed(lib, content, if last.Some? then last.value else "GENESIS"))]
  }

  /** A log made by appending alone. */
  function BuiltBy(lib: Library, contents: seq<Content>): seq<LogLine> {
    if contents == [] then [] else Appended(lib, BuiltBy(lib, contents[..|contents| - 1]), contents[|contents| - 1])
  }

  class SignedFileAuditLog {
    /** The non-blank lines of the file; a missing file is an empty one. */
    var lines: seq<LogLine>

    constructor ()
      ensures lines == []
    {
      lines := [];
    }

    method ReadLastHash() returns (lastHash: Option<string>)
      ensures lastHash == LastHashIn(lines)
    {
      lastHash := None;
      for i := 0 to |lines|
        invariant lastHash == LastHashIn(lines[..i])
      {
        assert lines[..i + 1][..i] == lines[..i];
        if lines[i].Record? && lines[i].entry.entryHash != "" {
          lastHash := Some(lines[i].entry.entryHash);
        }
      }
      assert lines[..|lines|] == lines;
    }

    method Append(lib: Library, entry: SignedAuditEntry) returns (r: Result<()>)
      modifies this, entry
      ensures lines == Appended(lib, old(lines), entry.content)
      ensures Complete(entry.content) ==> r == Ok(()) && lines == old(lines) + [Record(entry.Snapshot())]
      ensures !Complete(entry.content) ==> r == Err(NullReference) && lines == old(lines)
    {
      var lastHash := ReadLastHash();
      entry.prevHash := if lastHash.Some? then lastHash.value else "GENESIS";
      var _ :- entry.ComputeAndSetHash(lib);
      lines := lines + [Record(entry.Snapshot())];
      r := Ok(());
    }

    method Verify(lib: Library) returns (result: Verification)
      ensures result == Verified(lib, lines)
    {
      var totalEntries := 0;
      var expectedPrev := "GENESIS";
      var lastHash: Option<string> := None;
      for i := 0 to |lines|
        invariant totalEntries == i
        invariant VerifyFrom(lib, lines, i, expectedPrev, lastHash) == Verified(lib, lines)
      {
        match lines[i] {
          case NotJson => return Report(false, totalEntries, None, Some((i + 1, InvalidJson)), lastHash);
          case JsonNull => return Report(false, totalEntries, None, Some((i + 1, NullEntry)), lastHash);
          case Record(e) =>
            totalEntries := totalEntries + 1;
            if !SameIgnoringCase(lib.upper, e.prevHash, expectedPrev) {
              return Report(false, totalEntries, Some(e.content.id), Some((i + 1, WrongPrevHash)), lastHash);
            }
            if !Complete(e.content) {
              return Threw(i + 1);
            }
            if !SelfOk(lib, e) {
              return Report(false, totalEntries, Some(e.content.id), Some((i + 1, WrongEntryHash)), lastHash);
            }
            expectedPrev := e.entryHash;
            lastHash := Some(e.entryHash);
        }
      }
      result := Report(true, totalEntries, None, None, lastHash);
    }
  }

  predicate HasHash(line: LogLine) {
    line.Record? && line.entry.entryHash != ""
  }

  /** This line's hash is nearest the end. */
  ghost predicate NearestHash(lines: seq<LogLine>, k: nat) {
    k < |lines| && HasHash(lines[k]) && forall i :: k < i < |lines| ==> !HasHash(lines[i])
  }

  lemma {:induction false} LastHashExact(lines: seq<LogLine>)
    ensures match LastHashIn(lines)
            case Some(hash) => exists k: nat :: NearestHash(lines, k) && lines[k].entry.entryHash == hash
            case None => forall line :: line in lines ==> !HasHash(line)
  {
    if lines != [] {
      var n := |lines| - 1;
      LastHashExact(lines[..n]);
      assert lines == lines[..n] + [lines[n]];
      if HasHash(lines[n]) {
        assert NearestHash(lines, n);
      } else if LastHashIn(lines).Some? {
        var k: nat :| NearestHash(lines[..n], k) && lines[k].entry.entryHash == LastHashIn(lines).value;
        assert NearestHash(lines, k);
      }
    }
  }

  /** An append to any log adds one line, linked to the nearest hash, and with the hash of its own form. */
  lemma AppendLinks(lib: Library, lines: seq<LogLine>, content: Content) returns (e: Entry)
    requires Complete(content)
    ensures Appended(lib, lines, content) == lines + [Record(e)]
    ensures e.content == content && e.entryHash == lib.sha256(Canonical(content, e.prevHash))
    ensures (exists k: nat :: NearestHash(lines, k) && e.prevHash == lines[k].entry.entryHash)
            || ((forall line :: line in lines ==> !HasHash(line)) && e.prevHash == "GENESIS")
  {
    LastHashExact(lines);
    e := Appended(lib, lines, content)[|lines|].entry;
  }

  // ---------- runs of appends ----------

  lemma ChainedHasLastHash(lib: Library, lines: seq<LogLine>)
    requires Sound(lib) && Chained(lib, lines)
    ensures lines != [] ==> GoodLine(lib, lines, |lines| - 1)
    ensures LastHashIn(lines) == LastHash(lines)
  {
    if lines != [] {
      assert GoodLine(lib, lines, |lines| - 1);
      assert IsHexDigest(lib.sha256(Form(lines[|lines| - 1].entry)));
    }
  }

  lemma GoodLinesOfPrefix(lib: Library, lines: seq<LogLine>, more: seq<LogLine>, i: nat)
    requires i < |lines|
    ensures GoodLine(lib, lines + more, i) <==> GoodLine(lib, lines, i)
  {
  }

  /** Appending keeps the chain. */
  lemma AppendKeepsChain(lib: Library, lines: seq<LogLine>, content: Content)
    requires Sound(lib) && Chained(lib, lines)
    ensures Chained(lib, Appended(lib, lines, content))
  {
    ChainedHasLastHash(lib, lines);
    var result := Appended(lib, lines, content);
    forall i | 0 <= i < |result|
      ensures GoodLine(lib, result, i)
    {
      if i < |lines| {
        GoodLinesOfPrefix(lib, lines, result[|lines|..], i);
        assert result == lines + result[|lines|..];
        assert GoodLine(lib, lines, i);
      }
    }
  }

  /** The log holds exactly these contents, in order. */
  ghost predicate Holds(lines: seq<LogLine>, contents: seq<Content>) {
    && |lines| == |contents|
    && forall i :: 0 <= i < |contents| ==> lines[i].Record? && lines[i].entry.content == contents[i]
  }

  /** The contents an append can hash. */
  function Hashable(contents: seq<Content>): seq<Content> {
    if contents == [] then []
    else
      var n := |contents| - 1;
      Hashable(contents[..n]) + if Complete(contents[n]) then [contents[n]] else []
  }

  /** A log built only by appends is accepted, holds exactly the hashable contents, and ends in the hash it reports. */
  lemma BuiltLogsVerify(lib: Library, contents: seq<Content>)
    requires Sound(lib)
    ensures Holds(BuiltBy(lib, contents), Hashable(contents))
    ensures Verified(lib, BuiltBy(lib, contents))
         == Report(true, |Hashable(contents)|, None, None, LastHashIn(BuiltBy(lib, contents)))
  {
    BuiltLogsAreChained(lib, contents);
    VerifyExact(lib, BuiltBy(lib, contents));
    ChainedHasLastHash(lib, BuiltBy(lib, contents));
  }

  lemma {:induction false} BuiltLogsAreChained(lib: Library, contents: seq<Content>)
    requires Sound(lib)
    ensures Chained(lib, BuiltBy(lib, contents))
    ensures Holds(BuiltBy(lib, contents), Hashable(contents))
  {
    if contents != [] {
      var n := |contents| - 1;
      BuiltLogsAreChained(lib, contents[..n]);
      AppendKeepsChain(lib, BuiltBy(lib, contents[..n]), contents[n]);
    }
  }

  lemma {:induction false} VerifyFromPrefix(lib: Library, lines: seq<LogLine>, more: seq<LogLine>, n: nat,
                                            prev: string, last: Option<string>)
    requires n <= |lines|
    requires !VerifyFrom(lib, lines, n, prev, last).Accepts()
    ensures VerifyFrom(lib, lines + more, n, prev, last) == VerifyFrom(lib, lines, n, prev, last)
    decreases |lines| - n
  {
    if n < |lines| && lines[n].Record? {
      var e := lines[n].entry;
      if SameIgnoringCase(lib.upper, e.prevHash, prev) && SelfOk(lib, e) {
        VerifyFromPrefix(lib, lines, more, n + 1, e.entryHash, Some(e.entryHash));
      }
    }
  }

  /** Once rejected, a log stays rejected, with the same report, whatever is appended. */
  lemma RejectionIsFinal(lib: Library, lines: seq<LogLine>, more: seq<LogLine>)
    requires !Verified(lib, lines).Accepts()
    ensures Verified(lib, lines + more) == Verified(lib, lines)
  {
    VerifyFromPrefix(lib, lines, more, 0, "GENESIS", None);
  }
}
