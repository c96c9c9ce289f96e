/**
 What an accepted audit chain proves about its history. Every conclusion has the form "this holds,
 or two given entries of the logs have different canonical forms with the same SHA-256 digest".
 */
module TamperEvidence {
  import opened Results
  import opened CanonicalForm
  import opened HashChain
  import opened Ordinal
  import opened AuditChain

  /** Two entries whose canonical forms are an explicit SHA-256 collision. */
  predicate Collide(lib: Library, e: Entry, f: Entry) {
    TextsCollide(lib, Form(e), Form(f))
  }

  ghost predicate Entries(lines: seq<LogLine>) {
    forall i :: 0 <= i < |lines| ==> lines[i].Record?
  }

  /** An entry of one log collides with an entry of the other. */
  ghost predicate LogsCollide(lib: Library, a: seq<LogLine>, b: seq<LogLine>)
    requires Entries(a) && Entries(b)
  {
    exists i, j :: 0 <= i < |a| && 0 <= j < |b| && Collide(lib, a[i].entry, b[j].entry)
  }

  predicate SameFields(e: Entry, f: Entry) {
    e.prevHash == f.prevHash && SameContent(e.content, f.content)
  }

  /** The two logs record the same history: contents and links, entry by entry. */
  ghost predicate SameHistory(a: seq<LogLine>, b: seq<LogLine>)
    requires Entries(a) && Entries(b)
  {
    && |a| == |b|
    && forall i :: 0 <= i < |a| ==> SameFields(a[i].entry, b[i].entry)
  }

  // ---------- logs as chains of links ----------

  function LinkOf(e: Entry): Link {
    Link(Form(e), e.prevHash, e.entryHash)
  }

  function Links(lines: seq<LogLine>): (links: seq<Link>)
    requires Entries(lines)
    ensures |links| == |lines|
  {
    seq(|lines|, i requires 0 <= i < |lines| => LinkOf(lines[i].entry))
  }

  lemma LinksChained(lib: Library, lines: seq<LogLine>)
    requires Verified(lib, lines).Accepts()
    ensures Entries(lines) && Chain(lib, Links(lines))
    ensures Verified(lib, lines).lastHash == if lines == [] then None else Some(Target(Links(lines), |lines|))
  {
    VerifyExact(lib, lines);
    forall i | 0 <= i < |lines|
      ensures lines[i].Record?
    {
      assert GoodLine(lib, lines, i);
    }
    forall i | 0 <= i < |lines|
      ensures GoodLink(lib, Links(lines), i)
    {
      assert GoodLine(lib, lines, i);
    }
  }

  lemma SameFormSameFields(e: Entry, f: Entry)
    requires Form(e) == Form(f)
    ensures SameFields(e, f)
  {
    CanonicalInjective(e.content, e.prevHash, f.content, f.prevHash);
  }

  lemma FormsFixLinks(a: seq<LogLine>, b: seq<LogLine>)
    requires Entries(a) && Entries(b)
    ensures TextsFixLinks(Links(a), Links(b))
  {
    forall i, j | 0 <= i < |a| && 0 <= j < |b| && Links(a)[i].text == Links(b)[j].text
      ensures Links(a)[i].prev == Links(b)[j].prev
    {
      SameFormSameFields(a[i].entry, b[j].entry);
    }
  }

  lemma CollisionOfLinks(lib: Library, lines: seq<LogLine>)
    requires Entries(lines) && HasCollision(lib, Links(lines))
    ensures LogsCollide(lib, lines, lines)
  {
    var links := Links(lines);
    var i, j :| 0 <= i < |links| && 0 <= j < |links| && TextsCollide(lib, links[i].text, links[j].text);
    CollisionOfTwo(lib, lines, i, lines, j);
  }

  // ---------- two logs ----------

  /**
   Anchored tamper evidence: two logs that verify with the same last hash have the same length and the
   same contents and links throughout, or an entry of one collides with an entry of the other.
   */
  lemma AnchoredHistory(lib: Library, a: seq<LogLine>, b: seq<LogLine>)
    requires Sound(lib)
    requires Verified(lib, a).Accepts() && Verified(lib, b).Accepts()
    requires Verified(lib, a).lastHash == Verified(lib, b).lastHash
    ensures Entries(a) && Entries(b)
    ensures SameHistory(a, b) || LogsCollide(lib, a, b)
  {
    LinksChained(lib, a);
    LinksChained(lib, b);
    FormsFixLinks(a, b);
    AgreeBelow(lib, Links(a), |a|, Links(b), |b|);
    if CollideBelow(lib, Links(a), |a|, Links(b), |b|) {
      CollisionAcross(lib, a, |a|, b, |b|);
    } else {
      SameTextsSamePast(a, b, |a|);
      assert a[..|a|] == a && b[..|b|] == b;
    }
  }

  lemma CollisionOfTwo(lib: Library, a: seq<LogLine>, i: nat, b: seq<LogLine>, j: nat)
    requires Entries(a) && Entries(b) && i < |a| && j < |b|
    requires TextsCollide(lib, Links(a)[i].text, Links(b)[j].text)
    ensures LogsCollide(lib, a, b)
  {
    assert Collide(lib, a[i].entry, b[j].entry);
  }

  lemma CollisionAcross(lib: Library, a: seq<LogLine>, m: nat, b: seq<LogLine>, n: nat)
    requires Entries(a) && Entries(b) && CollideBelow(lib, Links(a), m, Links(b), n)
    ensures LogsCollide(lib, a, b)
  {
    var k :| CollideAt(lib, Links(a), m, Links(b), n, k);
    CollisionOfTwo(lib, a, m - k, b, n - k);
  }

  // ---------- one log ----------

  /** All entry hashes of an accepted log are different up to letter case, or two of its entries collide. */
  lemma EntryHashesDistinct(lib: Library, lines: seq<LogLine>, i: nat, j: nat)
    requires Sound(lib) && Verified(lib, lines).Accepts() && i < j < |lines|
    ensures Entries(lines)
    ensures !SameIgnoringCase(lib.upper, lines[i].entry.entryHash, lines[j].entry.entryHash)
            || LogsCollide(lib, lines, lines)
  {
    LinksChained(lib, lines);
    FormsFixLinks(lines, lines);
    if SameIgnoringCase(lib.upper, lines[i].entry.entryHash, lines[j].entry.entryHash) {
      SameHashesCollide(lib, lines, i, j);
    }
  }

  lemma SameHashesCollide(lib: Library, lines: seq<LogLine>, i: nat, j: nat)
    requires Sound(lib) && Entries(lines) && Chain(lib, Links(lines)) && TextsFixLinks(Links(lines), Links(lines))
    requires i < j < |lines| && SameIgnoringCase(lib.upper, lines[i].entry.entryHash, lines[j].entry.entryHash)
    ensures LogsCollide(lib, lines, lines)
  {
    TargetsDistinct(lib, Links(lines), i + 1, j + 1);
    CollisionOfLinks(lib, lines);
  }

  /** In an accepted log an entry is where its hash says, so equal links are equal positions. */
  lemma SamePlace(lib: Library, lines: seq<LogLine>, i: nat, j: nat)
    requires Sound(lib) && Verified(lib, lines).Accepts() && i < |lines| && j < |lines|
    requires Entries(lines) && lines[i].entry.entryHash == lines[j].entry.entryHash
    ensures i == j || LogsCollide(lib, lines, lines)
  {
    if i < j {
      EntryHashesDistinct(lib, lines, i, j);
    } else if j < i {
      EntryHashesDistinct(lib, lines, j, i);
    }
  }

  /**
   Of the logs made only of unmodified lines of an accepted log, in any order, with any omissions and
   repetitions, exactly the prefixes are accepted; or two of its entries collide.
   */
  lemma OnlyTruncationPasses(lib: Library, lines: seq<LogLine>, sub: seq<LogLine>)
    requires Sound(lib) && Verified(lib, lines).Accepts()
    requires forall line :: line in sub ==> line in lines
    ensures Entries(lines)
    ensures sub <= lines ==> Verified(lib, sub).Accepts()
    ensures Verified(lib, sub).Accepts() ==> sub <= lines || LogsCollide(lib, lines, lines)
  {
    LinksChained(lib, lines);
    if sub <= lines {
      TruncationPasses(lib, lines, |sub|);
      assert lines[..|sub|] == sub;
    }
    if Verified(lib, sub).Accepts() && !LogsCollide(lib, lines, lines) {
      LinksChained(lib, sub);
      FormsFixLinks(lines, lines);
      forall link | link in Links(sub)
        ensures link in Links(lines)
      {
        LinkComesFrom(lines, sub, link);
      }
      SubchainPrefix(lib, Links(lines), Links(sub), |sub|);
      if HasCollision(lib, Links(lines)) {
        CollisionOfLinks(lib, lines);
      }
      forall i | 0 <= i < |sub|
        ensures sub[i] == lines[i]
      {
        assert sub[i] in sub;
        var m :| 0 <= m < |lines| && lines[m] == sub[i];
        assert Links(sub)[i] == Links(lines)[i];
        SamePlace(lib, lines, i, m);
      }
    }
  }

  lemma LinkComesFrom(lines: seq<LogLine>, sub: seq<LogLine>, link: Link)
    requires Entries(lines) && Entries(sub)
    requires forall line :: line in sub ==> line in lines
    requires link in Links(sub)
    ensures link in Links(lines)
  {
    var i :| 0 <= i < |sub| && Links(sub)[i] == link;
    assert sub[i] in sub;
    var m :| 0 <= m < |lines| && lines[m] == sub[i];
    assert Links(lines)[m] == link;
  }

  /** And every prefix does pass: cutting off the end is what a chain alone cannot show. */
  lemma TruncationPasses(lib: Library, lines: seq<LogLine>, n: nat)
    requires Verified(lib, lines).Accepts() && n <= |lines|
    ensures Verified(lib, lines[..n]).Accepts()
  {
    VerifyExact(lib, lines);
    VerifyExact(lib, lines[..n]);
    assert lines == lines[..n] + lines[n..];
    forall i | 0 <= i < n
      ensures GoodLine(lib, lines[..n], i)
    {
      assert GoodLine(lib, lines, i);
      GoodLinesOfPrefix(lib, lines[..n], lines[n..], i);
    }
  }

  /** Deleting lines i to j from the middle or the front is detected. */
  lemma DeletionDetected(lib: Library, lines: seq<LogLine>, i: nat, j: nat)
    requires Sound(lib) && Verified(lib, lines).Accepts() && i < j < |lines|
    ensures Entries(lines)
    ensures !Verified(lib, lines[..i] + lines[j..]).Accepts() || LogsCollide(lib, lines, lines)
  {
    var sub := lines[..i] + lines[j..];
    OnlyTruncationPasses(lib, lines, sub);
    if sub <= lines {
      assert lines[i] == sub[i] == lines[j];
      SamePlace(lib, lines, i, j);
    }
  }

  /** Reordering the lines is detected. */
  lemma ReorderingDetected(lib: Library, lines: seq<LogLine>, permuted: seq<LogLine>)
    requires Sound(lib) && Verified(lib, lines).Accepts()
    requires multiset(permuted) == multiset(lines) && permuted != lines
    ensures Entries(lines)
    ensures !Verified(lib, permuted).Accepts() || LogsCollide(lib, lines, lines)
  {
    assert |permuted| == |multiset(permuted)| == |multiset(lines)| == |lines|;
    forall line | line in permuted
      ensures line in lines
    {
      assert line in multiset(permuted);
    }
    OnlyTruncationPasses(lib, lines, permuted);
  }

  // ---------- altering lines ----------

  /**
   A line put in the place of another keeps the chain exactly when it links back, has its own hash, and the
   next line links to it.
   */
  lemma ReplacementExact(lib: Library, lines: seq<LogLine>, i: nat, e: Entry)
    requires Verified(lib, lines).Accepts() && i < |lines|
    ensures Entries(lines)
    ensures Verified(lib, lines[i := Record(e)]).Accepts()
        <==> && SameIgnoringCase(lib.upper, e.prevHash, LinkTarget(lines, i)) && SelfOk(lib, e)
             && (i + 1 < |lines| ==> SameIgnoringCase(lib.upper, lines[i + 1].entry.prevHash, e.entryHash))
  {
    LinksChained(lib, lines);
    VerifyExact(lib, lines);
    var altered := lines[i := Record(e)];
    VerifyExact(lib, altered);
    forall k | 0 <= k < |lines|
      ensures GoodLine(lib, altered, k) <==> ReplacedLineGood(lib, lines, i, e, k)
    {
      assert GoodLine(lib, lines, k);
      ReplacedLine(lib, lines, i, e, k);
    }
    if Chained(lib, altered) {
      assert GoodLine(lib, altered, i);
      assert i + 1 < |lines| ==> GoodLine(lib, altered, i + 1);
    }
  }

  predicate ReplacedLineGood(lib: Library, lines: seq<LogLine>, i: nat, e: Entry, k: nat)
    requires i < |lines| && k < |lines|
  {
    && (k == i ==> SameIgnoringCase(lib.upper, e.prevHash, LinkTarget(lines, i)) && SelfOk(lib, e))
    && (k == i + 1 ==> lines[k].Record? && SameIgnoringCase(lib.upper, lines[k].entry.prevHash, e.entryHash))
  }

  lemma ReplacedLine(lib: Library, lines: seq<LogLine>, i: nat, e: Entry, k: nat)
    requires i < |lines| && k < |lines| && GoodLine(lib, lines, k) && (i > 0 ==> lines[i - 1].Record?)
    ensures GoodLine(lib, lines[i := Record(e)], k) <==> ReplacedLineGood(lib, lines, i, e, k)
  {
  }

  /**
   Altering any hashed field of one line passes exactly on the last line, for an entry linked and signed
   anew; or the altered entry collides with the original.
   */
  lemma AlterationPassesIff(lib: Library, lines: seq<LogLine>, i: nat, e: Entry)
    requires Sound(lib) && Verified(lib, lines).Accepts() && i < |lines|
    requires lines[i].Record? && !SameFields(e, lines[i].entry)
    ensures (Verified(lib, lines[i := Record(e)]).Accepts()
             <==> i == |lines| - 1 && SameIgnoringCase(lib.upper, e.prevHash, LinkTarget(lines, i)) && SelfOk(lib, e))
            || Collide(lib, e, lines[i].entry)
  {
    ReplacementExact(lib, lines, i, e);
    if i + 1 < |lines| && Verified(lib, lines[i := Record(e)]).Accepts() {
      NextLinkFixesForm(lib, lines, i, e);
    }
  }

  lemma NextLinkFixesForm(lib: Library, lines: seq<LogLine>, i: nat, e: Entry)
    requires Sound(lib) && Verified(lib, lines).Accepts() && i + 1 < |lines|
    requires Entries(lines) && !SameFields(e, lines[i].entry) && SelfOk(lib, e)
    requires SameIgnoringCase(lib.upper, lines[i + 1].entry.prevHash, e.entryHash)
    ensures Collide(lib, e, lines[i].entry)
  {
    VerifyExact(lib, lines);
    assert GoodLine(lib, lines, i) && GoodLine(lib, lines, i + 1);
    DigestsEqual(lib, lib.sha256(Form(e)), lib.sha256(Form(lines[i].entry)));
    if Form(e) == Form(lines[i].entry) {
      SameFormSameFields(e, lines[i].entry);
    }
  }

  /** A log after further appends. */
  function AppendedTo(lib: Library, lines: seq<LogLine>, contents: seq<Content>): seq<LogLine> {
    if contents == [] then lines
    else Appended(lib, AppendedTo(lib, lines, contents[..|contents| - 1]), contents[|contents| - 1])
  }

  lemma {:induction false} AppendsKeepChain(lib: Library, lines: seq<LogLine>, contents: seq<Content>)
    requires Sound(lib) && Chained(lib, lines)
    ensures Chained(lib, AppendedTo(lib, lines, contents))
  {
    if contents != [] {
      var n := |contents| - 1;
      AppendsKeepChain(lib, lines, contents[..n]);
      AppendKeepsChain(lib, AppendedTo(lib, lines, contents[..n]), contents[n]);
    }
  }

  /**
   Whoever can write the file can so rewrite the end of the log: dropping any lines from the end and appending
   others passes.
   */
  lemma ResignedTailPasses(lib: Library, lines: seq<LogLine>, n: nat, others: seq<Content>)
    requires Sound(lib) && Verified(lib, lines).Accepts() && n <= |lines|
    ensures Verified(lib, AppendedTo(lib, lines[..n], others)).Accepts()
  {
    TruncationPasses(lib, lines, n);
    VerifyExact(lib, lines[..n]);
    AppendsKeepChain(lib, lines[..n], others);
    VerifyExact(lib, AppendedTo(lib, lines[..n], others));
  }

  // ---------- any change ----------

  /**
   A line that two accepted logs share, in its hashed fields, stands at one position in both, behind the same
   history; or two of their entries collide.
   */
  lemma SharedLine(lib: Library, a: seq<LogLine>, m: nat, b: seq<LogLine>, n: nat)
    requires Sound(lib) && Verified(lib, a).Accepts() && Verified(lib, b).Accepts()
    requires m < |a| && n < |b|
    ensures Entries(a) && Entries(b)
    ensures SameFields(a[m].entry, b[n].entry) ==> (m == n && SameHistory(a[..m], b[..n])) || LogsCollide(lib, a, b)
  {
    LinksChained(lib, a);
    LinksChained(lib, b);
    if SameFields(a[m].entry, b[n].entry) {
      FormsFixLinks(a, b);
      EqualTextsBelow(lib, Links(a), m, Links(b), n);
      if CollideBelow(lib, Links(a), m, Links(b), n) {
        CollisionAcross(lib, a, m, b, n);
      } else {
        SameTextsSamePast(a, b, m);
      }
    }
  }

  lemma SameTextsSamePast(a: seq<LogLine>, b: seq<LogLine>, n: nat)
    requires Entries(a) && Entries(b) && n <= |a| && n <= |b| && SameTexts(Links(a), Links(b), n)
    ensures SameHistory(a[..n], b[..n])
  {
    forall i | 0 <= i < n
      ensures SameFields(a[i].entry, b[i].entry)
    {
      assert Links(a)[i].text == Links(b)[i].text;
      SameFormSameFields(a[i].entry, b[i].entry);
    }
  }

  /** From position n on, no line of one log has the hashed fields of a line of the other. */
  ghost predicate NothingShared(a: seq<LogLine>, b: seq<LogLine>, n: nat)
    requires Entries(a) && Entries(b)
  {
    forall i, j :: 0 <= i < |a| && 0 <= j < |b| && (i >= n || j >= n) ==> !SameFields(a[i].entry, b[j].entry)
  }

  /**
   What any change whatever can do and still be accepted, lines altered, deleted, inserted and moved in any number:
   two accepted logs begin with the same history, and from there on share no line; or two of their entries collide.
   */
  lemma AcceptedLogsPartOnce(lib: Library, a: seq<LogLine>, b: seq<LogLine>) returns (n: nat)
    requires Sound(lib) && Verified(lib, a).Accepts() && Verified(lib, b).Accepts()
    ensures Entries(a) && Entries(b) && n <= |a| && n <= |b|
    ensures (SameHistory(a[..n], b[..n]) && NothingShared(a, b, n)) || LogsCollide(lib, a, b)
  {
    LinksChained(lib, a);
    LinksChained(lib, b);
    n := CommonLength(a, b, 0);
    if !LogsCollide(lib, a, b) {
      forall i, j | 0 <= i < |a| && 0 <= j < |b| && (i >= n || j >= n)
        ensures !SameFields(a[i].entry, b[j].entry)
      {
        SharedLine(lib, a, i, b, j);
        if SameFields(a[i].entry, b[j].entry) {
          PastReaches(a, b, i, n);
        }
      }
    }
  }

  lemma {:induction false} CommonLength(a: seq<LogLine>, b: seq<LogLine>, k: nat) returns (n: nat)
    requires Entries(a) && Entries(b) && k <= |a| && k <= |b| && SameHistory(a[..k], b[..k])
    ensures n <= |a| && n <= |b| && SameHistory(a[..n], b[..n])
    ensures n < |a| && n < |b| ==> !SameFields(a[n].entry, b[n].entry)
    decreases |a| - k
  {
    if k < |a| && k < |b| && SameFields(a[k].entry, b[k].entry) {
      assert a[..k + 1] == a[..k] + [a[k]] && b[..k + 1] == b[..k] + [b[k]];
      n := CommonLength(a, b, k + 1);
    } else {
      n := k;
    }
  }

  /** A common past that ends in a common line reaches position n, where the logs part. */
  lemma PastReaches(a: seq<LogLine>, b: seq<LogLine>, i: nat, n: nat)
    requires Entries(a) && Entries(b) && n <= i < |a| && i < |b|
    requires SameHistory(a[..i], b[..i]) && SameFields(a[i].entry, b[i].entry)
    ensures SameFields(a[n].entry, b[n].entry)
  {
    if n < i {
      assert a[..i][n] == a[n] && b[..i][n] == b[n];
    }
  }

  /** Inserting lines anywhere but at the end is detected, whatever they are. */
  lemma InsertionDetected(lib: Library, lines: seq<LogLine>, i: nat, inserted: seq<LogLine>)
    requires Sound(lib) && Verified(lib, lines).Accepts() && i < |lines| && inserted != []
    ensures var longer := lines[..i] + inserted + lines[i..];
      Verified(lib, longer).Accepts() ==> Entries(lines) && Entries(longer) && LogsCollide(lib, lines, longer)
  {
    var longer := lines[..i] + inserted + lines[i..];
    if Verified(lib, longer).Accepts() {
      assert longer[i + |inserted|] == lines[i];
      SharedLine(lib, lines, i, longer, i + |inserted|);
    }
  }

  /**
   However many lines are altered: two accepted logs that differ in a hashed field of one line differ in every
   later line as well, so no unmodified line can follow an altered one; or two of their entries collide.
   */
  lemma AlterationSpreads(lib: Library, a: seq<LogLine>, b: seq<LogLine>, i: nat, j: nat)
    requires Sound(lib) && Verified(lib, a).Accepts() && Verified(lib, b).Accepts()
    requires i < j < |a| && j < |b|
    ensures Entries(a) && Entries(b)
    ensures !SameFields(a[i].entry, b[i].entry) ==> !SameFields(a[j].entry, b[j].entry) || LogsCollide(lib, a, b)
  {
    SharedLine(lib, a, j, b, j);
    if SameFields(a[j].entry, b[j].entry) && !LogsCollide(lib, a, b) {
      PastReaches(a, b, j, i);
    }
  }
}
