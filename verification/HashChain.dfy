/**
 A hash chain with the texts as given: each link holds a text, the hash it points back to and its own
 stored hash. The arguments here use nothing about the texts but that a text determines what it points to.
 */
module HashChain {
  import opened Ordinal

  /** SHA-256 of a text's UTF-8 bytes as lower-case hex, and the case mapping of OrdinalIgnoreCase. */
  datatype Library = Library(sha256: string -> string, upper: char -> char)

  predicate IsHexDigit(c: char) {
    '0' <= c <= '9' || 'a' <= c <= 'f'
  }

  ghost predicate IsHexDigest(s: string) {
    |s| == 64 && forall c :: c in s ==> IsHexDigit(c)
  }

  predicate BothHex(c: char, d: char) {
    IsHexDigit(c) && IsHexDigit(d)
  }

  /** Digests are 64 lower-case hex digits, and case mapping keeps those sixteen apart. */
  ghost predicate Sound(lib: Library) {
    && (forall text :: IsHexDigest(lib.sha256(text)))
    && (forall c, d {:trigger BothHex(c, d)} :: BothHex(c, d) && lib.upper(c) == lib.upper(d) ==> c == d)
  }

  datatype Link = Link(text: string, prev: string, hash: string)

  /** The hash link i must point to. */
  function Target(links: seq<Link>, i: nat): string
    requires i <= |links|
  {
    if i > 0 then links[i - 1].hash else "GENESIS"
  }

  predicate GoodLink(lib: Library, links: seq<Link>, i: nat)
    requires i < |links|
  {
    && SameIgnoringCase(lib.upper, links[i].prev, Target(links, i))
    && SameIgnoringCase(lib.upper, lib.sha256(links[i].text), links[i].hash)
  }

  ghost predicate Chain(lib: Library, links: seq<Link>) {
    forall i :: 0 <= i < |links| ==> GoodLink(lib, links, i)
  }

  /** Equal texts in the two chains point to equal hashes. */
  ghost predicate TextsFixLinks(a: seq<Link>, b: seq<Link>) {
    forall i, j :: 0 <= i < |a| && 0 <= j < |b| && a[i].text == b[j].text ==> a[i].prev == b[j].prev
  }

  /** An explicit SHA-256 collision: two different texts, both at hand, with one digest. */
  predicate TextsCollide(lib: Library, x: string, y: string) {
    x != y && lib.sha256(x) == lib.sha256(y)
  }

  predicate CollideAt(lib: Library, a: seq<Link>, m: nat, b: seq<Link>, n: nat, k: int) {
    1 <= k <= m <= |a| && k <= n <= |b| && TextsCollide(lib, a[m - k].text, b[n - k].text)
  }

  /** A collision is met somewhere at equal distances below positions m and n. */
  ghost predicate CollideBelow(lib: Library, a: seq<Link>, m: nat, b: seq<Link>, n: nat) {
    exists k :: CollideAt(lib, a, m, b, n, k)
  }

  ghost predicate SameTexts(a: seq<Link>, b: seq<Link>, n: nat)
    requires n <= |a| && n <= |b|
  {
    forall i :: 0 <= i < n ==> a[i].text == b[i].text
  }

  lemma DigestsEqual(lib: Library, x: string, y: string)
    requires Sound(lib) && IsHexDigest(x) && IsHexDigest(y) && SameIgnoringCase(lib.upper, x, y)
    ensures x == y
  {
    forall k | 0 <= k < |x|
      ensures x[k] == y[k]
    {
      assert x[k] in x && y[k] in y;
      assert BothHex(x[k], y[k]);
    }
  }

  lemma TargetLength(lib: Library, links: seq<Link>, i: nat)
    requires Sound(lib) && Chain(lib, links) && i <= |links|
    ensures |Target(links, i)| == if i == 0 then 7 else 64
  {
    if i > 0 {
      assert GoodLink(lib, links, i - 1);
      assert IsHexDigest(lib.sha256(links[i - 1].text));
    }
  }

  /** Good links that point back to the same hash have targets that agree. */
  lemma PointAlike(lib: Library, a: seq<Link>, i: nat, b: seq<Link>, j: nat)
    requires i < |a| && j < |b| && GoodLink(lib, a, i) && GoodLink(lib, b, j)
    requires a[i].prev == b[j].prev
    ensures SameIgnoringCase(lib.upper, Target(a, i), Target(b, j))
  {
  }

  /** Two chains whose targets agree at positions m and n agree all the way down, or a collision is met. */
  lemma {:induction false} AgreeBelow(lib: Library, a: seq<Link>, m: nat, b: seq<Link>, n: nat)
    requires Sound(lib) && Chain(lib, a) && Chain(lib, b) && TextsFixLinks(a, b)
    requires m <= |a| && n <= |b|
    requires SameIgnoringCase(lib.upper, Target(a, m), Target(b, n))
    ensures (m == n && SameTexts(a, b, m)) || CollideBelow(lib, a, m, b, n)
  {
    TargetLength(lib, a, m);
    TargetLength(lib, b, n);
    if m > 0 {
      OneLinkDown(lib, a, m, b, n);
      if a[m - 1].text != b[n - 1].text {
        assert CollideAt(lib, a, m, b, n, 1);
      } else {
        AgreeBelow(lib, a, m - 1, b, n - 1);
        if CollideBelow(lib, a, m - 1, b, n - 1) {
          var k :| CollideAt(lib, a, m - 1, b, n - 1, k);
          assert CollideAt(lib, a, m, b, n, k + 1);
        }
      }
    }
  }

  /** One step back along both chains: the same digest, and if the texts are equal, targets that agree. */
  lemma OneLinkDown(lib: Library, a: seq<Link>, m: nat, b: seq<Link>, n: nat)
    requires Sound(lib) && Chain(lib, a) && Chain(lib, b) && TextsFixLinks(a, b)
    requires 0 < m <= |a| && 0 < n <= |b|
    requires SameIgnoringCase(lib.upper, Target(a, m), Target(b, n))
    ensures lib.sha256(a[m - 1].text) == lib.sha256(b[n - 1].text)
    ensures a[m - 1].text == b[n - 1].text ==> SameIgnoringCase(lib.upper, Target(a, m - 1), Target(b, n - 1))
  {
    assert GoodLink(lib, a, m - 1) && GoodLink(lib, b, n - 1);
    DigestsEqual(lib, lib.sha256(a[m - 1].text), lib.sha256(b[n - 1].text));
    if a[m - 1].text == b[n - 1].text {
      PointAlike(lib, a, m - 1, b, n - 1);
    }
  }

  /**
   Chains that hold one text at positions m and n have it at one position, and equal texts before; or a
   collision is met.
   */
  lemma EqualTextsBelow(lib: Library, a: seq<Link>, m: nat, b: seq<Link>, n: nat)
    requires Sound(lib) && Chain(lib, a) && Chain(lib, b) && TextsFixLinks(a, b)
    requires m < |a| && n < |b| && a[m].text == b[n].text
    ensures (m == n && SameTexts(a, b, m)) || CollideBelow(lib, a, m, b, n)
  {
    assert GoodLink(lib, a, m) && GoodLink(lib, b, n);
    PointAlike(lib, a, m, b, n);
    AgreeBelow(lib, a, m, b, n);
  }

  /** Two links of one chain collide. */
  ghost predicate HasCollision(lib: Library, links: seq<Link>) {
    exists i, j :: 0 <= i < |links| && 0 <= j < |links| && TextsCollide(lib, links[i].text, links[j].text)
  }

  /** In a chain the targets of different positions differ, even ignoring letter case, or there is a collision. */
  lemma TargetsDistinct(lib: Library, links: seq<Link>, m: nat, n: nat)
    requires Sound(lib) && Chain(lib, links) && TextsFixLinks(links, links)
    requires m <= |links| && n <= |links| && m != n
    requires SameIgnoringCase(lib.upper, Target(links, m), Target(links, n))
    ensures HasCollision(lib, links)
  {
    AgreeBelow(lib, links, m, links, n);
    var k :| CollideAt(lib, links, m, links, n, k);
    assert TextsCollide(lib, links[m - k].text, links[n - k].text);
  }

  /** Where the n-th link of a subchain stands in the chain: at a place with the same target. */
  lemma PlaceOf(lib: Library, links: seq<Link>, sub: seq<Link>, n: nat) returns (m: nat)
    requires Chain(lib, links) && Chain(lib, sub) && n < |sub| && n <= |links|
    requires forall link :: link in sub ==> link in links
    requires forall i :: 0 <= i < n ==> sub[i] == links[i]
    ensures m < |links| && links[m] == sub[n]
    ensures SameIgnoringCase(lib.upper, Target(links, n), Target(links, m))
  {
    assert sub[n] in sub;
    m :| 0 <= m < |links| && links[m] == sub[n];
    PointAlike(lib, sub, n, links, m);
    assert Target(sub, n) == Target(links, n);
  }

  /** A chain made of links of another chain is a prefix of it, or there is a collision. */
  lemma {:induction false} SubchainPrefix(lib: Library, links: seq<Link>, sub: seq<Link>, n: nat)
    requires Sound(lib) && Chain(lib, links) && Chain(lib, sub) && TextsFixLinks(links, links)
    requires forall link :: link in sub ==> link in links
    requires n <= |sub|
    ensures (n <= |links| && forall i :: 0 <= i < n ==> sub[i] == links[i]) || HasCollision(lib, links)
  {
    if n > 0 {
      SubchainPrefix(lib, links, sub, n - 1);
      if !HasCollision(lib, links) {
        var m := PlaceOf(lib, links, sub, n - 1);
        if m != n - 1 {
          TargetsDistinct(lib, links, n - 1, m);
        }
      }
    }
  }
}
