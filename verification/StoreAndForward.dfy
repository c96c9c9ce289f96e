/**
 src/AtlasGT.Historian/FileStoreAndForwardBuffer.cs, one operation at a time: which files a drain
 takes, what it leaves, and what a sequence of enqueues and drains delivers.
 */
module StoreAndForward {
  type Id = nat

  datatype Observation = Observation(id: Id, payload: string)

  /** What a pending file holds: an observation, or text that does not deserialize. */
  datatype FileContent = Stored(obs: Observation) | Corrupt

  /** The two directories, by file name. */
  datatype Disk = Disk(pending: map<Id, FileContent>, sent: set<Id>)

  datatype Delivery = Delivered | Refused | Cancelled

  /**
   How the outside behaves during a drain: whether the token is cancelled when a file's turn comes, which reads
   and moves work, the callback, and `Guid.NewGuid`.
   */
  datatype Outside =
    Outside(cancelled: Id -> bool, readable: Id -> bool, deliver: Observation -> Delivery, movable: Id -> bool,
            freshId: Id -> Id)

  // ---------- name order ----------

  predicate StrictlyAscending(files: seq<Id>) {
    forall i, j :: 0 <= i < j < |files| ==> files[i] < files[j]
  }

  /** The sorted listing of a directory. */
  ghost predicate IsListing(files: seq<Id>, names: set<Id>) {
    StrictlyAscending(files) && forall id :: id in files <==> id in names
  }

  lemma {:induction false} ListingUnique(a: seq<Id>, b: seq<Id>, names: set<Id>)
    requires IsListing(a, names) && IsListing(b, names)
    ensures a == b
  {
    assert |b| > 0 ==> b[0] in b;
    if a == [] {
    } else {
      assert a[0] in a;
      assert b != [];
      var i :| 0 <= i < |b| && b[i] == a[0];
      var j :| 0 <= j < |a| && a[j] == b[0];
      assert a[0] == b[0];
      TailListing(a, names);
      TailListing(b, names);
      ListingUnique(a[1..], b[1..], names - {a[0]});
      assert a == [a[0]] + a[1..] && b == [b[0]] + b[1..];
    }
  }

  lemma TailListing(files: seq<Id>, names: set<Id>)
    requires files != [] && IsListing(files, names)
    ensures IsListing(files[1..], names - {files[0]})
  {
    forall id
      ensures id in files[1..] <==> id in names - {files[0]}
    {
      assert files == [files[0]] + files[1..];
      assert id in files <==> id in names;
    }
  }

  lemma {:induction false} ListingSize(files: seq<Id>, names: set<Id>)
    requires IsListing(files, names)
    ensures |files| == |names|
  {
    if files == [] {
      assert names == {};
    } else {
      assert files[0] in files;
      TailListing(files, names);
      ListingSize(files[1..], names - {files[0]});
    }
  }

  // ---------- EnqueueAsync and DrainAsync as functions ----------

  /** The id has been seen, or has a file. */
  predicate Known(disk: Disk, seen: set<Id>, id: Id) {
    id in seen || id in disk.pending || id in disk.sent
  }

  /** `writable` tells whether writing the pending file works. */
  function Enqueued(disk: Disk, seen: set<Id>, obs: Observation, writable: bool): Disk {
    if Known(disk, seen, obs.id) || !writable then disk
    else disk.(pending := disk.pending[obs.id := Stored(obs)])
  }

  function SeenAfter(disk: Disk, seen: set<Id>, obs: Observation, writable: bool): set<Id> {
    if Known(disk, seen, obs.id) || writable then seen + {obs.id} else seen
  }

  /** `TryMove`: a failing move changes nothing. */
  function Moved(disk: Disk, outside: Outside, from: Id, to: Id): Disk {
    if outside.movable(from) && from in disk.pending
    then Disk(disk.pending - {from}, disk.sent + {to})
    else disk
  }

  datatype DrainResult = DrainResult(disk: Disk, delivered: seq<Observation>, thrown: bool)

  predicate Readable(file: Id, disk: Disk, outside: Outside) {
    outside.readable(file) && file in disk.pending && disk.pending[file].Stored?
  }

  /** The drain ends with an exception at this file: the token or the callback is cancelled. */
  predicate StopsAt(file: Id, disk: Disk, outside: Outside) {
    outside.cancelled(file) || (Readable(file, disk, outside) && outside.deliver(disk.pending[file].obs).Cancelled?)
  }

  predicate Takes(file: Id, disk: Disk, outside: Outside) {
    Readable(file, disk, outside) && outside.deliver(disk.pending[file].obs).Delivered?
  }

  function Taken(file: Id, disk: Disk, outside: Outside): seq<Observation> {
    if Takes(file, disk, outside) then [disk.pending[file].obs] else []
  }

  /** The disk after a file has had its turn. */
  function AfterVisit(file: Id, disk: Disk, outside: Outside): Disk {
    if !outside.readable(file) || file !in disk.pending then disk
    else if disk.pending[file].Corrupt? then Moved(disk, outside, file, outside.freshId(file))
    else if Takes(file, disk, outside) then Moved(disk, outside, file, disk.pending[file].obs.id)
    else disk
  }

  /** The rest of a drain: files still to visit, after `delivered` confirmed deliveries. */
  function DrainFrom(files: seq<Id>, disk: Disk, outside: Outside, delivered: seq<Observation>, max: int): DrainResult
    decreases |files|
  {
    if files == [] then DrainResult(disk, delivered, false)
    else if outside.cancelled(files[0]) then DrainResult(disk, delivered, true)
    else if |delivered| >= max then DrainResult(disk, delivered, false)
    else if StopsAt(files[0], disk, outside) then DrainResult(disk, delivered, true)
    else
      DrainFrom(files[1..], AfterVisit(files[0], disk, outside), outside,
                delivered + Taken(files[0], disk, outside), max)
  }

  // ---------- the class ----------

  class FileStoreAndForwardBuffer {
    var disk: Disk
    var seen: set<Id>

    constructor (disk: Disk)
      ensures this.disk == disk && seen == {}
    {
      this.disk, seen := disk, {};
    }

    method Enqueue(obs: Observation, writable: bool) returns (thrown: bool)
      modifies this
      ensures thrown <==> !Known(old(disk), old(seen), obs.id) && !writable
      ensures disk == Enqueued(old(disk), old(seen), obs, writable)
      ensures disk.sent == old(disk.sent)
      ensures disk.pending
           == if thrown || obs.id in old(seen) || obs.id in old(disk.pending) || obs.id in old(disk.sent)
              then old(disk.pending) else old(disk.pending)[obs.id := Stored(obs)]
      ensures seen == SeenAfter(old(disk), old(seen), obs, writable)
    {
      if obs.id in seen {
        return false;
      }
      if obs.id in disk.pending || obs.id in disk.sent {
        seen := seen + {obs.id};
        return false;
      }
      if !writable {
        return true;
      }
      thrown := false;
      disk := disk.(pending := disk.pending[obs.id := Stored(obs)]);
      seen := seen + {obs.id};
    }

    /** `Directory.GetFiles` and `Array.Sort`. */
    method SortedFiles() returns (files: seq<Id>)
      ensures IsListing(files, disk.pending.Keys)
    {
      files := [];
      var left := disk.pending.Keys;
      while left != {}
        invariant left <= disk.pending.Keys
        invariant IsListing(files, disk.pending.Keys - left)
        invariant forall x, y :: x in files && y in left ==> x < y
        decreases left
      {
        var smallest := Smallest(left);
        var next := files + [smallest];
        assert forall i :: 0 <= i < |files| ==> files[i] in files;
        forall id
          ensures id in next <==> id in disk.pending.Keys - (left - {smallest})
        {
          assert id in files <==> id in disk.pending.Keys - left;
        }
        files, left := next, left - {smallest};
      }
      assert disk.pending.Keys - {} == disk.pending.Keys;
    }

    method Smallest(names: set<Id>) returns (m: Id)
      requires names != {}
      ensures m in names && forall x :: x in names ==> m <= x
    {
      m :| m in names;
      var left := names - {m};
      while left != {}
        invariant m in names && left <= names
        invariant forall x :: x in names && x !in left ==> m <= x
        decreases left
      {
        var x :| x in left;
        left := left - {x};
        if x < m {
          m := x;
        }
      }
    }

    method Drain(outside: Outside, max: int) returns (delivered: seq<Observation>, thrown: bool)
      modifies this`disk
      ensures DrainResult(disk, delivered, thrown) == Drained(old(disk), outside, max)
    {
      var listed := SortedFiles();
      ListingUnique(listed, Listing(disk.pending.Keys), disk.pending.Keys);
      delivered, thrown := [], false;
      for i := 0 to |listed|
        invariant DrainFrom(listed[i..], disk, outside, delivered, max)
               == DrainFrom(listed, old(disk), outside, [], max)
      {
        var file := listed[i];
        assert listed[i..][0] == file && listed[i..][1..] == listed[i + 1..];
        if outside.cancelled(file) {
          thrown := true;
          return;
        }
        if |delivered| >= max {
          return;
        }
        ghost var before := disk;
        var taken, cancelled := HandleFile(outside, file);
        if cancelled {
          thrown := true;
          return;
        }
        assert disk == AfterVisit(file, before, outside) && taken == Taken(file, before, outside);
        delivered := delivered + taken;
      }
    }

    /** One turn of the loop: the observation delivered, if one was, or a cancelled callback. */
    method HandleFile(outside: Outside, file: Id) returns (taken: seq<Observation>, cancelled: bool)
      requires !outside.cancelled(file)
      modifies this`disk
      ensures cancelled <==> StopsAt(file, old(disk), outside)
      ensures cancelled ==> disk == old(disk)
      ensures !cancelled ==> disk == AfterVisit(file, old(disk), outside) && taken == Taken(file, old(disk), outside)
    {
      taken, cancelled := [], false;
      if !outside.readable(file) || file !in disk.pending {
        return;
      }
      match disk.pending[file] {
        case Corrupt =>
          TryMove(outside, file, outside.freshId(file));
        case Stored(obs) =>
          var answer := outside.deliver(obs);
          if answer.Cancelled? {
            cancelled := true;
            return;
          }
          if answer.Delivered? {
            TryMove(outside, file, obs.id);
            taken := [obs];
          }
      }
    }

    method TryMove(outside: Outside, from: Id, to: Id)
      modifies this`disk
      ensures disk == Moved(old(disk), outside, from, to)
    {
      if outside.movable(from) && from in disk.pending {
        disk := Disk(disk.pending - {from}, disk.sent + {to});
      }
    }
  }

  // ---------- what a drain selects ----------

  /** The files were written by this buffer: each holds the observation it is named after. */
  ghost predicate WellFormed(disk: Disk) {
    forall id :: id in disk.pending ==> disk.pending[id].Stored? && disk.pending[id].obs.id == id
  }

  /**
   The observations in these files that can be read and that the destination takes, in order, up to a
   cancellation.
   */
  function Deliverable(files: seq<Id>, disk: Disk, outside: Outside): seq<Observation> {
    if files == [] || StopsAt(files[0], disk, outside) then []
    else Taken(files[0], disk, outside) + Deliverable(files[1..], disk, outside)
  }

  /** Those of the observations whose files can be moved. */
  function Movable(observations: seq<Observation>, outside: Outside): seq<Observation> {
    if observations == [] then []
    else
      var n := |observations| - 1;
      Movable(observations[..n], outside) + if outside.movable(observations[n].id) then [observations[n]] else []
  }

  function FirstOf<T>(xs: seq<T>, n: int): seq<T> {
    if n <= 0 then [] else if n >= |xs| then xs else xs[..n]
  }

  function Ids(observations: seq<Observation>): set<Id> {
    set i | 0 <= i < |observations| :: observations[i].id
  }

  lemma {:induction false} OtherFilesStay(files: seq<Id>, disk: Disk, disk': Disk, outside: Outside, file: Id)
    requires file !in files
    requires disk'.pending == disk.pending || disk'.pending == disk.pending - {file}
    ensures Deliverable(files, disk', outside) == Deliverable(files, disk, outside)
  {
    if files != [] {
      OtherFilesStay(files[1..], disk, disk', outside, file);
    }
  }

  lemma VisitKeepsOthers(files: seq<Id>, disk: Disk, outside: Outside)
    requires files != [] && StrictlyAscending(files)
    ensures Deliverable(files[1..], AfterVisit(files[0], disk, outside), outside)
         == Deliverable(files[1..], disk, outside)
  {
    OtherFilesStay(files[1..], disk, AfterVisit(files[0], disk, outside), outside, files[0]);
  }

  /**
   Whatever fails, a drain delivers exactly the first `max` deliverable observations ahead of it. This holds of
   any files, corrupt ones and ones named after another observation included.
   */
  lemma {:induction false} DrainDelivers(files: seq<Id>, disk: Disk, outside: Outside, delivered: seq<Observation>,
                                         max: int)
    requires StrictlyAscending(files)
    ensures DrainFrom(files, disk, outside, delivered, max).delivered
         == delivered + FirstOf(Deliverable(files, disk, outside), max - |delivered|)
    decreases |files|
  {
    if files != [] && !StopsAt(files[0], disk, outside) && |delivered| < max {
      var taken := Taken(files[0], disk, outside);
      VisitKeepsOthers(files, disk, outside);
      DrainDelivers(files[1..], AfterVisit(files[0], disk, outside), outside, delivered + taken, max);
      FirstOfMore(taken, Deliverable(files[1..], disk, outside), delivered, max);
    } else {
      assert FirstOf(Deliverable(files, disk, outside), max - |delivered|) == [];
    }
  }

  lemma FirstOfMore(taken: seq<Observation>, others: seq<Observation>, delivered: seq<Observation>, max: int)
    requires |delivered| < max && |taken| <= 1
    ensures FirstOf(taken + others, max - |delivered|) == taken + FirstOf(others, max - |delivered + taken|)
    ensures delivered + taken + FirstOf(others, max - |delivered + taken|)
         == delivered + FirstOf(taken + others, max - |delivered|)
  {
    var first := FirstOf(others, max - |delivered + taken|);
    assert FirstOf(taken + others, max - |delivered|) == taken + first;
    assert delivered + taken + first == delivered + (taken + first);
  }

  /** What it leaves: the delivered files have moved, but for those whose move fails. */
  lemma {:induction false} DrainLeaves(files: seq<Id>, disk: Disk, outside: Outside, delivered: seq<Observation>,
                                       max: int)
    requires StrictlyAscending(files) && WellFormed(disk)
    ensures DrainFrom(files, disk, outside, delivered, max).disk
         == Without(disk, Movable(FirstOf(Deliverable(files, disk, outside), max - |delivered|), outside))
    decreases |files|
  {
    if files == [] || StopsAt(files[0], disk, outside) || |delivered| >= max {
      NothingMoves(disk, outside);
    } else {
      var taken, others := Taken(files[0], disk, outside), Deliverable(files[1..], disk, outside);
      VisitWellFormed(files[0], disk, outside);
      VisitKeepsOthers(files, disk, outside);
      DrainLeaves(files[1..], AfterVisit(files[0], disk, outside), outside, delivered + taken, max);
      FirstOfMore(taken, others, delivered, max);
      LeftStep(disk, outside, files[0], FirstOf(others, max - |delivered + taken|));
    }
  }

  lemma NothingMoves(disk: Disk, outside: Outside)
    ensures Without(disk, Movable([], outside)) == disk
  {
    WithoutNone(disk);
  }

  lemma VisitWellFormed(file: Id, disk: Disk, outside: Outside)
    requires WellFormed(disk)
    ensures WellFormed(AfterVisit(file, disk, outside))
  {
  }

  /** What one visit moves comes before what the later ones move. */
  lemma LeftStep(disk: Disk, outside: Outside, file: Id, later: seq<Observation>)
    requires WellFormed(disk)
    ensures Without(AfterVisit(file, disk, outside), Movable(later, outside))
         == Without(disk, Movable(Taken(file, disk, outside) + later, outside))
  {
    if Takes(file, disk, outside) {
      var obs := disk.pending[file].obs;
      MovableCons(obs, later, outside);
      if outside.movable(file) {
        WithoutFirst(disk, obs, Movable(later, outside));
      } else {
        assert [] + Movable(later, outside) == Movable(later, outside);
      }
    } else {
      assert [] + later == later;
    }
  }

  lemma {:induction false} MovableCons(obs: Observation, others: seq<Observation>, outside: Outside)
    ensures Movable([obs] + others, outside)
         == (if outside.movable(obs.id) then [obs] else []) + Movable(others, outside)
  {
    var all := [obs] + others;
    if others == [] {
      assert all == [obs] && all[..0] == [];
    } else {
      var n := |others| - 1;
      assert all[..n + 1] == [obs] + others[..n];
      MovableCons(obs, others[..n], outside);
    }
  }

  /** The disk after these observations have moved from `pending` to `sent`. */
  function Without(disk: Disk, observations: seq<Observation>): Disk {
    Disk(disk.pending - Ids(observations), disk.sent + Ids(observations))
  }

  lemma WithoutNone(disk: Disk)
    ensures Without(disk, []) == disk
  {
    assert Ids([]) == {};
    assert disk.pending - {} == disk.pending;
  }

  lemma WithoutFirst(disk: Disk, obs: Observation, more: seq<Observation>)
    ensures Without(Disk(disk.pending - {obs.id}, disk.sent + {obs.id}), more) == Without(disk, [obs] + more)
  {
    assert Ids([obs] + more) == {obs.id} + Ids(more) by {
      var all := [obs] + more;
      assert forall i :: 0 <= i < |more| ==> all[i + 1] == more[i];
      forall id | id in Ids(more)
        ensures id in Ids(all)
      {
        var i :| 0 <= i < |more| && more[i].id == id;
        assert all[i + 1].id == id;
      }
      assert all[0] == obs;
    }
    assert disk.pending - {obs.id} - Ids(more) == disk.pending - Ids([obs] + more);
  }

  // ---------- one drain ----------

  lemma {:induction false} ListingExists(names: set<Id>) returns (files: seq<Id>)
    ensures IsListing(files, names)
  {
    if names == {} {
      files := [];
    } else {
      var last := Largest(names);
      var rest := ListingExists(names - {last});
      files := rest + [last];
      assert forall i :: 0 <= i < |rest| ==> rest[i] in rest;
      forall id
        ensures id in files <==> id in names
      {
        assert id in rest <==> id in names - {last};
      }
    }
  }

  lemma {:induction false} Largest(names: set<Id>) returns (m: Id)
    requires names != {}
    ensures m in names && forall x :: x in names ==> x <= m
  {
    var x :| x in names;
    if names == {x} {
      m := x;
    } else {
      assert names - {x} != {};
      var y := Largest(names - {x});
      m := if x < y then y else x;
      assert forall z :: z in names ==> z == x || z in names - {x};
    }
  }

  ghost function Listing(names: set<Id>): (files: seq<Id>)
    ensures IsListing(files, names)
  {
    assert exists files :: IsListing(files, names) by {
      var files := ListingExists(names);
    }
    var files :| IsListing(files, names);
    files
  }

  ghost function Drained(disk: Disk, outside: Outside, max: int): DrainResult {
    DrainFrom(Listing(disk.pending.Keys), disk, outside, [], max)
  }

  /** The observations a drain of this disk could deliver, in name order. */
  ghost function Offer(disk: Disk, outside: Outside): seq<Observation> {
    Deliverable(Listing(disk.pending.Keys), disk, outside)
  }

  predicate DistinctIds(observations: seq<Observation>) {
    forall i, j :: 0 <= i < j < |observations| ==> observations[i].id != observations[j].id
  }

  predicate AscendingIds(observations: seq<Observation>) {
    forall i, j :: 0 <= i < j < |observations| ==> observations[i].id < observations[j].id
  }

  /** This observation is the one in its file, and is reached and taken. */
  ghost predicate Offered(o: Observation, files: seq<Id>, disk: Disk, outside: Outside) {
    && o.id in files && o.id in disk.pending && disk.pending[o.id] == Stored(o)
    && outside.readable(o.id) && outside.deliver(o) == Delivered
    && forall file :: file in files && file <= o.id ==> !StopsAt(file, disk, outside)
  }

  lemma {:induction false} DeliverableIds(files: seq<Id>, disk: Disk, outside: Outside)
    requires WellFormed(disk) && StrictlyAscending(files)
    ensures AscendingIds(Deliverable(files, disk, outside))
    ensures forall o :: o in Deliverable(files, disk, outside) <==> Offered(o, files, disk, outside)
  {
    if files != [] {
      var file, rest := files[0], files[1..];
      assert forall id :: id in files <==> id == file || id in rest;
      assert forall i :: 0 <= i < |rest| ==> file < rest[i];
      DeliverableIds(rest, disk, outside);
      var tail := Deliverable(rest, disk, outside);
      forall i | 0 <= i < |tail|
        ensures file < tail[i].id
      {
        assert tail[i] in tail;
        assert Offered(tail[i], rest, disk, outside);
      }
      forall o
        ensures o in Deliverable(files, disk, outside) <==> Offered(o, files, disk, outside)
      {
        OfferedStep(o, files, disk, outside);
      }
    }
  }

  lemma OfferedStep(o: Observation, files: seq<Id>, disk: Disk, outside: Outside)
    requires WellFormed(disk) && StrictlyAscending(files) && files != []
    ensures Offered(o, files, disk, outside)
        <==> && !StopsAt(files[0], disk, outside)
             && ((Takes(files[0], disk, outside) && o == disk.pending[files[0]].obs)
                 || Offered(o, files[1..], disk, outside))
  {
    var file, rest := files[0], files[1..];
    assert forall id :: id in files <==> id == file || id in rest;
    assert forall id :: id in rest ==> file < id;
  }

  /**
   The offer is every pending observation that is readable, taken and not behind a cancellation, once, in name
   order.
   */
  lemma OfferExact(disk: Disk, outside: Outside)
    requires WellFormed(disk)
    ensures forall o :: o in Offer(disk, outside) <==> Offered(o, Listing(disk.pending.Keys), disk, outside)
    ensures AscendingIds(Offer(disk, outside))
  {
    DeliverableIds(Listing(disk.pending.Keys), disk, outside);
  }

  /**
   A drain delivers exactly the first `max` observations of the offer, in name order, whatever reads, moves and
   deliveries fail and wherever it is cancelled; and it moves exactly the delivered files whose move works.
   */
  lemma DrainExact(disk: Disk, outside: Outside, max: int)
    ensures Drained(disk, outside, max).delivered == FirstOf(Offer(disk, outside), max)
    ensures WellFormed(disk) ==>
                Drained(disk, outside, max).disk == Without(disk, Movable(FirstOf(Offer(disk, outside), max), outside))
  {
    DrainOfListing(Listing(disk.pending.Keys), disk, outside, max);
    if WellFormed(disk) {
      DrainOfListingLeaves(Listing(disk.pending.Keys), disk, outside, max);
    }
  }

  lemma DrainOfListing(files: seq<Id>, disk: Disk, outside: Outside, max: int)
    requires StrictlyAscending(files)
    ensures DrainFrom(files, disk, outside, [], max).delivered == FirstOf(Deliverable(files, disk, outside), max)
  {
    DrainDelivers(files, disk, outside, [], max);
    NothingBefore(FirstOf(Deliverable(files, disk, outside), max));
  }

  lemma DrainOfListingLeaves(files: seq<Id>, disk: Disk, outside: Outside, max: int)
    requires StrictlyAscending(files) && WellFormed(disk)
    ensures DrainFrom(files, disk, outside, [], max).disk
         == Without(disk, Movable(FirstOf(Deliverable(files, disk, outside), max), outside))
  {
    DrainLeaves(files, disk, outside, [], max);
  }

  lemma NothingBefore(observations: seq<Observation>)
    ensures [] + observations == observations
  {
  }

  lemma {:induction false} IdsSize(observations: seq<Observation>)
    requires DistinctIds(observations)
    ensures |Ids(observations)| == |observations|
  {
    if observations == [] {
      assert Ids(observations) == {};
    } else {
      var n := |observations| - 1;
      IdsSize(observations[..n]);
      IdsAppend(observations[..n], [observations[n]]);
      assert observations == observations[..n] + [observations[n]];
      assert Ids([observations[n]]) == {observations[n].id} by {
        assert [observations[n]][0] == observations[n];
      }
    }
  }

  lemma IdsAppend(a: seq<Observation>, b: seq<Observation>)
    ensures Ids(a + b) == Ids(a) + Ids(b)
  {
    var all := a + b;
    forall id | id in Ids(a)
      ensures id in Ids(all)
    {
      var i :| 0 <= i < |a| && a[i].id == id;
      assert all[i].id == id;
    }
    forall id | id in Ids(b)
      ensures id in Ids(all)
    {
      var i :| 0 <= i < |b| && b[i].id == id;
      assert all[i + |a|].id == id;
    }
  }

  lemma FirstOfFacts(observations: seq<Observation>, n: int)
    requires DistinctIds(observations)
    ensures DistinctIds(FirstOf(observations, n))
    ensures forall o :: o in FirstOf(observations, n) ==> o in observations
  {
  }

  lemma {:induction false} MovableFacts(observations: seq<Observation>, outside: Outside)
    requires DistinctIds(observations)
    ensures DistinctIds(Movable(observations, outside))
    ensures forall o :: o in Movable(observations, outside) <==> o in observations && outside.movable(o.id)
    ensures (forall o :: o in observations ==> outside.movable(o.id)) ==> Movable(observations, outside) == observations
  {
    if observations != [] {
      var n := |observations| - 1;
      var before, last := observations[..n], observations[n];
      assert observations == before + [last];
      MovableFacts(before, outside);
      var moved := Movable(before, outside);
      forall i | 0 <= i < |moved|
        ensures moved[i].id != last.id
      {
        assert moved[i] in before;
      }
    }
  }

  /** `pending` shrinks by the delivered ids that could be moved, and each of those goes from `pending` to `sent`. */
  lemma DrainShrinks(disk: Disk, outside: Outside, max: int)
    requires WellFormed(disk)
    ensures var r := Drained(disk, outside, max);
      var moved := Movable(r.delivered, outside);
      && |r.disk.pending| == |disk.pending| - |moved|
      && Ids(moved) <= disk.pending.Keys
      && r.disk.pending.Keys == disk.pending.Keys - Ids(moved)
      && r.disk.sent == disk.sent + Ids(moved)
      && DistinctIds(r.delivered)
      && WellFormed(r.disk)
      && ((forall id :: id in disk.pending ==> outside.movable(id)) ==> moved == r.delivered)
  {
    DrainExact(disk, outside, max);
    OfferExact(disk, outside);
    var offer := Offer(disk, outside);
    var delivered := FirstOf(offer, max);
    FirstOfFacts(offer, max);
    MovableFacts(delivered, outside);
    forall o | o in delivered
      ensures o.id in disk.pending.Keys
    {
      assert Offered(o, Listing(disk.pending.Keys), disk, outside);
    }
    RemovalOf(disk, Movable(delivered, outside));
  }

  lemma RemovalOf(disk: Disk, moved: seq<Observation>)
    requires DistinctIds(moved) && WellFormed(disk)
    requires forall o :: o in moved ==> o.id in disk.pending.Keys
    ensures var left := Without(disk, moved);
      && |left.pending| == |disk.pending| - |moved|
      && Ids(moved) <= disk.pending.Keys
      && left.pending.Keys == disk.pending.Keys - Ids(moved)
      && WellFormed(left)
  {
    IdsSize(moved);
    forall id | id in Ids(moved)
      ensures id in disk.pending.Keys
    {
      var i :| 0 <= i < |moved| && moved[i].id == id;
      assert moved[i] in moved;
    }
    SizeOfRemoval(disk.pending, Ids(moved));
  }

  lemma SizeOfRemoval(m: map<Id, FileContent>, keys: set<Id>)
    requires keys <= m.Keys
    ensures |m - keys| == |m| - |keys| && (m - keys).Keys == m.Keys - keys
  {
    assert (m - keys).Keys == m.Keys - keys;
    assert |m.Keys - keys| == |m.Keys| - |keys|;
  }

  // ---------- what a drain does with every file ----------

  /** The file goes: it is read, is corrupt or is taken, and can be moved. */
  predicate Goes(file: Id, disk: Disk, outside: Outside) {
    && file in disk.pending && outside.readable(file) && outside.movable(file)
    && (disk.pending[file].Corrupt? || outside.deliver(disk.pending[file].obs).Delivered?)
  }

  /** Where a file that goes is found afterwards: under its observation's id, or if corrupt under a fresh one. */
  function SentAs(file: Id, disk: Disk, outside: Outside): Id
    requires file in disk.pending
  {
    match disk.pending[file]
    case Corrupt => outside.freshId(file)
    case Stored(obs) => obs.id
  }

  /** These files have been visited: those of them that go are gone, and nothing else has happened. */
  ghost predicate Visited(files: seq<Id>, disk: Disk, disk': Disk, outside: Outside) {
    && (forall file :: file in disk'.pending <==> file in disk.pending && !(file in files && Goes(file, disk, outside)))
    && (forall id :: id in disk'.sent <==> id in disk.sent || SentFrom(files, disk, outside, id))
  }

  /** One of the files goes to this name. */
  ghost predicate SentFrom(files: seq<Id>, disk: Disk, outside: Outside, id: Id) {
    exists file :: file in files && Goes(file, disk, outside) && SentAs(file, disk, outside) == id
  }

  lemma OneVisit(file: Id, disk: Disk, outside: Outside)
    requires !StopsAt(file, disk, outside)
    ensures Visited([file], disk, AfterVisit(file, disk, outside), outside)
    ensures OthersKept(file, disk, AfterVisit(file, disk, outside))
  {
    assert file in [file];
  }

  /** The other files are as they were. */
  ghost predicate OthersKept(file: Id, disk: Disk, next: Disk) {
    forall other :: other != file ==>
      && (other in next.pending <==> other in disk.pending)
      && (other in disk.pending ==> next.pending[other] == disk.pending[other])
  }

  lemma SentByRest(first: Id, rest: seq<Id>, disk: Disk, next: Disk, outside: Outside, id: Id)
    requires first !in rest && OthersKept(first, disk, next)
    ensures SentFrom([first] + rest, disk, outside, id)
        <==> SentFrom([first], disk, outside, id) || SentFrom(rest, next, outside, id)
  {
    var files := [first] + rest;
    if file :| file in rest && Goes(file, next, outside) && SentAs(file, next, outside) == id {
      assert file in files && Goes(file, disk, outside) && SentAs(file, disk, outside) == id;
    }
    if file :| file in files && Goes(file, disk, outside) && SentAs(file, disk, outside) == id {
      if file == first {
        assert file in [first];
      } else {
        assert file in rest && Goes(file, next, outside) && SentAs(file, next, outside) == id;
      }
    }
    if file :| file in [first] && Goes(file, disk, outside) && SentAs(file, disk, outside) == id {
      assert file in files;
    }
  }

  lemma VisitRest(first: Id, rest: seq<Id>, disk: Disk, next: Disk, end: Disk, outside: Outside)
    requires first !in rest && OthersKept(first, disk, next)
    requires Visited([first], disk, next, outside) && Visited(rest, next, end, outside)
    ensures Visited([first] + rest, disk, end, outside)
  {
    var files := [first] + rest;
    forall file
      ensures file in end.pending <==> file in disk.pending && !(file in files && Goes(file, disk, outside))
    {
      assert file in files <==> file in [first] || file in rest;
      assert file != first ==> Goes(file, next, outside) == Goes(file, disk, outside);
    }
    forall id
      ensures id in end.sent <==> id in disk.sent || SentFrom(files, disk, outside, id)
    {
      SentByRest(first, rest, disk, next, outside, id);
    }
  }

  lemma {:induction false} AllVisited(files: seq<Id>, disk: Disk, outside: Outside, delivered: seq<Observation>,
                                      max: int)
    requires StrictlyAscending(files)
    requires var r := DrainFrom(files, disk, outside, delivered, max); !r.thrown && |r.delivered| < max
    ensures Visited(files, disk, DrainFrom(files, disk, outside, delivered, max).disk, outside)
    decreases |files|
  {
    if files != [] {
      var next, taken := AfterVisit(files[0], disk, outside), Taken(files[0], disk, outside);
      DrainGrows(files, disk, outside, delivered, max);
      AllVisited(files[1..], next, outside, delivered + taken, max);
      OneVisit(files[0], disk, outside);
      assert files == [files[0]] + files[1..];
      VisitRest(files[0], files[1..], disk, next, DrainFrom(files[1..], next, outside, delivered + taken, max).disk,
                outside);
    }
  }

  lemma {:induction false} DrainGrows(files: seq<Id>, disk: Disk, outside: Outside, delivered: seq<Observation>,
                                      max: int)
    ensures |DrainFrom(files, disk, outside, delivered, max).delivered| >= |delivered|
    decreases |files|
  {
    if files != [] && !StopsAt(files[0], disk, outside) && |delivered| < max {
      DrainGrows(files[1..], AfterVisit(files[0], disk, outside), outside,
                 delivered + Taken(files[0], disk, outside), max);
    }
  }

  /**
   A drain that is not cancelled and delivers fewer than `max` has visited every file, whatever the files hold:
   exactly the corrupt and the taken ones that could be read and moved are gone, each to its name in `sent`.
   */
  lemma FullVisit(disk: Disk, outside: Outside, max: int)
    requires !Drained(disk, outside, max).thrown && |Drained(disk, outside, max).delivered| < max
    ensures var r := Drained(disk, outside, max);
      && (forall file :: file in r.disk.pending <==> file in disk.pending && !Goes(file, disk, outside))
      && (forall id :: id in r.disk.sent
            <==> id in disk.sent || exists file :: Goes(file, disk, outside) && SentAs(file, disk, outside) == id)
  {
    var files := Listing(disk.pending.Keys);
    AllVisited(files, disk, outside, [], max);
    assert forall file :: Goes(file, disk, outside) ==> file in files;
    forall id | exists file :: Goes(file, disk, outside) && SentAs(file, disk, outside) == id
      ensures SentFrom(files, disk, outside, id)
    {
      var file :| Goes(file, disk, outside) && SentAs(file, disk, outside) == id;
      assert file in files;
    }
  }

  /**
   The drain, with n deliveries made, throws at the k-th file: everything before it is passed below the maximum,
   and either the token is cancelled, which is looked at first, or the callback is, below the maximum.
   */
  predicate ThrowsAt(files: seq<Id>, disk: Disk, outside: Outside, n: nat, max: int, k: nat)
    requires k < |files|
  {
    && (forall j :: 0 <= j < k ==>
          !StopsAt(files[j], disk, outside) && n + |Deliverable(files[..j], disk, outside)| < max)
    && (|| outside.cancelled(files[k])
        || (&& n + |Deliverable(files[..k], disk, outside)| < max
            && files[k] in disk.pending && outside.readable(files[k]) && disk.pending[files[k]].Stored?
            && outside.deliver(disk.pending[files[k]].obs) == Cancelled))
  }

  lemma LaterFiles(files: seq<Id>, disk: Disk, outside: Outside, j: nat)
    requires StrictlyAscending(files) && j + 1 < |files|
    requires !StopsAt(files[0], disk, outside)
    ensures var next := AfterVisit(files[0], disk, outside);
      && StopsAt(files[1..][j], next, outside) == StopsAt(files[j + 1], disk, outside)
      && |Deliverable(files[..j + 1], disk, outside)|
         == |Taken(files[0], disk, outside)| + |Deliverable(files[1..][..j], next, outside)|
  {
    assert files[..j + 1][1..] == files[1..][..j] && files[..j + 1][0] == files[0];
    VisitKeepsOthers(files[..j + 1], disk, outside);
  }

  lemma ThrowsLater(files: seq<Id>, disk: Disk, outside: Outside, n: nat, max: int, k: nat)
    requires StrictlyAscending(files) && k + 1 < |files| && n < max
    requires !StopsAt(files[0], disk, outside)
    ensures ThrowsAt(files, disk, outside, n, max, k + 1)
        <==> ThrowsAt(files[1..], AfterVisit(files[0], disk, outside), outside,
                      n + |Taken(files[0], disk, outside)|, max, k)
  {
    var rest, next := files[1..], AfterVisit(files[0], disk, outside);
    forall j | 0 <= j <= k
      ensures StopsAt(rest[j], next, outside) == StopsAt(files[j + 1], disk, outside)
      ensures |Deliverable(files[..j + 1], disk, outside)|
           == |Taken(files[0], disk, outside)| + |Deliverable(rest[..j], next, outside)|
    {
      LaterFiles(files, disk, outside, j);
    }
    var m := n + |Taken(files[0], disk, outside)|;
    if ThrowsAt(files, disk, outside, n, max, k + 1) {
      forall j | 0 <= j < k
        ensures !StopsAt(rest[j], next, outside) && m + |Deliverable(rest[..j], next, outside)| < max
      {
        assert !StopsAt(files[j + 1], disk, outside);
      }
    }
    if ThrowsAt(rest, next, outside, m, max, k) {
      forall j | 0 <= j < k + 1
        ensures !StopsAt(files[j], disk, outside) && n + |Deliverable(files[..j], disk, outside)| < max
      {
        if j > 0 {
          assert !StopsAt(rest[j - 1], next, outside);
        }
      }
    }
  }

  /** A drain throws exactly when some file is one it throws at. */
  lemma {:induction false} ThrownIff(files: seq<Id>, disk: Disk, outside: Outside, delivered: seq<Observation>,
                                     max: int)
    requires StrictlyAscending(files)
    ensures DrainFrom(files, disk, outside, delivered, max).thrown
        <==> exists k :: 0 <= k < |files| && ThrowsAt(files, disk, outside, |delivered|, max, k)
    decreases |files|
  {
    if files != [] {
      assert Deliverable(files[..0], disk, outside) == [];
      if StopsAt(files[0], disk, outside) || |delivered| >= max {
        assert ThrowsAt(files, disk, outside, |delivered|, max, 0)
          <==> outside.cancelled(files[0]) || |delivered| < max;
      } else {
        var taken, next := Taken(files[0], disk, outside), AfterVisit(files[0], disk, outside);
        ThrownIff(files[1..], next, outside, delivered + taken, max);
        forall k | 0 <= k < |files| - 1
          ensures ThrowsAt(files, disk, outside, |delivered|, max, k + 1)
              <==> ThrowsAt(files[1..], next, outside, |delivered + taken|, max, k)
        {
          ThrowsLater(files, disk, outside, |delivered|, max, k);
        }
        assert !ThrowsAt(files, disk, outside, |delivered|, max, 0);
        if k :| 0 <= k < |files| && ThrowsAt(files, disk, outside, |delivered|, max, k) {
          assert ThrowsAt(files[1..], next, outside, |delivered + taken|, max, k - 1);
        }
        if k: nat :| k < |files| - 1 && ThrowsAt(files[1..], next, outside, |delivered + taken|, max, k) {
          assert ThrowsAt(files, disk, outside, |delivered|, max, k + 1);
        }
      }
    }
  }

  // ---------- repeated drains ----------

  ghost predicate Accepting(outside: Outside) {
    && (forall id :: !outside.cancelled(id) && outside.readable(id) && outside.movable(id))
    && (forall obs :: outside.deliver(obs).Delivered?)
  }

  ghost function AfterDrains(disk: Disk, outside: Outside, max: int, k: nat): Disk
    decreases k
  {
    if k == 0 then disk else AfterDrains(Drained(disk, outside, max).disk, outside, max, k - 1)
  }

  lemma {:induction false} AllDeliverable(files: seq<Id>, disk: Disk, outside: Outside)
    requires WellFormed(disk) && Accepting(outside)
    requires forall id :: id in files ==> id in disk.pending
    ensures |Deliverable(files, disk, outside)| == |files|
  {
    if files != [] {
      AllDeliverable(files[1..], disk, outside);
    }
  }

  lemma FullDrain(disk: Disk, outside: Outside, max: int)
    requires WellFormed(disk) && Accepting(outside) && max >= 1
    ensures WellFormed(Drained(disk, outside, max).disk)
    ensures |Drained(disk, outside, max).disk.pending| == if |disk.pending| <= max then 0 else |disk.pending| - max
  {
    DrainExact(disk, outside, max);
    DrainShrinks(disk, outside, max);
    AllDeliverable(Listing(disk.pending.Keys), disk, outside);
    ListingSize(Listing(disk.pending.Keys), disk.pending.Keys);
  }

  lemma OneMoreRound(n: nat, k: nat, max: int)
    requires k > 0 && max >= 1
    ensures n <= k * max <==> (if n <= max then 0 else n - max) <= (k - 1) * max
  {
    assert k * max == (k - 1) * max + max;
    assert (k - 1) * max >= 0;
  }

  /** With an accepting destination, k drains of up to `max` empty the buffer exactly when k * max covers it. */
  lemma {:induction false} RepeatedDrainsEmpty(disk: Disk, outside: Outside, max: int, k: nat)
    requires WellFormed(disk) && Accepting(outside) && max >= 1
    ensures AfterDrains(disk, outside, max, k).pending == map[] <==> |disk.pending| <= k * max
    decreases k
  {
    if k > 0 {
      FullDrain(disk, outside, max);
      RepeatedDrainsEmpty(Drained(disk, outside, max).disk, outside, max, k - 1);
      OneMoreRound(|disk.pending|, k, max);
    }
  }

  // ---------- runs of operations ----------

  datatype Operation = EnqueueOp(obs: Observation, writable: bool) | DrainOp(outside: Outside, max: int) | RestartOp

  /** The buffer, and what destinations have confirmed so far. */
  datatype Buffer = Buffer(disk: Disk, seen: set<Id>, log: seq<Observation>)

  ghost function Step(b: Buffer, op: Operation): Buffer {
    match op
    case EnqueueOp(obs, writable) =>
      b.(disk := Enqueued(b.disk, b.seen, obs, writable), seen := SeenAfter(b.disk, b.seen, obs, writable))
    case DrainOp(outside, max) =>
      var r := Drained(b.disk, outside, max);
      b.(disk := r.disk, log := b.log + r.delivered)
    case RestartOp => b.(seen := {})
  }

  ghost function After(b: Buffer, ops: seq<Operation>): Buffer {
    if ops == [] then b else Step(After(b, ops[..|ops| - 1]), ops[|ops| - 1])
  }

  /** The ids an operation adds to those the buffer answers for. */
  function Accepts(op: Operation): set<Id> {
    if op.EnqueueOp? && op.writable then {op.obs.id} else {}
  }

  /** The ids of the enqueues whose write works, or would have. */
  function EnqueuedIds(ops: seq<Operation>): set<Id> {
    set i | 0 <= i < |ops| && ops[i].EnqueueOp? && ops[i].writable :: ops[i].obs.id
  }

  lemma OneMoreEnqueued(ops: seq<Operation>, op: Operation)
    ensures EnqueuedIds(ops + [op]) == EnqueuedIds(ops) + Accepts(op)
  {
    var all := ops + [op];
    forall id | id in EnqueuedIds(ops)
      ensures id in EnqueuedIds(all)
    {
      var i :| 0 <= i < |ops| && ops[i].EnqueueOp? && ops[i].writable && ops[i].obs.id == id;
      assert all[i] == ops[i];
    }
    assert all[|ops|] == op;
  }
}
