/**
 How often an observation is delivered over a run of enqueues, drains and restarts in which anything may
 fail: once when it reaches `sent`, and once more for every drain whose move of its file failed.
 */
module DeliveryRuns {
  import opened StoreAndForward
  import BufferRefinement

  // ---------- counting deliveries ----------

  /** How many of the observations have this id. */
  function Count(observations: seq<Observation>, id: Id): nat {
    if observations == [] then 0
    else
      var n := |observations| - 1;
      Count(observations[..n], id) + if observations[n].id == id then 1 else 0
  }

  function OneIf(b: bool): nat {
    if b then 1 else 0
  }

  lemma {:induction false} CountAppend(a: seq<Observation>, b: seq<Observation>, id: Id)
    ensures Count(a + b, id) == Count(a, id) + Count(b, id)
  {
    if b == [] {
      assert a + b == a;
    } else {
      var n := |b| - 1;
      assert (a + b)[..|a| + n] == a + b[..n];
      CountAppend(a, b[..n], id);
    }
  }

  lemma {:induction false} CountIsMembership(observations: seq<Observation>, id: Id)
    ensures Count(observations, id) > 0 <==> id in Ids(observations)
  {
    if observations != [] {
      var n := |observations| - 1;
      CountIsMembership(observations[..n], id);
      IdsAppend(observations[..n], [observations[n]]);
      assert observations == observations[..n] + [observations[n]];
      assert [observations[n]][0].id in Ids([observations[n]]);
    }
  }

  lemma {:induction false} CountOfDistinct(observations: seq<Observation>, id: Id)
    requires DistinctIds(observations)
    ensures Count(observations, id) == OneIf(id in Ids(observations))
  {
    if observations != [] {
      var n := |observations| - 1;
      CountOfDistinct(observations[..n], id);
      CountIsMembership(observations[..n], id);
      CountIsMembership(observations, id);
    }
  }

  /** Ids are distinct exactly when none is counted twice. */
  lemma {:induction false} DistinctIffCounts(observations: seq<Observation>)
    ensures DistinctIds(observations) <==> forall id :: Count(observations, id) <= 1
  {
    if DistinctIds(observations) {
      forall id
        ensures Count(observations, id) <= 1
      {
        CountOfDistinct(observations, id);
      }
    } else {
      var i, j :| 0 <= i < j < |observations| && observations[i].id == observations[j].id;
      CountTwice(observations, i, j);
    }
  }

  lemma CountTwice(observations: seq<Observation>, i: nat, j: nat)
    requires i < j < |observations| && observations[i].id == observations[j].id
    ensures Count(observations, observations[j].id) >= 2
  {
    var id := observations[j].id;
    var before, after := observations[..j], observations[j..];
    assert observations == before + after;
    CountAppend(before, after, id);
    CountIsMembership(before, id);
    CountIsMembership(after, id);
    assert before[i].id in Ids(before) && after[0].id in Ids(after);
  }

  // ---------- one drain ----------

  /** The drain delivers the id and then cannot move its file. */
  ghost predicate Stuck(disk: Disk, outside: Outside, max: int, id: Id) {
    id in Ids(Drained(disk, outside, max).delivered) && !outside.movable(id)
  }

  lemma IdsOfMovable(observations: seq<Observation>, outside: Outside, id: Id)
    requires DistinctIds(observations)
    ensures id in Ids(Movable(observations, outside)) <==> id in Ids(observations) && outside.movable(id)
  {
    var moved := Movable(observations, outside);
    MovableFacts(observations, outside);
    if id in Ids(moved) {
      var i :| 0 <= i < |moved| && moved[i].id == id;
      assert moved[i] in moved;
      var j :| 0 <= j < |observations| && observations[j] == moved[i];
      assert observations[j].id == id;
    }
    if id in Ids(observations) && outside.movable(id) {
      var j :| 0 <= j < |observations| && observations[j].id == id;
      assert observations[j] in moved;
      var i :| 0 <= i < |moved| && moved[i] == observations[j];
      assert moved[i].id == id;
    }
  }

  /** A drain delivers an id once if the id then reaches `sent`, and once if it gets stuck. */
  lemma DrainCounts(disk: Disk, outside: Outside, max: int, id: Id)
    requires WellFormed(disk) && disk.pending.Keys !! disk.sent
    ensures var r := Drained(disk, outside, max);
      Count(r.delivered, id) == OneIf(Stuck(disk, outside, max, id)) + OneIf(id in r.disk.sent && id !in disk.sent)
  {
    var r := Drained(disk, outside, max);
    DrainShrinks(disk, outside, max);
    CountOfDistinct(r.delivered, id);
    IdsOfMovable(r.delivered, outside, id);
  }

  // ---------- runs ----------

  /** The buffer after a run that starts with these files and an empty memory. */
  ghost function RunFrom(start: Disk, ops: seq<Operation>): Buffer {
    After(Buffer(start, {}, []), ops)
  }

  /** How many drains of the run get stuck with the id. */
  ghost function StuckDrains(start: Disk, ops: seq<Operation>, id: Id): nat {
    if ops == [] then 0
    else
      var n := |ops| - 1;
      var op, disk := ops[n], RunFrom(start, ops[..n]).disk;
      StuckDrains(start, ops[..n], id) + OneIf(op.DrainOp? && Stuck(disk, op.outside, op.max, id))
  }

  /** The id has come to `sent` during the run. */
  ghost predicate NewlySent(start: Disk, ops: seq<Operation>, id: Id) {
    id in RunFrom(start, ops).disk.sent && id !in start.sent
  }

  /** What the failing moves and the final place of an id say about its deliveries. */
  ghost function Deliveries(start: Disk, ops: seq<Operation>, id: Id): nat {
    StuckDrains(start, ops, id) + OneIf(NewlySent(start, ops, id))
  }

  /**
   The exact number of deliveries, whatever fails: in every run an id is delivered once if it has newly reached
   `sent`, and once more for every drain that delivered it and could not move its file.
   */
  lemma {:induction false} DeliveriesExact(start: Disk, ops: seq<Operation>, id: Id)
    requires WellFormed(start) && start.pending.Keys !! start.sent
    ensures Count(RunFrom(start, ops).log, id) == Deliveries(start, ops, id)
  {
    if ops != [] {
      var n := |ops| - 1;
      var b := RunFrom(start, ops[..n]);
      DeliveriesExact(start, ops[..n], id);
      var states := BufferRefinement.OperationsAreRuns(start, ops[..n]);
      BufferRefinement.NothingLostWhateverFails(start, ops[..n]);
      if ops[n].DrainOp? {
        var r := Drained(b.disk, ops[n].outside, ops[n].max);
        DrainCounts(b.disk, ops[n].outside, ops[n].max, id);
        CountAppend(b.log, r.delivered, id);
        DrainShrinks(b.disk, ops[n].outside, ops[n].max);
      }
    }
  }

  /** Nothing is delivered twice exactly when no id gets stuck twice, or gets stuck and is sent. */
  lemma DeliveredOnceIff(start: Disk, ops: seq<Operation>)
    requires WellFormed(start) && start.pending.Keys !! start.sent
    ensures DistinctIds(RunFrom(start, ops).log) <==> forall id :: Deliveries(start, ops, id) <= 1
  {
    var log := RunFrom(start, ops).log;
    DistinctIffCounts(log);
    if DistinctIds(log) {
      forall id
        ensures Deliveries(start, ops, id) <= 1
      {
        DeliveriesExact(start, ops, id);
      }
    }
    if forall id :: Deliveries(start, ops, id) <= 1 {
      forall id
        ensures Count(log, id) <= 1
      {
        DeliveriesExact(start, ops, id);
      }
    }
  }

  // ---------- what is delivered is what was enqueued ----------

  /** The i-th operation is the first enqueue of this id whose write works, and it enqueues this observation. */
  ghost predicate FirstEnqueueAt(ops: seq<Operation>, obs: Observation, i: nat)
    requires i < |ops|
  {
    && ops[i] == EnqueueOp(obs, true)
    && forall j :: 0 <= j < i && ops[j].EnqueueOp? && ops[j].writable ==> ops[j].obs.id != obs.id
  }

  /**
   The observation is the one its id stands for: the one pending at the start, or for an id new to the buffer
   the one of the first enqueue of that id.
   */
  ghost predicate Original(start: Disk, ops: seq<Operation>, obs: Observation) {
    if obs.id in start.pending || obs.id in start.sent
    then obs.id in start.pending && start.pending[obs.id] == Stored(obs)
    else exists i :: 0 <= i < |ops| && FirstEnqueueAt(ops, obs, i)
  }

  /** Every pending file holds, under its own id, an observation with the property, and so does the log. */
  ghost predicate AllOriginal(start: Disk, ops: seq<Operation>, b: Buffer) {
    && (forall id :: id in b.disk.pending ==>
          b.disk.pending[id].Stored? && b.disk.pending[id].obs.id == id && Original(start, ops, b.disk.pending[id].obs))
    && (forall o :: o in b.log ==> Original(start, ops, o))
  }

  lemma OriginalStays(start: Disk, ops: seq<Operation>, op: Operation, obs: Observation)
    requires Original(start, ops, obs)
    ensures Original(start, ops + [op], obs)
  {
    if obs.id !in start.pending && obs.id !in start.sent {
      var i :| 0 <= i < |ops| && FirstEnqueueAt(ops, obs, i);
      assert FirstEnqueueAt(ops + [op], obs, i);
    }
  }

  /** An enqueue of an id that is in neither directory is the first of that id. */
  lemma NewIsOriginal(start: Disk, ops: seq<Operation>, obs: Observation)
    requires obs.id !in start.pending.Keys + start.sent + EnqueuedIds(ops)
    ensures Original(start, ops + [EnqueueOp(obs, true)], obs)
  {
    forall j | 0 <= j < |ops| && ops[j].EnqueueOp? && ops[j].writable
      ensures ops[j].obs.id != obs.id
    {
      assert ops[j].obs.id in EnqueuedIds(ops);
    }
    assert FirstEnqueueAt(ops + [EnqueueOp(obs, true)], obs, |ops|);
  }

  /** A drain delivers what the files hold, and changes none of them. */
  lemma DrainKeepsContents(disk: Disk, outside: Outside, max: int)
    requires WellFormed(disk)
    ensures var r := Drained(disk, outside, max);
      && (forall id :: id in r.disk.pending ==> id in disk.pending && r.disk.pending[id] == disk.pending[id])
      && (forall o :: o in r.delivered ==> o.id in disk.pending && disk.pending[o.id] == Stored(o))
  {
    DrainExact(disk, outside, max);
    OfferExact(disk, outside);
    var offer := Offer(disk, outside);
    FirstOfFacts(offer, max);
    forall o | o in FirstOf(offer, max)
      ensures o.id in disk.pending && disk.pending[o.id] == Stored(o)
    {
      assert Offered(o, Listing(disk.pending.Keys), disk, outside);
    }
  }

  /**
   Whatever fails, nothing is ever stored or delivered but whole observations as they were first enqueued, or as
   they were pending at the start.
   */
  lemma {:induction false} ContentsKept(start: Disk, ops: seq<Operation>)
    requires WellFormed(start) && start.pending.Keys !! start.sent
    ensures AllOriginal(start, ops, RunFrom(start, ops))
  {
    if ops != [] {
      var n := |ops| - 1;
      var before, op := ops[..n], ops[n];
      var b := RunFrom(start, before);
      assert ops == before + [op];
      ContentsKept(start, before);
      BufferRefinement.NothingLostWhateverFails(start, before);
      forall o | Original(start, before, o)
        ensures Original(start, ops, o)
      {
        OriginalStays(start, before, op, o);
      }
      match op
      case EnqueueOp(obs, writable) =>
        if !Known(b.disk, b.seen, obs.id) && writable {
          NewIsOriginal(start, before, obs);
        }
      case DrainOp(outside, max) => DrainKeepsContents(b.disk, outside, max);
      case RestartOp =>
    }
  }

  /** An id that newly reaches `sent` has been delivered, as the observation that was first enqueued under it. */
  lemma SentWasDelivered(start: Disk, ops: seq<Operation>, id: Id) returns (obs: Observation)
    requires WellFormed(start) && start.pending.Keys !! start.sent
    requires NewlySent(start, ops, id)
    ensures obs.id == id && obs in RunFrom(start, ops).log && Original(start, ops, obs)
  {
    var log := RunFrom(start, ops).log;
    DeliveriesExact(start, ops, id);
    CountIsMembership(log, id);
    var i :| 0 <= i < |log| && log[i].id == id;
    obs := log[i];
    ContentsKept(start, ops);
  }

  // ---------- working moves ----------

  /** Moves work. Reads and writes may fail, and the callback may refuse or be cancelled. */
  ghost predicate MovesWork(op: Operation) {
    op.DrainOp? ==> forall id :: op.outside.movable(id)
  }

  lemma {:induction false} NeverStuck(start: Disk, ops: seq<Operation>, id: Id)
    requires forall op :: op in ops ==> MovesWork(op)
    ensures StuckDrains(start, ops, id) == 0
  {
    if ops != [] {
      var n := |ops| - 1;
      assert ops[n] in ops;
      NeverStuck(start, ops[..n], id);
    }
  }

  /** With working moves destinations confirm exactly the newly sent ids, each of them once. */
  lemma RunsDeliverOnce(start: Disk, ops: seq<Operation>)
    requires WellFormed(start) && start.pending.Keys !! start.sent
    requires forall op :: op in ops ==> MovesWork(op)
    ensures DistinctIds(RunFrom(start, ops).log)
    ensures Ids(RunFrom(start, ops).log) == RunFrom(start, ops).disk.sent - start.sent
    ensures RunFrom(start, ops).disk.pending.Keys !! RunFrom(start, ops).disk.sent
    ensures RunFrom(start, ops).disk.pending.Keys + RunFrom(start, ops).disk.sent
         == start.pending.Keys + start.sent + EnqueuedIds(ops)
  {
    BufferRefinement.NothingLostWhateverFails(start, ops);
    var b := RunFrom(start, ops);
    forall id
      ensures Deliveries(start, ops, id) <= 1
      ensures id in Ids(b.log) <==> id in b.disk.sent - start.sent
    {
      NeverStuck(start, ops, id);
      DeliveriesExact(start, ops, id);
      CountIsMembership(b.log, id);
    }
    DeliveredOnceIff(start, ops);
  }

  // ---------- a move that fails ----------

  /** Everything is read and delivered, and nothing can be moved. */
  function StuckOutside(): Outside {
    Outside(_ => false, _ => true, _ => Delivered, _ => false, id => id)
  }

  lemma StuckDrain(obs: Observation, sent: set<Id>)
    ensures Drained(Disk(map[obs.id := Stored(obs)], sent), StuckOutside(), 1)
         == DrainResult(Disk(map[obs.id := Stored(obs)], sent), [obs], false)
  {
    var disk, outside := Disk(map[obs.id := Stored(obs)], sent), StuckOutside();
    var files := [obs.id];
    ListingUnique(files, Listing(disk.pending.Keys), disk.pending.Keys);
    assert Taken(obs.id, disk, outside) == [obs] && AfterVisit(obs.id, disk, outside) == disk;
    assert DrainFrom(files[1..], disk, outside, [] + [obs], 1) == DrainResult(disk, [obs], false);
  }

  /** One locked file is enough: two drains deliver its observation twice. */
  lemma StuckMoveRedelivers(obs: Observation)
    ensures RunFrom(Disk(map[obs.id := Stored(obs)], {}), [DrainOp(StuckOutside(), 1), DrainOp(StuckOutside(), 1)]).log
         == [obs, obs]
  {
    var start, op := Disk(map[obs.id := Stored(obs)], {}), DrainOp(StuckOutside(), 1);
    StuckDrain(obs, {});
    assert [op, op][..1] == [op] && [op][..0] == [];
    assert RunFrom(start, []) == Buffer(start, {}, []);
    assert RunFrom(start, [op]) == Buffer(start, {}, [obs]);
    assert [obs] + [obs] == [obs, obs];
  }
}
