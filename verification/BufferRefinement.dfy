/**
 The operations of StoreAndForward as runs of the small steps of BufferInterleaving: an enqueue or a
 drain that runs alone, whatever fails in it, is one of the interleavings that lose nothing.
 */
module BufferRefinement {
  import opened StoreAndForward
  import I = BufferInterleaving

  /** Each state is one small step from the state before it. */
  ghost predicate Path(states: seq<I.State>) {
    states != [] && forall i :: 0 <= i < |states| - 1 ==> I.Next(states[i], states[i + 1])
  }

  ghost predicate PathFromTo(states: seq<I.State>, s: I.State, s': I.State) {
    Path(states) && states[0] == s && states[|states| - 1] == s'
  }

  lemma Extend(states: seq<I.State>, s: I.State, s': I.State, s'': I.State, step: I.Step) returns (longer: seq<I.State>)
    requires PathFromTo(states, s, s') && I.NextBy(s', s'', step)
    ensures PathFromTo(longer, s, s'') && states <= longer
  {
    longer := states + [s''];
    forall i | 0 <= i < |longer| - 1
      ensures I.Next(longer[i], longer[i + 1])
    {
      if i < |states| - 1 {
        assert I.Next(states[i], states[i + 1]);
      }
    }
  }

  lemma Join(a: seq<I.State>, b: seq<I.State>, s: I.State, s': I.State, s'': I.State) returns (ab: seq<I.State>)
    requires PathFromTo(a, s, s') && PathFromTo(b, s', s'')
    ensures PathFromTo(ab, s, s'') && a <= ab
  {
    ab := a + b[1..];
    forall i | 0 <= i < |ab| - 1
      ensures I.Next(ab[i], ab[i + 1])
    {
      if i < |a| - 1 {
        assert I.Next(a[i], a[i + 1]);
      } else {
        var j := i - (|a| - 1);
        assert ab[i] == b[j] && ab[i + 1] == b[j + 1];
        assert I.Next(b[j], b[j + 1]);
      }
    }
  }

  /** What the small steps keep besides the directories: `_seen`, and the two histories. */
  datatype Books = Books(seen: set<Id>, accepted: set<Id>, confirmed: set<Id>)

  /** The buffer between operations: nobody holds the gate, no drain is under way. */
  function Quiet(disk: Disk, books: Books): I.State {
    I.State(disk.pending.Keys, disk.sent, books.seen, I.Idle, map[], books.accepted, books.confirmed)
  }

  // ---------- enqueue ----------

  function BooksAfterEnqueue(disk: Disk, books: Books, obs: Observation, writable: bool): Books {
    Books(SeenAfter(disk, books.seen, obs, writable),
          books.accepted + Accepts(EnqueueOp(obs, writable)),
          books.confirmed)
  }

  /** An enqueue that runs alone takes the steps of its checks, in order; if the write throws, the gate is released. */
  lemma EnqueueIsAPath(disk: Disk, books: Books, obs: Observation, writable: bool) returns (states: seq<I.State>)
    requires books.accepted == disk.pending.Keys + disk.sent && books.seen <= books.accepted
    ensures PathFromTo(states, Quiet(disk, books),
                       Quiet(Enqueued(disk, books.seen, obs, writable), BooksAfterEnqueue(disk, books, obs, writable)))
  {
    var id := obs.id;
    var s := Quiet(disk, books);
    var end := Quiet(Enqueued(disk, books.seen, obs, writable), BooksAfterEnqueue(disk, books, obs, writable));
    var s1 := s.(enqueuer := I.Entered(id));
    states := Extend([s], s, s, s1, I.EnterStep(id));
    if id in books.seen {
      assert end.seen == s.seen && end.accepted == s.accepted;
      states := Extend(states, s, s1, end, I.CheckSeenStep);
    } else {
      var s2 := s.(enqueuer := I.NotSeen(id));
      states := Extend(states, s, s1, s2, I.CheckSeenStep);
      if id in disk.pending {
        assert end.accepted == s.accepted;
        states := Extend(states, s, s2, end, I.CheckPendingStep);
      } else {
        var s3 := s.(enqueuer := I.NotPending(id));
        states := Extend(states, s, s2, s3, I.CheckPendingStep);
        if id in disk.sent {
          assert end.accepted == s.accepted;
          states := Extend(states, s, s3, end, I.CheckSentStep);
        } else {
          var s4 := s.(enqueuer := I.NotSent(id));
          states := Extend(states, s, s3, s4, I.CheckSentStep);
          if writable {
            var s5 := s.(enqueuer := I.Written(id), pending := s.pending + {id}, accepted := s.accepted + {id});
            assert end.pending == s5.pending;
            states := Extend(states, s, s4, s5, I.WriteStep);
            states := Extend(states, s, s5, end, I.MarkSeenStep);
          } else {
            assert end.accepted == s.accepted;
            states := Extend(states, s, s4, end, I.WriteFailsStep);
          }
        }
      }
    }
  }

  // ---------- drain ----------

  /** One drain is under way, with these files still to visit. */
  function Draining(disk: Disk, books: Books, files: seq<Id>, stage: I.DrainStage): I.State {
    Quiet(disk, books).(drainers := map[0 := I.Drainer(files, stage)])
  }

  lemma SkipStep(disk: Disk, books: Books, files: seq<Id>)
    requires files != []
    ensures I.NextBy(Draining(disk, books, files, I.NextFile),
                     Draining(disk, books, files[1..], I.NextFile), I.ReadStep(0, false))
  {
  }

  lemma VisitSteps(disk: Disk, books: Books, files: seq<Id>)
    requires files != [] && files[0] in disk.pending
    ensures var s := Draining(disk, books, files, I.NextFile);
      var read := Draining(disk, books, files[1..], I.HasRead(files[0]));
      && I.NextBy(s, read, I.ReadStep(0, true))
      && I.NextBy(read, Draining(disk, books, files[1..], I.NextFile), I.DeliverStep(0, false))
      && I.NextBy(read,
                  Draining(disk, books.(confirmed := books.confirmed + {files[0]}), files[1..],
                           I.DeliveredOk(files[0])),
                  I.DeliverStep(0, true))
  {
  }

  lemma MovedStep(disk: Disk, outside: Outside, books: Books, files: seq<Id>, file: Id)
    ensures I.NextBy(Draining(disk, books, files, I.DeliveredOk(file)),
                     Draining(Moved(disk, outside, file, file), books, files, I.NextFile),
                     I.MoveStep(0, outside.movable(file) && file in disk.pending))
  {
    assert file in disk.pending ==> (disk.pending - {file}).Keys == disk.pending.Keys - {file};
  }

  lemma EndStep(disk: Disk, books: Books, files: seq<Id>, stage: I.DrainStage)
    ensures I.NextBy(Draining(disk, books, files, stage), Quiet(disk, books), I.EndDrainStep(0))
  {
    assert map[0 := I.Drainer(files, stage)] - {0} == map[];
  }

  /** The steps spent on the first file: skipped, refused, or delivered and moved if the move works. */
  lemma FileIsAPath(files: seq<Id>, disk: Disk, outside: Outside, books: Books) returns (states: seq<I.State>)
    requires WellFormed(disk) && files != []
    requires !StopsAt(files[0], disk, outside)
    ensures var file := files[0];
      PathFromTo(states, Draining(disk, books, files, I.NextFile),
                 if Takes(file, disk, outside)
                 then Draining(Moved(disk, outside, file, file), books.(confirmed := books.confirmed + {file}),
                               files[1..], I.NextFile)
                 else Draining(disk, books, files[1..], I.NextFile))
  {
    var file := files[0];
    var s := Draining(disk, books, files, I.NextFile);
    var skipped := Draining(disk, books, files[1..], I.NextFile);
    if file !in disk.pending || !outside.readable(file) {
      SkipStep(disk, books, files);
      states := Extend([s], s, s, skipped, I.ReadStep(0, false));
    } else {
      VisitSteps(disk, books, files);
      var read := Draining(disk, books, files[1..], I.HasRead(file));
      states := Extend([s], s, s, read, I.ReadStep(0, true));
      if outside.deliver(disk.pending[file].obs).Refused? {
        states := Extend(states, s, read, skipped, I.DeliverStep(0, false));
      } else {
        var books' := books.(confirmed := books.confirmed + {file});
        var delivered := Draining(disk, books', files[1..], I.DeliveredOk(file));
        states := Extend(states, s, read, delivered, I.DeliverStep(0, true));
        MovedStep(disk, outside, books', files[1..], file);
        states := Extend(states, s, delivered,
                         Draining(Moved(disk, outside, file, file), books', files[1..], I.NextFile),
                         I.MoveStep(0, outside.movable(file) && file in disk.pending));
      }
    }
  }

  /** The rest of a drain, whatever fails in it: unreadable files, refusals, failing moves, cancellations. */
  lemma {:induction false} DrainIsAPath(files: seq<Id>, disk: Disk, outside: Outside, delivered: seq<Observation>,
                                        max: int, books: Books, base: set<Id>) returns (states: seq<I.State>)
    requires WellFormed(disk) && books.confirmed == base + Ids(delivered)
    ensures var r := DrainFrom(files, disk, outside, delivered, max);
      && WellFormed(r.disk)
      && PathFromTo(states, Draining(disk, books, files, I.NextFile),
                    Quiet(r.disk, books.(confirmed := base + Ids(r.delivered))))
    decreases |files|
  {
    var s := Draining(disk, books, files, I.NextFile);
    var r := DrainFrom(files, disk, outside, delivered, max);
    var end := Quiet(r.disk, books.(confirmed := base + Ids(r.delivered)));
    if files == [] || outside.cancelled(files[0]) || |delivered| >= max {
      EndStep(disk, books, files, I.NextFile);
      states := Extend([s], s, s, end, I.EndDrainStep(0));
    } else {
      var file, rest := files[0], files[1..];
      if StopsAt(file, disk, outside) {
        var read := Draining(disk, books, rest, I.HasRead(file));
        VisitSteps(disk, books, files);
        states := Extend([s], s, s, read, I.ReadStep(0, true));
        EndStep(disk, books, rest, I.HasRead(file));
        states := Extend(states, s, read, end, I.EndDrainStep(0));
      } else {
        var head := FileIsAPath(files, disk, outside, books);
        if Takes(file, disk, outside) {
          var obs := disk.pending[file].obs;
          IdsAppend(delivered, [obs]);
          assert [obs][0].id in Ids([obs]);
          var books' := books.(confirmed := books.confirmed + {file});
          var tail := DrainIsAPath(rest, Moved(disk, outside, file, file), outside, delivered + [obs], max, books',
                                   base);
          states := Join(head, tail, s, Draining(Moved(disk, outside, file, file), books', rest, I.NextFile), end);
        } else {
          assert delivered + [] == delivered;
          var tail := DrainIsAPath(rest, disk, outside, delivered, max, books, base);
          states := Join(head, tail, s, Draining(disk, books, rest, I.NextFile), end);
        }
      }
    }
  }

  // ---------- runs of operations ----------

  /** One operation, whatever the outside does, is a path of small steps. */
  lemma OperationIsAPath(start: Disk, b: Buffer, op: Operation, books: Books)
      returns (states: seq<I.State>, books': Books)
    requires WellFormed(b.disk) && books.seen == b.seen && books.confirmed == start.sent + Ids(b.log)
    requires books.accepted == b.disk.pending.Keys + b.disk.sent && books.seen <= books.accepted
    ensures WellFormed(Step(b, op).disk)
    ensures books'.seen == Step(b, op).seen && books'.confirmed == start.sent + Ids(Step(b, op).log)
    ensures books'.accepted == books.accepted + Accepts(op)
    ensures PathFromTo(states, Quiet(b.disk, books), Quiet(Step(b, op).disk, books'))
  {
    var s := Quiet(b.disk, books);
    match op
    case EnqueueOp(obs, writable) =>
      states := EnqueueIsAPath(b.disk, books, obs, writable);
      books' := BooksAfterEnqueue(b.disk, books, obs, writable);
    case DrainOp(outside, max) =>
      var files := Listing(b.disk.pending.Keys);
      var r := Drained(b.disk, outside, max);
      assert Ids([]) == {};
      var drain := DrainIsAPath(files, b.disk, outside, [], max, books, books.confirmed);
      var started := Draining(b.disk, books, files, I.NextFile);
      assert I.StartDrain(s, started, 0, files);
      states := Extend([s], s, s, started, I.StartDrainStep(0, files));
      books' := books.(confirmed := books.confirmed + Ids(r.delivered));
      states := Join(states, drain, s, started, Quiet(r.disk, books'));
      IdsAppend(b.log, r.delivered);
    case RestartOp =>
      books' := books.(seen := {});
      states := Extend([s], s, s, Quiet(b.disk, books'), I.RestartStep);
  }

  /** The start of a run, as the small steps see it. */
  function StartBooks(start: Disk): Books {
    Books({}, start.pending.Keys + start.sent, start.sent)
  }

  /** The run of small steps behind a run of operations, and what is known at its end. */
  ghost predicate RunBehind(states: seq<I.State>, start: Disk, ops: seq<Operation>, b: Buffer) {
    && I.Run(states)
    && states[0] == Quiet(start, StartBooks(start))
    && states[|states| - 1]
         == Quiet(b.disk, Books(b.seen, start.pending.Keys + start.sent + EnqueuedIds(ops), start.sent + Ids(b.log)))
  }

  /**
   Every run of enqueues, drains and restarts, with any writes, reads, deliveries and moves failing in it, is a
   run of small steps.
   */
  lemma {:induction false} OperationsAreRuns(start: Disk, ops: seq<Operation>) returns (states: seq<I.State>)
    requires WellFormed(start) && start.pending.Keys !! start.sent
    ensures WellFormed(After(Buffer(start, {}, []), ops).disk)
    ensures RunBehind(states, start, ops, After(Buffer(start, {}, []), ops))
  {
    if ops == [] {
      states := [Quiet(start, StartBooks(start))];
      assert Ids([]) == {} && EnqueuedIds(ops) == {};
    } else {
      var n := |ops| - 1;
      var b := After(Buffer(start, {}, []), ops[..n]);
      var earlier := OperationsAreRuns(start, ops[..n]);
      var books := Books(b.seen, start.pending.Keys + start.sent + EnqueuedIds(ops[..n]), start.sent + Ids(b.log));
      I.RunKeepsInv(earlier, |earlier| - 1);
      var more, books' := OperationIsAPath(start, b, ops[n], books);
      assert PathFromTo(earlier, earlier[0], Quiet(b.disk, books));
      states := Join(earlier, more, earlier[0], Quiet(b.disk, books), Quiet(Step(b, ops[n]).disk, books'));
      OneMoreEnqueued(ops[..n], ops[n]);
      assert ops == ops[..n] + [ops[n]];
    }
  }

  /**
   So whatever fails, after any run of operations every id there at the start or enqueued since without a failing
   write is in exactly one directory, and in `sent` only if it was there at the start or a destination confirmed it.
   */
  lemma NothingLostWhateverFails(start: Disk, ops: seq<Operation>)
    requires WellFormed(start) && start.pending.Keys !! start.sent
    ensures var b := After(Buffer(start, {}, []), ops);
      && b.disk.pending.Keys + b.disk.sent == start.pending.Keys + start.sent + EnqueuedIds(ops)
      && b.disk.pending.Keys !! b.disk.sent
      && start.sent <= b.disk.sent <= start.sent + Ids(b.log)
  {
    var states := OperationsAreRuns(start, ops);
    I.RunKeepsInv(states, |states| - 1);
    I.RunProgress(states, 0, |states| - 1);
  }
}
