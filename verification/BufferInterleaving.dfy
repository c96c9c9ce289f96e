/**
 src/AtlasGT.Historian/FileStoreAndForwardBuffer.cs as a system of small steps: enqueues run one at a
 time under the gate, any number of drains run beside them, every file operation is one step, reads and
 moves can fail, and the process can restart. Nothing accepted is lost or duplicated on disk.
 */
module BufferInterleaving {

  /** A Guid: the name of a file and the identity of the observation in it. */
  type Id = nat

  /** Where the enqueue that holds the gate is; `id` is what it is enqueueing. */
  datatype Enqueuer =
    | Idle
    | Entered(id: Id)
    | NotSeen(id: Id)
    | NotPending(id: Id)
    | NotSent(id: Id)
    | Written(id: Id)

  /** A drain: its snapshot of file names still to visit, and what it is doing with the current one. */
  datatype DrainStage = NextFile | HasRead(id: Id) | DeliveredOk(id: Id)

  datatype Drainer = Drainer(queue: seq<Id>, stage: DrainStage)

  /**
   The directories and `_seen`, and two histories: the ids an enqueue has written, and those a
   destination has confirmed.
   */
  datatype State =
    State(
      pending: set<Id>,
      sent: set<Id>,
      seen: set<Id>,
      enqueuer: Enqueuer,
      drainers: map<nat, Drainer>,
      accepted: set<Id>,
      confirmed: set<Id>)

  // ---------- steps of EnqueueAsync ----------

  ghost predicate Enter(s: State, s': State, id: Id) {
    s.enqueuer.Idle? && s' == s.(enqueuer := Entered(id))
  }

  ghost predicate CheckSeen(s: State, s': State) {
    && s.enqueuer.Entered?
    && s' == s.(enqueuer := if s.enqueuer.id in s.seen then Idle else NotSeen(s.enqueuer.id))
  }

  ghost predicate CheckPending(s: State, s': State) {
    && s.enqueuer.NotSeen?
    && var id := s.enqueuer.id;
       s' == if id in s.pending then s.(enqueuer := Idle, seen := s.seen + {id}) else s.(enqueuer := NotPending(id))
  }

  ghost predicate CheckSent(s: State, s': State) {
    && s.enqueuer.NotPending?
    && var id := s.enqueuer.id;
       s' == if id in s.sent then s.(enqueuer := Idle, seen := s.seen + {id}) else s.(enqueuer := NotSent(id))
  }

  ghost predicate Write(s: State, s': State) {
    && s.enqueuer.NotSent?
    && var id := s.enqueuer.id;
       s' == s.(enqueuer := Written(id), pending := s.pending + {id}, accepted := s.accepted + {id})
  }

  /** The write throws; the gate is released by `finally`. */
  ghost predicate WriteFails(s: State, s': State) {
    s.enqueuer.NotSent? && s' == s.(enqueuer := Idle)
  }

  ghost predicate MarkSeen(s: State, s': State) {
    && s.enqueuer.Written?
    && s' == s.(enqueuer := Idle, seen := s.seen + {s.enqueuer.id})
  }

  // ---------- steps of DrainAsync ----------

  /** A drain starts by listing the pending directory, in some order. */
  ghost predicate StartDrain(s: State, s': State, d: nat, queue: seq<Id>) {
    && d !in s.drainers
    && (forall id :: id in queue <==> id in s.pending)
    && s' == s.(drainers := s.drainers[d := Drainer(queue, NextFile)])
  }

  /** The next file is read; it may have gone, or reading may fail, and then it is skipped. */
  ghost predicate ReadFile(s: State, s': State, d: nat, ok: bool) {
    && d in s.drainers && s.drainers[d].stage.NextFile? && s.drainers[d].queue != []
    && var q := s.drainers[d].queue;
       && (ok ==> q[0] in s.pending)
       && s' == s.(drainers := s.drainers[d := Drainer(q[1..], if ok then HasRead(q[0]) else NextFile)])
  }

  ghost predicate Deliver(s: State, s': State, d: nat, ok: bool) {
    && d in s.drainers && s.drainers[d].stage.HasRead?
    && var id := s.drainers[d].stage.id;
       s' == s.(drainers := s.drainers[d := s.drainers[d].(stage := if ok then DeliveredOk(id) else NextFile)],
                confirmed := if ok then s.confirmed + {id} else s.confirmed)
  }

  /** `File.Move`, atomic; it fails if the file has gone, and may fail otherwise. */
  ghost predicate MoveFile(s: State, s': State, d: nat, ok: bool) {
    && d in s.drainers && s.drainers[d].stage.DeliveredOk?
    && var id := s.drainers[d].stage.id;
       && (ok ==> id in s.pending)
       && s' == s.(drainers := s.drainers[d := s.drainers[d].(stage := NextFile)],
                   pending := if ok then s.pending - {id} else s.pending,
                   sent := if ok then s.sent + {id} else s.sent)
  }

  ghost predicate EndDrain(s: State, s': State, d: nat) {
    d in s.drainers && s' == s.(drainers := s.drainers - {d})
  }

  /** The process ends and starts again: memory is lost at any point, the directories stay. */
  ghost predicate Restart(s: State, s': State) {
    s' == s.(seen := {}, enqueuer := Idle, drainers := map[])
  }

  datatype Step =
    | EnterStep(id: Id) | CheckSeenStep | CheckPendingStep | CheckSentStep | WriteStep | WriteFailsStep | MarkSeenStep
    | StartDrainStep(d: nat, queue: seq<Id>) | ReadStep(d: nat, ok: bool) | DeliverStep(d: nat, ok: bool)
    | MoveStep(d: nat, ok: bool) | EndDrainStep(d: nat) | RestartStep

  ghost predicate NextBy(s: State, s': State, step: Step) {
    match step
    case EnterStep(id) => Enter(s, s', id)
    case CheckSeenStep => CheckSeen(s, s')
    case CheckPendingStep => CheckPending(s, s')
    case CheckSentStep => CheckSent(s, s')
    case WriteStep => Write(s, s')
    case WriteFailsStep => WriteFails(s, s')
    case MarkSeenStep => MarkSeen(s, s')
    case StartDrainStep(d, queue) => StartDrain(s, s', d, queue)
    case ReadStep(d, ok) => ReadFile(s, s', d, ok)
    case DeliverStep(d, ok) => Deliver(s, s', d, ok)
    case MoveStep(d, ok) => MoveFile(s, s', d, ok)
    case EndDrainStep(d) => EndDrain(s, s', d)
    case RestartStep => Restart(s, s')
  }

  ghost predicate Next(s: State, s': State) {
    exists step :: NextBy(s, s', step)
  }

  /** A fresh process over directories left by an earlier one, or over empty ones. */
  ghost predicate Initial(s: State) {
    && s.pending !! s.sent && s.accepted == s.pending + s.sent && s.confirmed == s.sent
    && s.seen == {} && s.enqueuer.Idle? && s.drainers == map[]
  }

  /** A finite run: every two consecutive states are one step apart. */
  ghost predicate Run(states: seq<State>) {
    && states != [] && Initial(states[0])
    && forall i :: 0 <= i < |states| - 1 ==> Next(states[i], states[i + 1])
  }

  // ---------- the invariant ----------

  /** Each accepted id is in exactly one directory, and only confirmed ids are in `sent`. */
  ghost predicate NothingLost(s: State) {
    && s.accepted == s.pending + s.sent
    && s.pending !! s.sent
    && s.sent <= s.confirmed
  }

  /** What the checks done so far still guarantee: this is where the order pending-then-sent matters. */
  ghost predicate ChecksHold(s: State) {
    match s.enqueuer
    case NotPending(id) => id !in s.pending
    case NotSent(id) => id !in s.pending && id !in s.sent
    case Written(id) => id in s.accepted
    case _ => true
  }

  ghost predicate Inv(s: State) {
    && NothingLost(s)
    && ChecksHold(s)
    && s.seen <= s.accepted
    && (forall d :: d in s.drainers && s.drainers[d].stage.DeliveredOk? ==> s.drainers[d].stage.id in s.confirmed)
    && (forall d :: d in s.drainers && s.drainers[d].stage.HasRead? ==> s.drainers[d].stage.id in s.accepted)
  }

  /** Accepted and sent ids only grow, and `sent` grows only by confirmed ids out of `pending`. */
  ghost predicate Progress(s: State, s': State) {
    && s.accepted <= s'.accepted
    && s.sent <= s'.sent
    && s.confirmed <= s'.confirmed
    && s'.sent - s.sent <= s.pending * s.confirmed
  }

  lemma InitialInv(s: State)
    requires Initial(s)
    ensures Inv(s)
  {
  }

  lemma StepKeepsInv(s: State, s': State, step: Step)
    requires Inv(s) && NextBy(s, s', step)
    ensures Inv(s') && Progress(s, s')
  {
    match step
    case WriteStep =>
      assert s.enqueuer.id !in s.pending + s.sent;
    case MoveStep(d, ok) =>
      assert s.drainers[d].stage.id in s.confirmed;
    case EndDrainStep(d) =>
      assert forall e :: e in s'.drainers ==> e in s.drainers && s'.drainers[e] == s.drainers[e];
    case _ =>
  }

  lemma {:induction false} RunKeepsInv(states: seq<State>, n: nat)
    requires Run(states) && n < |states|
    ensures Inv(states[n])
  {
    if n == 0 {
      InitialInv(states[0]);
    } else {
      RunKeepsInv(states, n - 1);
      assert Next(states[n - 1], states[n - 1 + 1]);
      var step :| NextBy(states[n - 1], states[n], step);
      StepKeepsInv(states[n - 1], states[n], step);
    }
  }

  lemma {:induction false} RunProgress(states: seq<State>, i: nat, j: nat)
    requires Run(states) && i <= j < |states|
    ensures states[i].accepted <= states[j].accepted && states[i].sent <= states[j].sent
    decreases j - i
  {
    if i < j {
      RunProgress(states, i, j - 1);
      RunKeepsInv(states, j - 1);
      assert Next(states[j - 1], states[j - 1 + 1]);
      var step :| NextBy(states[j - 1], states[j], step);
      StepKeepsInv(states[j - 1], states[j], step);
    }
  }

  // ---------- over whole runs ----------

  /**
   In every run, at every moment, an id accepted by then or earlier is in exactly one of the two
   directories, and is in `sent` only if the destination has confirmed it.
   */
  lemma NoLoss(states: seq<State>, i: nat, j: nat, id: Id)
    requires Run(states) && i <= j < |states|
    requires id in states[i].accepted
    ensures id in states[j].pending <==> id !in states[j].sent
    ensures id in states[j].sent ==> id in states[j].confirmed
  {
    RunKeepsInv(states, j);
    RunProgress(states, i, j);
  }

  /** Once in `sent`, an id stays there and is never pending again, whatever is enqueued or restarted. */
  lemma SentForGood(states: seq<State>, i: nat, j: nat, id: Id)
    requires Run(states) && i <= j < |states|
    requires id in states[i].sent
    ensures id in states[j].sent && id !in states[j].pending
  {
    RunKeepsInv(states, j);
    RunProgress(states, i, j);
  }

  /** Both directories hold nothing but accepted ids. */
  lemma NothingInvented(states: seq<State>, i: nat)
    requires Run(states) && i < |states|
    ensures states[i].pending + states[i].sent == states[i].accepted
    ensures states[i].seen <= states[i].accepted
  {
    RunKeepsInv(states, i);
  }

  // ---------- overlapping drains ----------

  /** Drain d delivers this id in the step after state i. */
  ghost predicate DeliversAt(states: seq<State>, i: nat, d: nat, id: Id) {
    && i + 1 < |states| && d in states[i].drainers && states[i].drainers[d].stage == HasRead(id)
    && Deliver(states[i], states[i + 1], d, true)
  }

  /** Two drains have both read a file. */
  lemma BothRead(id: Id) returns (states: seq<State>)
    ensures Run(states) && |states| == 5
    ensures var r := Drainer([], HasRead(id)); states[4] == State({id}, {}, {}, Idle, map[0 := r, 1 := r], {id}, {})
  {
    var q, r := Drainer([id], NextFile), Drainer([], HasRead(id));
    var s0 := State({id}, {}, {}, Idle, map[], {id}, {});
    var s1, s2 := s0.(drainers := map[0 := q]), s0.(drainers := map[0 := q, 1 := q]);
    var s3, s4 := s0.(drainers := map[0 := r, 1 := q]), s0.(drainers := map[0 := r, 1 := r]);
    assert [id][1..] == [];
    assert NextBy(s0, s1, StartDrainStep(0, [id]));
    assert NextBy(s1, s2, StartDrainStep(1, [id]));
    assert NextBy(s2, s3, ReadStep(0, true));
    assert NextBy(s3, s4, ReadStep(1, true));
    states := [s0, s1, s2, s3, s4];
  }

  /** Two drains that both read a file before either moves it deliver it twice. */
  lemma OverlappingDrainsRedeliver(id: Id) returns (states: seq<State>)
    ensures Run(states)
    ensures DeliversAt(states, 4, 0, id) && DeliversAt(states, 5, 1, id)
  {
    var before := BothRead(id);
    var s4, done := before[4], Drainer([], DeliveredOk(id));
    var s5 := s4.(drainers := s4.drainers[0 := done], confirmed := {id});
    var s6 := s5.(drainers := s5.drainers[1 := done]);
    assert NextBy(s4, s5, DeliverStep(0, true));
    assert NextBy(s5, s6, DeliverStep(1, true));
    states := before + [s5, s6];
    forall i | 0 <= i < 6
      ensures Next(states[i], states[i + 1])
    {
      if i < 4 {
        assert Next(before[i], before[i + 1]);
      }
    }
  }

  // ---------- the other order of checks ----------

  /** `CheckSent` before `CheckPending`: the two checks of the code, swapped. */
  ghost predicate CheckSentFirst(s: State, s': State) {
    && s.enqueuer.NotSeen?
    && var id := s.enqueuer.id;
       s' == if id in s.sent then s.(enqueuer := Idle, seen := s.seen + {id}) else s.(enqueuer := NotSent(id))
  }

  ghost predicate CheckPendingSecond(s: State, s': State) {
    && s.enqueuer.NotSent?
    && var id := s.enqueuer.id;
       s' == if id in s.pending then s.(enqueuer := Idle, seen := s.seen + {id})
             else s.(enqueuer := Written(id), pending := s.pending + {id})
  }

  /** A restarted process enqueues again what a drain has just delivered and is about to move. */
  lemma EnqueueMeetsDrain(id: Id) returns (states: seq<State>)
    ensures Run(states)
    ensures var s := states[|states| - 1];
      && s.enqueuer == NotSeen(id) && s.pending == {id} && s.sent == {}
      && s.drainers == map[0 := Drainer([], DeliveredOk(id))]
  {
    var s0 := State({id}, {}, {}, Idle, map[], {id}, {});
    var s1 := s0.(drainers := map[0 := Drainer([id], NextFile)]);
    var s2 := s0.(drainers := map[0 := Drainer([], HasRead(id))]);
    var s3 := s0.(drainers := map[0 := Drainer([], DeliveredOk(id))], confirmed := {id});
    var s4, s5 := s3.(enqueuer := Entered(id)), s3.(enqueuer := NotSeen(id));
    assert NextBy(s0, s1, StartDrainStep(0, [id]));
    assert [id][1..] == [];
    assert NextBy(s1, s2, ReadStep(0, true));
    assert NextBy(s2, s3, DeliverStep(0, true));
    assert NextBy(s3, s4, EnterStep(id));
    assert NextBy(s4, s5, CheckSeenStep);
    states := [s0, s1, s2, s3, s4, s5];
  }

  /**
   With the checks swapped, this run can end with the id in both directories: the drain's move falls between the
   two checks, and the id is put back into `pending` after it was sent.
   */
  lemma SwappedChecksDuplicate(id: Id) returns (states: seq<State>, s1: State, s2: State, s3: State)
    ensures Run(states)
    ensures CheckSentFirst(states[|states| - 1], s1) && MoveFile(s1, s2, 0, true) && CheckPendingSecond(s2, s3)
    ensures id in s3.pending && id in s3.sent
  {
    states := EnqueueMeetsDrain(id);
    var s := states[|states| - 1];
    s1 := s.(enqueuer := NotSent(id));
    s2 := s1.(drainers := s1.drainers[0 := Drainer([], NextFile)],
              pending := s1.pending - {id}, sent := s1.sent + {id});
    s3 := s2.(enqueuer := Written(id), pending := s2.pending + {id});
  }
}
