/**
 The documented meaning of `AlarmRule.Debounce`, a number of consecutive samples beyond the threshold,
 against what the counter counts: where the two part, and exactly when they agree.
 */
module AlarmDebounce {
  import opened Bytes
  import opened AlarmEngine
  import opened AlarmHistory
  import opened AlarmRuns

  /** Consecutive breaching samples of a rule at the end of the history, since its last reset. */
  function TrailingRun(log: History, id: Id): nat {
    if log == [] then 0
    else
      var n := |log| - 1;
      if log[n] == ResetOf(id) || log[n] == Quiet(id) then 0
      else TrailingRun(log[..n], id) + if log[n] == Breach(id) then 1 else 0
  }

  /** A breach now would be the last of `Debounce` consecutive ones, as the rule is documented. */
  predicate ConsecutiveEnough(log: History, rule: AlarmRule) {
    TrailingRun(log, rule.id) + 1 >= rule.debounce
  }

  predicate NoResetFrom(log: History, i: nat, id: Id) {
    forall k :: i <= k < |log| ==> log[k] != ResetOf(id)
  }

  predicate BreachAt(log: History, i: nat, id: Id) {
    i < |log| && log[i] == Breach(id) && NoResetFrom(log, i, id)
  }

  predicate QuietAfter(log: History, i: nat, j: nat, id: Id) {
    BreachAt(log, i, id) && i < j < |log| && log[j] == Quiet(id)
  }

  /** Since the last reset, a sample within the threshold has come after one beyond it. */
  ghost predicate Interrupted(log: History, id: Id) {
    exists i: nat, j: nat :: QuietAfter(log, i, j, id)
  }

  // ---------- counts and runs ----------

  lemma {:induction false} SomeBreach(log: History, id: Id)
    ensures BreachCount(log, id) > 0 <==> exists i: nat :: BreachAt(log, i, id)
  {
    if log != [] {
      var n := |log| - 1;
      var before := log[..n];
      SomeBreach(before, id);
      if i: nat :| BreachAt(log, i, id) {
        if i < n {
          assert BreachAt(before, i, id);
        }
      }
      if log[n] == Breach(id) {
        assert BreachAt(log, n, id);
      } else if log[n] != ResetOf(id) && BreachCount(before, id) > 0 {
        var i: nat :| BreachAt(before, i, id);
        assert BreachAt(log, i, id);
      }
    }
  }

  /** One more item: only a sample within the threshold interrupts, and only a reset forgets it. */
  lemma InterruptedStep(log: History, id: Id)
    requires log != []
    ensures var before := log[..|log| - 1];
      Interrupted(log, id) <==> log[|log| - 1] != ResetOf(id)
                                && (Interrupted(before, id)
                                    || (log[|log| - 1] == Quiet(id) && BreachCount(before, id) > 0))
  {
    var n := |log| - 1;
    var before := log[..n];
    SomeBreach(before, id);
    if i: nat, j: nat :| QuietAfter(log, i, j, id) {
      assert BreachAt(before, i, id);
      if j < n {
        assert QuietAfter(before, i, j, id);
      }
    }
    if log[n] != ResetOf(id) {
      if i: nat, j: nat :| QuietAfter(before, i, j, id) {
        assert QuietAfter(log, i, j, id);
      }
      if log[n] == Quiet(id) && BreachCount(before, id) > 0 {
        var i: nat :| BreachAt(before, i, id);
        assert QuietAfter(log, i, n, id);
      }
    }
  }

  /** All breaches since the last reset are consecutive exactly when none was followed by a quiet sample. */
  lemma {:induction false} RunIsCountIff(log: History, id: Id)
    ensures TrailingRun(log, id) <= BreachCount(log, id)
    ensures TrailingRun(log, id) == BreachCount(log, id) <==> !Interrupted(log, id)
  {
    if log != [] {
      RunIsCountIff(log[..|log| - 1], id);
      InterruptedStep(log, id);
    }
  }

  // ---------- the decision ----------

  /** The value the counter takes on a breach now. */
  function NextCount(log: History, rule: AlarmRule): int32 {
    Wrap32(BreachCount(log, rule.id) + 1)
  }

  lemma WrappedIsLess(n: nat)
    ensures Wrap32(n) <= n && (Wrap32(n) < n <==> n > MAX_INT32)
  {
  }

  /**
   The engine's decision comes too early exactly for a `Debounce` between the two counts, and too late exactly for
   one that the counter has wrapped below, which takes 2^31 breaches since the last reset.
   */
  lemma DecisionDiffersIff(log: History, rule: AlarmRule)
    ensures Debounced(log, rule) && !ConsecutiveEnough(log, rule)
        <==> TrailingRun(log, rule.id) + 1 < rule.debounce <= NextCount(log, rule)
    ensures !Debounced(log, rule) && ConsecutiveEnough(log, rule)
        <==> NextCount(log, rule) < rule.debounce <= TrailingRun(log, rule.id) + 1
    ensures !Debounced(log, rule) && ConsecutiveEnough(log, rule) ==> BreachCount(log, rule.id) >= MAX_INT32
  {
    RunIsCountIff(log, rule.id);
    WrappedIsLess(BreachCount(log, rule.id) + 1);
  }

  /** The engine decides as documented, whatever `Debounce` is set to. */
  ghost predicate AlwaysAsDocumented(log: History, rule: AlarmRule) {
    forall d: int32 :: Debounced(log, rule.(debounce := d)) <==> ConsecutiveEnough(log, rule.(debounce := d))
  }

  /**
   That is so exactly when the counter is the run, as far as a `Debounce` can reach; and as long as the counter
   has not wrapped, exactly when the count was not interrupted.
   */
  lemma DocumentedIff(log: History, rule: AlarmRule)
    ensures AlwaysAsDocumented(log, rule)
        <==> var run := TrailingRun(log, rule.id) + 1;
             NextCount(log, rule) == if run > MAX_INT32 then MAX_INT32 else run
    ensures BreachCount(log, rule.id) < MAX_INT32 ==>
              (AlwaysAsDocumented(log, rule) <==> !Interrupted(log, rule.id))
  {
    RunIsCountIff(log, rule.id);
    var run, next := TrailingRun(log, rule.id) + 1, NextCount(log, rule);
    var reach: int32 := if run > MAX_INT32 then MAX_INT32 else run;
    if next == reach {
      forall d: int32
        ensures Debounced(log, rule.(debounce := d)) <==> ConsecutiveEnough(log, rule.(debounce := d))
      {
        assert rule.(debounce := d).id == rule.id;
      }
    } else {
      var between := rule.(debounce := if next < reach then reach else next);
      assert Debounced(log, between) != ConsecutiveEnough(log, between);
      assert !(Debounced(log, rule.(debounce := between.debounce))
               <==> ConsecutiveEnough(log, rule.(debounce := between.debounce)));
    }
  }

  // ---------- over runs ----------

  /**
   In every run, whatever the clock does, the counter is the number of consecutive breaching samples exactly when
   it was not interrupted, as long as it has not wrapped.
   */
  lemma CounterIsRunIff(upper: char -> char, moments: seq<Moment>, events: seq<Event>, n: nat, id: Id)
    requires Run(upper, moments, events) && n < |moments|
    ensures Counter(moments[n].engine.consecutive, id) == Wrap32(BreachCount(moments[n].log, id))
    ensures BreachCount(moments[n].log, id) <= MAX_INT32 ==>
              (Counter(moments[n].engine.consecutive, id) == TrailingRun(moments[n].log, id)
               <==> !Interrupted(moments[n].log, id))
  {
    CounterIsBreachCount(upper, moments, events, n, id);
    RunIsCountIff(moments[n].log, id);
  }

  /** The engine and the history when a sample's turn comes to rule k. */
  function AtRule(upper: char -> char, m: Moment, obs: Observation, ts: seq<Reading>, k: nat): (Engine, History)
    requires |ts| == |m.engine.rules| && k <= |ts|
  {
    var earlier := m.engine.rules[..k];
    (ProcessRules(upper, m.engine, earlier, obs, ts[..k]).0, AfterRules(upper, m.log, earlier, obs, ts[..k]))
  }

  /** A rule raises an alarm on a sample, before the sample has completed `Debounce` consecutive breaches. */
  predicate RaisesEarly(upper: char -> char, e: Engine, log: History, rule: AlarmRule, obs: Observation, t: Reading) {
    ProcessRule(upper, e, rule, obs, t).1 != [] && !ConsecutiveEnough(log, rule)
  }

  /** The rate limit leaves room, as the engine's own queue has it. */
  predicate HasRoom(e: Engine, rule: AlarmRule, t: Reading) {
    |Pruned(QueueOf(e.history, rule.id), t.check - MINUTE)| < rule.maxPerMinute
  }

  /**
   In every run, whatever the clock does, rule k of a sample raises an alarm too early exactly on a breach within
   the rate limit for which `Debounce` lies between the consecutive breaches and the counter; and then a sample
   within the threshold has interrupted the count.
   */
  lemma EarlyAlarmIff(upper: char -> char, moments: seq<Moment>, events: seq<Event>, n: nat, k: nat)
    requires Run(upper, moments, events) && n < |events| && events[n].SampleEvent?
    requires |events[n].readings| == |moments[n].engine.rules| && k < |events[n].readings|
    ensures var rule, obs, t := moments[n].engine.rules[k], events[n].obs, events[n].readings[k];
      var (e, log) := AtRule(upper, moments[n], obs, events[n].readings, k);
      && (RaisesEarly(upper, e, log, rule, obs, t)
          <==> && Breaches(upper, rule, obs) && HasRoom(e, rule, t)
               && TrailingRun(log, rule.id) + 1 < rule.debounce <= NextCount(log, rule))
      && (RaisesEarly(upper, e, log, rule, obs, t) ==> Interrupted(log, rule.id))
  {
    var m, obs, ts := moments[n], events[n].obs, events[n].readings;
    var rule := m.engine.rules[k];
    var (e, log) := AtRule(upper, m, obs, ts, k);
    CounterIsBreachCount(upper, moments, events, n, rule.id);
    RulesCount(upper, m.engine, m.log, m.engine.rules[..k], obs, ts[..k], rule.id);
    WrapNext(BreachCount(log, rule.id));
    EngineEffect(upper, e, rule, obs, ts[k], rule.id);
    RunIsCountIff(log, rule.id);
    WrappedIsLess(BreachCount(log, rule.id) + 1);
  }
}
