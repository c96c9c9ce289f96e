/**
 The alarm engine against its full history: a log that is never pruned, from which every counter and
 every rate-limit decision can be read off. The engine's counters and queues decide the same.
 */
module AlarmHistory {
  import opened Bytes
  import opened AlarmEngine

  // ---------- the history ----------

  /**
   What happened to a rule, oldest first: a sample beyond its threshold, a sample within it, a debounce reset,
   a fire at a recorded time.
   */
  datatype Item = Breach(id: Id) | Quiet(id: Id) | ResetOf(id: Id) | Fire(id: Id, time: Time)

  type History = seq<Item>

  /** Breaching samples of a rule since its last reset. */
  function BreachCount(log: History, id: Id): nat {
    if log == [] then 0
    else
      var n := |log| - 1;
      if log[n] == ResetOf(id) then 0 else BreachCount(log[..n], id) + if log[n] == Breach(id) then 1 else 0
  }

  function FireTimes(log: History, id: Id): seq<Time> {
    if log == [] then []
    else
      var n := |log| - 1;
      FireTimes(log[..n], id) + if log[n].Fire? && log[n].id == id then [log[n].time] else []
  }

  /** How many of the times are no older than the cutoff. */
  function CountSince(times: seq<Time>, cutoff: Time): nat {
    if times == [] then 0
    else (if times[0] >= cutoff then 1 else 0) + CountSince(times[1..], cutoff)
  }

  // ---------- the decision, from the history alone ----------

  /** A breach now would reach the debounce count (with the 32-bit counter's wrap-around). */
  predicate Debounced(log: History, rule: AlarmRule) {
    Wrap32(BreachCount(log, rule.id) + 1) >= rule.debounce
  }

  /** The limit is used up by the fires of the last minute. */
  predicate LimitReached(log: History, rule: AlarmRule, now: Time) {
    CountSince(FireTimes(log, rule.id), now - MINUTE) >= rule.maxPerMinute
  }

  predicate Fires(upper: char -> char, log: History, rule: AlarmRule, obs: Observation, t: Reading) {
    Breaches(upper, rule, obs) && Debounced(log, rule) && !LimitReached(log, rule, t.check)
  }

  function AfterRule(upper: char -> char, log: History, rule: AlarmRule, obs: Observation, t: Reading): History {
    if !IsSampleOf(upper, rule, obs) then log
    else if !Breaches(upper, rule, obs) then log + [Quiet(rule.id)]
    else log + [Breach(rule.id)] + if Fires(upper, log, rule, obs, t) then [Fire(rule.id, t.record)] else []
  }

  function AfterRules(upper: char -> char, log: History, rules: seq<AlarmRule>, obs: Observation,
                      ts: seq<Reading>): History
    requires |ts| == |rules|
  {
    if rules == [] then log
    else
      var n := |rules| - 1;
      AfterRule(upper, AfterRules(upper, log, rules[..n], obs, ts[..n]), rules[n], obs, ts[n])
  }

  function AfterReset(log: History, rules: seq<AlarmRule>, key: string): History {
    if rules == [] then log
    else
      var n := |rules| - 1;
      AfterReset(log, rules[..n], key) + if rules[n].signalKey == key then [ResetOf(rules[n].id)] else []
  }

  // ---------- engine and history agree ----------

  predicate Ascending(times: seq<Time>) {
    forall i, j :: 0 <= i < j < |times| ==> times[i] <= times[j]
  }

  /** The queue is the full list of fire times without some that are older than a minute. */
  predicate QueueAgrees(q: seq<Time>, full: seq<Time>, now: Time) {
    && Ascending(full) && (forall i :: 0 <= i < |full| ==> full[i] <= now)
    && |q| <= |full| && q == full[|full| - |q|..]
    && forall i :: 0 <= i < |full| - |q| ==> full[i] < now - MINUTE
  }

  /** The times at which the alarms of a rule were raised. */
  function RaisedTimes(alarms: seq<AlarmInstance>, id: Id): seq<Time> {
    if alarms == [] then []
    else
      var n := |alarms| - 1;
      RaisedTimes(alarms[..n], id) + if alarms[n].ruleId == id then [alarms[n].raisedAt] else []
  }

  /** One alarm for each fire, raised no later than it was recorded. */
  predicate AlarmsAgree(raised: seq<Time>, full: seq<Time>) {
    |raised| == |full| && forall i :: 0 <= i < |full| ==> raised[i] <= full[i]
  }

  predicate AgreesOn(e: Engine, log: History, now: Time, id: Id) {
    && Counter(e.consecutive, id) == Wrap32(BreachCount(log, id))
    && QueueAgrees(QueueOf(e.history, id), FireTimes(log, id), now)
    && AlarmsAgree(RaisedTimes(e.alarms, id), FireTimes(log, id))
  }

  ghost predicate Agrees(e: Engine, log: History, now: Time) {
    forall id :: AgreesOn(e, log, now, id)
  }

  // ---------- the pruned queue counts like the full list ----------

  lemma {:induction false} CountSinceAll(times: seq<Time>, cutoff: Time)
    requires Ascending(times) && (times != [] ==> times[0] >= cutoff)
    ensures CountSince(times, cutoff) == |times|
  {
    if times != [] {
      CountSinceAll(times[1..], cutoff);
    }
  }

  lemma {:induction false} CountSinceDrop(times: seq<Time>, k: nat, cutoff: Time)
    requires k <= |times| && forall i :: 0 <= i < k ==> times[i] < cutoff
    ensures CountSince(times, cutoff) == CountSince(times[k..], cutoff)
  {
    if k > 0 {
      CountSinceDrop(times[1..], k - 1, cutoff);
      assert times[1..][k - 1..] == times[k..];
    }
  }

  lemma {:induction false} PrunedSuffix(q: seq<Time>, cutoff: Time)
    requires Ascending(q)
    ensures var p := Pruned(q, cutoff);
      && |p| <= |q| && p == q[|q| - |p|..]
      && (forall i :: 0 <= i < |q| - |p| ==> q[i] < cutoff)
      && (p != [] ==> p[0] >= cutoff)
  {
    if q != [] && q[0] < cutoff {
      PrunedSuffix(q[1..], cutoff);
    }
  }

  /** Pruning at a later time keeps the agreement, and leaves as many times as the full list has since the cutoff. */
  lemma PrunedCounts(q: seq<Time>, full: seq<Time>, now: Time, check: Time)
    requires QueueAgrees(q, full, now) && now <= check
    ensures QueueAgrees(Pruned(q, check - MINUTE), full, check)
    ensures |Pruned(q, check - MINUTE)| == CountSince(full, check - MINUTE)
  {
    var cutoff := check - MINUTE;
    var p := Pruned(q, cutoff);
    PrunedSuffix(q, cutoff);
    var k := |full| - |p|;
    assert p == full[k..];
    forall i | 0 <= i < k
      ensures full[i] < cutoff
    {
      if i >= |full| - |q| {
        assert full[i] == q[i - (|full| - |q|)];
      }
    }
    CountSinceDrop(full, k, cutoff);
    CountSinceAll(p, cutoff);
  }

  lemma QueueLater(q: seq<Time>, full: seq<Time>, now: Time, later: Time)
    requires QueueAgrees(q, full, now) && now <= later
    ensures QueueAgrees(q, full, later)
  {
  }

  lemma QueueRecords(q: seq<Time>, full: seq<Time>, now: Time, record: Time)
    requires QueueAgrees(q, full, now) && now <= record
    ensures QueueAgrees(q + [record], full + [record], record)
  {
    var q', full' := q + [record], full + [record];
    assert full'[|full'| - |q'|..] == full[|full| - |q|..] + [record];
  }

  lemma WrapNext(n: int)
    ensures Wrap32(Wrap32(n) + 1) == Wrap32(n + 1)
  {
    var turns := (Wrap32(n) - n) / 0x1_0000_0000;
    assert Wrap32(n) + 1 == n + 1 + turns * 0x1_0000_0000;
    assert (Wrap32(n) + 1) % 0x1_0000_0000 == (n + 1) % 0x1_0000_0000;
  }

  // ---------- one rule ----------

  lemma HistoryAfterBreach(log: History, rule: AlarmRule, id: Id)
    ensures BreachCount(log + [Breach(rule.id)], id) == BreachCount(log, id) + if id == rule.id then 1 else 0
    ensures FireTimes(log + [Breach(rule.id)], id) == FireTimes(log, id)
  {
    assert (log + [Breach(rule.id)])[..|log|] == log;
  }

  lemma HistoryAfterQuiet(log: History, rule: AlarmRule, id: Id)
    ensures BreachCount(log + [Quiet(rule.id)], id) == BreachCount(log, id)
    ensures FireTimes(log + [Quiet(rule.id)], id) == FireTimes(log, id)
  {
    assert (log + [Quiet(rule.id)])[..|log|] == log;
  }

  lemma HistoryAfterFire(log: History, fired: Id, time: Time, id: Id)
    ensures BreachCount(log + [Fire(fired, time)], id) == BreachCount(log, id)
    ensures FireTimes(log + [Fire(fired, time)], id) == FireTimes(log, id) + if id == fired then [time] else []
  {
    assert (log + [Fire(fired, time)])[..|log|] == log;
  }

  lemma RaisedTimesAppend(alarms: seq<AlarmInstance>, alarm: AlarmInstance, id: Id)
    ensures RaisedTimes(alarms + [alarm], id)
         == RaisedTimes(alarms, id) + if alarm.ruleId == id then [alarm.raisedAt] else []
  {
    assert (alarms + [alarm])[..|alarms|] == alarms;
  }

  predicate ReadingAfter(now: Time, t: Reading) {
    now <= t.check <= t.raised <= t.record
  }

  /** The engine's own decision, from its counter and its pruned queue. */
  predicate EngineFires(upper: char -> char, e: Engine, rule: AlarmRule, obs: Observation, t: Reading) {
    && Breaches(upper, rule, obs)
    && Wrap32(Counter(e.consecutive, rule.id) + 1) >= rule.debounce
    && |Pruned(QueueOf(e.history, rule.id), t.check - MINUTE)| < rule.maxPerMinute
  }

  predicate Prunes(upper: char -> char, e: Engine, rule: AlarmRule, obs: Observation) {
    Breaches(upper, rule, obs) && Wrap32(Counter(e.consecutive, rule.id) + 1) >= rule.debounce
  }

  lemma EngineEffect(upper: char -> char, e: Engine, rule: AlarmRule, obs: Observation, t: Reading, id: Id)
    ensures var (e', raised) := ProcessRule(upper, e, rule, obs, t);
      var fired := EngineFires(upper, e, rule, obs, t);
      && raised == (if fired then [Raised(rule, obs, t)] else [])
      && e'.alarms == e.alarms + raised
      && Counter(e'.consecutive, id)
           == (if id == rule.id && Breaches(upper, rule, obs)
               then Wrap32(Counter(e.consecutive, id) + 1)
               else Counter(e.consecutive, id))
      && QueueOf(e'.history, id)
           == (if id == rule.id && Prunes(upper, e, rule, obs)
               then Pruned(QueueOf(e.history, id), t.check - MINUTE) + (if fired then [t.record] else [])
               else QueueOf(e.history, id))
  {
  }

  lemma HistoryEffect(upper: char -> char, log: History, rule: AlarmRule, obs: Observation, t: Reading, id: Id)
    ensures var log' := AfterRule(upper, log, rule, obs, t);
      && BreachCount(log', id) == BreachCount(log, id) + (if id == rule.id && Breaches(upper, rule, obs) then 1 else 0)
      && FireTimes(log', id)
           == FireTimes(log, id) + (if id == rule.id && Fires(upper, log, rule, obs, t) then [t.record] else [])
  {
    HistoryAfterBreach(log, rule, id);
    HistoryAfterQuiet(log, rule, id);
    HistoryAfterFire(log + [Breach(rule.id)], rule.id, t.record, id);
    assert log + [Breach(rule.id)] + [] == log + [Breach(rule.id)];
  }

  /** Engine and history decide alike. */
  lemma DecisionsAgree(upper: char -> char, e: Engine, log: History, now: Time, rule: AlarmRule, obs: Observation,
                       t: Reading)
    requires AgreesOn(e, log, now, rule.id) && ReadingAfter(now, t)
    ensures EngineFires(upper, e, rule, obs, t) <==> Fires(upper, log, rule, obs, t)
    ensures Prunes(upper, e, rule, obs) <==> Breaches(upper, rule, obs) && Debounced(log, rule)
  {
    WrapNext(BreachCount(log, rule.id));
    PrunedCounts(QueueOf(e.history, rule.id), FireTimes(log, rule.id), now, t.check);
  }

  lemma QueueEffect(q: seq<Time>, full: seq<Time>, now: Time, t: Reading, pruned: bool, fired: bool)
    requires QueueAgrees(q, full, now) && ReadingAfter(now, t) && (fired ==> pruned)
    ensures QueueAgrees(if pruned then Pruned(q, t.check - MINUTE) + (if fired then [t.record] else []) else q,
                        full + (if fired then [t.record] else []), t.record)
  {
    PrunedCounts(q, full, now, t.check);
    var p := Pruned(q, t.check - MINUTE);
    QueueLater(p, full, t.check, t.record);
    QueueLater(q, full, now, t.record);
    QueueRecords(p, full, t.check, t.record);
    assert p + [] == p && full + [] == full;
  }

  lemma RuleAgreesOn(upper: char -> char, e: Engine, log: History, now: Time, rule: AlarmRule, obs: Observation,
                     t: Reading, id: Id)
    requires AgreesOn(e, log, now, id) && ReadingAfter(now, t)
    requires EngineFires(upper, e, rule, obs, t) <==> Fires(upper, log, rule, obs, t)
    ensures AgreesOn(ProcessRule(upper, e, rule, obs, t).0, AfterRule(upper, log, rule, obs, t), t.record, id)
  {
    CounterStaysEqual(upper, e, log, rule, obs, t, id);
    EngineEffect(upper, e, rule, obs, t, id);
    HistoryEffect(upper, log, rule, obs, t, id);
    QueueEffect(QueueOf(e.history, id), FireTimes(log, id), now, t, id == rule.id && Prunes(upper, e, rule, obs),
                id == rule.id && EngineFires(upper, e, rule, obs, t));
    AlarmsStayEqual(upper, e, log, rule, obs, t, id);
  }

  lemma CounterStaysEqual(upper: char -> char, e: Engine, log: History, rule: AlarmRule, obs: Observation, t: Reading,
                          id: Id)
    requires Counter(e.consecutive, id) == Wrap32(BreachCount(log, id))
    ensures Counter(ProcessRule(upper, e, rule, obs, t).0.consecutive, id)
         == Wrap32(BreachCount(AfterRule(upper, log, rule, obs, t), id))
  {
    EngineEffect(upper, e, rule, obs, t, id);
    HistoryEffect(upper, log, rule, obs, t, id);
    WrapNext(BreachCount(log, id));
  }

  lemma AlarmsStayEqual(upper: char -> char, e: Engine, log: History, rule: AlarmRule, obs: Observation, t: Reading,
                        id: Id)
    requires AlarmsAgree(RaisedTimes(e.alarms, id), FireTimes(log, id)) && t.raised <= t.record
    requires EngineFires(upper, e, rule, obs, t) <==> Fires(upper, log, rule, obs, t)
    ensures AlarmsAgree(RaisedTimes(ProcessRule(upper, e, rule, obs, t).0.alarms, id),
                        FireTimes(AfterRule(upper, log, rule, obs, t), id))
  {
    EngineEffect(upper, e, rule, obs, t, id);
    HistoryEffect(upper, log, rule, obs, t, id);
    if EngineFires(upper, e, rule, obs, t) {
      RaisedTimesAppend(e.alarms, Raised(rule, obs, t), id);
    } else {
      assert e.alarms + [] == e.alarms;
    }
  }

  /**
   Handling one rule: the engine raises an alarm exactly when the full history says so, one and for this
   rule, and engine and history still agree.
   */
  lemma RuleAgrees(upper: char -> char, e: Engine, log: History, now: Time, rule: AlarmRule, obs: Observation,
                   t: Reading)
    requires Agrees(e, log, now) && ReadingAfter(now, t)
    ensures ProcessRule(upper, e, rule, obs, t).1
         == if Fires(upper, log, rule, obs, t) then [Raised(rule, obs, t)] else []
    ensures Agrees(ProcessRule(upper, e, rule, obs, t).0, AfterRule(upper, log, rule, obs, t), t.record)
  {
    var e', log' := ProcessRule(upper, e, rule, obs, t).0, AfterRule(upper, log, rule, obs, t);
    assert AgreesOn(e, log, now, rule.id);
    DecisionsAgree(upper, e, log, now, rule, obs, t);
    EngineEffect(upper, e, rule, obs, t, rule.id);
    forall id
      ensures AgreesOn(e', log', t.record, id)
    {
      assert AgreesOn(e, log, now, id);
      RuleAgreesOn(upper, e, log, now, rule, obs, t, id);
    }
  }

  lemma AgreesLater(e: Engine, log: History, now: Time, later: Time)
    requires Agrees(e, log, now) && now <= later
    ensures Agrees(e, log, later)
  {
    forall id
      ensures AgreesOn(e, log, later, id)
    {
      assert AgreesOn(e, log, now, id);
      QueueLater(QueueOf(e.history, id), FireTimes(log, id), now, later);
    }
  }

  /** The alarms the full history calls for while the rules are handled in order. */
  function HistoricalAlarms(upper: char -> char, log: History, rules: seq<AlarmRule>, obs: Observation,
                            ts: seq<Reading>): seq<AlarmInstance>
    requires |ts| == |rules|
  {
    if rules == [] then []
    else
      var n := |rules| - 1;
      HistoricalAlarms(upper, log, rules[..n], obs, ts[..n])
      + if Fires(upper, AfterRules(upper, log, rules[..n], obs, ts[..n]), rules[n], obs, ts[n])
        then [Raised(rules[n], obs, ts[n])] else []
  }

  lemma {:induction false} RulesAgree(upper: char -> char, e: Engine, log: History, now: Time, rules: seq<AlarmRule>,
                                      obs: Observation, ts: seq<Reading>, after: Time)
    requires Agrees(e, log, now) && |ts| == |rules| && InSequence(now, ts, after)
    ensures ProcessRules(upper, e, rules, obs, ts).1 == HistoricalAlarms(upper, log, rules, obs, ts)
    ensures Agrees(ProcessRules(upper, e, rules, obs, ts).0, AfterRules(upper, log, rules, obs, ts), after)
    decreases |rules|
  {
    if rules == [] {
      AgreesLater(e, log, now, after);
    } else {
      var n := |rules| - 1;
      RulesAgree(upper, e, log, now, rules[..n], obs, ts[..n], ts[n].check);
      var e' := ProcessRules(upper, e, rules[..n], obs, ts[..n]).0;
      var log' := AfterRules(upper, log, rules[..n], obs, ts[..n]);
      RuleAgrees(upper, e', log', ts[n].check, rules[n], obs, ts[n]);
      AgreesLater(ProcessRule(upper, e', rules[n], obs, ts[n]).0, AfterRule(upper, log', rules[n], obs, ts[n]),
                  ts[n].record, after);
    }
  }

  // ---------- the other operations ----------

  lemma {:induction false} ResetAgrees(e: Engine, log: History, now: Time, rules: seq<AlarmRule>, key: string)
    requires Agrees(e, log, now)
    ensures Agrees(e.(consecutive := ZeroedCounters(e.consecutive, rules, key)), AfterReset(log, rules, key), now)
  {
    if rules != [] {
      var n := |rules| - 1;
      ResetAgrees(e, log, now, rules[..n], key);
      var e' := e.(consecutive := ZeroedCounters(e.consecutive, rules[..n], key));
      var log' := AfterReset(log, rules[..n], key);
      var reset := rules[n].id;
      assert log' + [] == log';
      var e'', log'' := e.(consecutive := ZeroedCounters(e.consecutive, rules, key)), AfterReset(log, rules, key);
      forall id
        ensures AgreesOn(e'', log'', now, id)
      {
        assert AgreesOn(e', log', now, id);
        assert (log' + [ResetOf(reset)])[..|log'|] == log';
      }
    }
  }

  lemma {:induction false} RaisedTimesUpdate(alarms: seq<AlarmInstance>, k: nat, alarm: AlarmInstance, id: Id)
    requires k < |alarms| && alarm.ruleId == alarms[k].ruleId && alarm.raisedAt == alarms[k].raisedAt
    ensures RaisedTimes(alarms[k := alarm], id) == RaisedTimes(alarms, id)
  {
    var n := |alarms| - 1;
    if k == n {
      assert alarms[k := alarm][..n] == alarms[..n];
    } else {
      assert alarms[k := alarm][..n] == alarms[..n][k := alarm];
      RaisedTimesUpdate(alarms[..n], k, alarm, id);
    }
  }

  lemma AlarmUpdateAgrees(e: Engine, log: History, now: Time, k: nat, alarm: AlarmInstance)
    requires Agrees(e, log, now) && k < |e.alarms|
    requires alarm.ruleId == e.alarms[k].ruleId && alarm.raisedAt == e.alarms[k].raisedAt
    ensures Agrees(e.(alarms := e.alarms[k := alarm]), log, now)
  {
    var e' := e.(alarms := e.alarms[k := alarm]);
    forall id
      ensures AgreesOn(e', log, now, id)
    {
      assert AgreesOn(e, log, now, id);
      RaisedTimesUpdate(e.alarms, k, alarm, id);
    }
  }
}
