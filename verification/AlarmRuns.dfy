/** Whole runs of the alarm engine: the rate limit over any minute, and the life of an alarm. */
module AlarmRuns {
  import opened Bytes
  import opened AlarmEngine
  import opened AlarmHistory

  // ---------- runs ----------

  datatype Event =
    | AddRuleEvent(rule: AlarmRule)
    | SampleEvent(obs: Observation, readings: seq<Reading>)
    | AcknowledgeEvent(id: Id, actor: string, at: Time)
    | ClearEvent(id: Id, reason: string, at: Time)
    | ResetEvent(key: string)

  /** The engine, the full history beside it, and the clock. */
  datatype Moment = Moment(engine: Engine, log: History, now: Time)

  ghost predicate StepTo(upper: char -> char, m: Moment, event: Event, m': Moment) {
    match event
    case AddRuleEvent(rule) => m'.engine == AddedRule(m.engine, rule) && m'.log == m.log
    case SampleEvent(obs, ts) =>
      && |ts| == |m.engine.rules|
      && m'.engine == ProcessRules(upper, m.engine, m.engine.rules, obs, ts).0
      && m'.log == AfterRules(upper, m.log, m.engine.rules, obs, ts)
    case AcknowledgeEvent(id, actor, at) =>
      m'.engine == AcknowledgedBy(m.engine, id, actor, at).0 && m'.log == m.log
    case ClearEvent(id, reason, at) => m'.engine == ClearedFor(m.engine, id, reason, at).0 && m'.log == m.log
    case ResetEvent(key) =>
      m'.engine == DebounceReset(m.engine, key) && m'.log == AfterReset(m.log, m.engine.rules, key)
  }

  /** During the event the clock does not step back. */
  predicate SteadyStep(m: Moment, event: Event, m': Moment) {
    m.now <= m'.now && (event.SampleEvent? ==> InSequence(m.now, event.readings, m'.now))
  }

  ghost predicate Run(upper: char -> char, moments: seq<Moment>, events: seq<Event>) {
    && |moments| == |events| + 1
    && moments[0].engine == Engine([], [], map[], map[]) && moments[0].log == []
    && forall i :: 0 <= i < |events| ==> StepTo(upper, moments[i], events[i], moments[i + 1])
  }

  /** The clock never steps back during the run. */
  ghost predicate Steady(moments: seq<Moment>, events: seq<Event>) {
    |moments| == |events| + 1 && forall i :: 0 <= i < |events| ==> SteadyStep(moments[i], events[i], moments[i + 1])
  }

  lemma StepAgrees(upper: char -> char, m: Moment, event: Event, m': Moment)
    requires StepTo(upper, m, event, m') && SteadyStep(m, event, m') && Agrees(m.engine, m.log, m.now)
    ensures Agrees(m'.engine, m'.log, m'.now)
  {
    match event
    case AddRuleEvent(rule) =>
      AgreesLater(m.engine, m.log, m.now, m'.now);
      assert forall id :: AgreesOn(m.engine, m.log, m'.now, id) ==> AgreesOn(m'.engine, m'.log, m'.now, id);
    case SampleEvent(obs, ts) =>
      RulesAgree(upper, m.engine, m.log, m.now, m.engine.rules, obs, ts, m'.now);
    case AcknowledgeEvent(id, actor, at) =>
      AgreesLater(m.engine, m.log, m.now, m'.now);
      var k := FindAlarm(m.engine.alarms, id);
      if m'.engine != m.engine {
        AlarmUpdateAgrees(m.engine, m.log, m'.now, k, m'.engine.alarms[k]);
      }
    case ClearEvent(id, reason, at) =>
      AgreesLater(m.engine, m.log, m.now, m'.now);
      var k := FindAlarm(m.engine.alarms, id);
      if m'.engine != m.engine {
        AlarmUpdateAgrees(m.engine, m.log, m'.now, k, m'.engine.alarms[k]);
      }
    case ResetEvent(key) =>
      AgreesLater(m.engine, m.log, m.now, m'.now);
      ResetAgrees(m.engine, m.log, m'.now, m.engine.rules, key);
  }

  /** At every moment of every run on a steady clock the counters and queues agree with the full history. */
  lemma {:induction false} RunAgrees(upper: char -> char, moments: seq<Moment>, events: seq<Event>, n: nat)
    requires Run(upper, moments, events) && Steady(moments, events) && n < |moments|
    ensures Agrees(moments[n].engine, moments[n].log, moments[n].now)
  {
    if n == 0 {
      forall id
        ensures AgreesOn(moments[0].engine, moments[0].log, moments[0].now, id)
      {
      }
    } else {
      RunAgrees(upper, moments, events, n - 1);
      assert StepTo(upper, moments[n - 1], events[n - 1], moments[n - 1 + 1]);
      assert SteadyStep(moments[n - 1], events[n - 1], moments[n - 1 + 1]);
      StepAgrees(upper, moments[n - 1], events[n - 1], moments[n]);
    }
  }

  /**
   On a steady clock a sample raises exactly the alarms the full history calls for: a breaching rule is held
   back only while its debounce count is short or its last minute holds `MaxPerMinute` fires.
   */
  lemma SamplesFollowHistory(upper: char -> char, moments: seq<Moment>, events: seq<Event>, n: nat)
    requires Run(upper, moments, events) && Steady(moments, events)
    requires n < |events| && events[n].SampleEvent?
    requires |events[n].readings| == |moments[n].engine.rules|
    ensures ProcessRules(upper, moments[n].engine, moments[n].engine.rules, events[n].obs, events[n].readings).1
         == HistoricalAlarms(upper, moments[n].log, moments[n].engine.rules, events[n].obs, events[n].readings)
  {
    RunAgrees(upper, moments, events, n);
    assert StepTo(upper, moments[n], events[n], moments[n + 1]);
    assert SteadyStep(moments[n], events[n], moments[n + 1]);
    RulesAgree(upper, moments[n].engine, moments[n].log, moments[n].now, moments[n].engine.rules, events[n].obs,
               events[n].readings, moments[n + 1].now);
  }

  // ---------- the debounce counter ----------

  lemma {:induction false} RulesCount(upper: char -> char, e: Engine, log: History, rules: seq<AlarmRule>,
                                      obs: Observation, ts: seq<Reading>, id: Id)
    requires |ts| == |rules| && Counter(e.consecutive, id) == Wrap32(BreachCount(log, id))
    ensures Counter(ProcessRules(upper, e, rules, obs, ts).0.consecutive, id)
         == Wrap32(BreachCount(AfterRules(upper, log, rules, obs, ts), id))
  {
    if rules != [] {
      var n := |rules| - 1;
      RulesCount(upper, e, log, rules[..n], obs, ts[..n], id);
      CounterStaysEqual(upper, ProcessRules(upper, e, rules[..n], obs, ts[..n]).0,
                        AfterRules(upper, log, rules[..n], obs, ts[..n]), rules[n], obs, ts[n], id);
    }
  }

  lemma {:induction false} ResetCounts(consecutive: map<Id, int32>, log: History, rules: seq<AlarmRule>, key: string,
                                       id: Id)
    requires Counter(consecutive, id) == Wrap32(BreachCount(log, id))
    ensures Counter(ZeroedCounters(consecutive, rules, key), id) == Wrap32(BreachCount(AfterReset(log, rules, key), id))
  {
    if rules != [] {
      var n := |rules| - 1;
      ResetCounts(consecutive, log, rules[..n], key, id);
      var before := AfterReset(log, rules[..n], key);
      assert before + [] == before;
      assert (before + [ResetOf(rules[n].id)])[..|before|] == before;
    }
  }

  /**
   The counter of a rule is the number of its breaching samples since its last reset, kept in 32 bits, whatever
   came between and whatever the clock did.
   */
  lemma {:induction false} CounterIsBreachCount(upper: char -> char, moments: seq<Moment>, events: seq<Event>, n: nat,
                                                id: Id)
    requires Run(upper, moments, events) && n < |moments|
    ensures Counter(moments[n].engine.consecutive, id) == Wrap32(BreachCount(moments[n].log, id))
  {
    if n > 0 {
      CounterIsBreachCount(upper, moments, events, n - 1, id);
      var m := moments[n - 1];
      assert StepTo(upper, m, events[n - 1], moments[n - 1 + 1]);
      match events[n - 1]
      case SampleEvent(obs, ts) => RulesCount(upper, m.engine, m.log, m.engine.rules, obs, ts, id);
      case ResetEvent(key) => ResetCounts(m.engine.consecutive, m.log, m.engine.rules, key, id);
      case _ =>
    }
  }

  /** A sample that breaches no rule changes nothing; in particular it does not interrupt a debounce count. */
  lemma {:induction false} QuietSampleChangesNothing(upper: char -> char, e: Engine, rules: seq<AlarmRule>,
                                                     obs: Observation, ts: seq<Reading>)
    requires |ts| == |rules|
    requires forall rule :: rule in rules ==> !Breaches(upper, rule, obs)
    ensures ProcessRules(upper, e, rules, obs, ts).0 == e
    ensures ProcessRules(upper, e, rules, obs, ts).1 == []
  {
    if rules != [] {
      var n := |rules| - 1;
      assert rules[n] in rules && forall rule :: rule in rules[..n] ==> rule in rules;
      QuietSampleChangesNothing(upper, e, rules[..n], obs, ts[..n]);
      assert ProcessRule(upper, e, rules[n], obs, ts[n]) == (e, []);
    }
  }

  // ---------- the rate limit ----------

  /** Any `limit` + 1 consecutive times span more than a minute. */
  predicate Spaced(times: seq<Time>, limit: nat) {
    forall i :: 0 <= i < |times| - limit ==> times[i] < times[i + limit] - MINUTE
  }

  /** How many of the times lie in the closed minute that starts at w. */
  function CountIn(times: seq<Time>, w: Time): nat {
    if times == [] then 0
    else
      var n := |times| - 1;
      CountIn(times[..n], w) + if w <= times[n] <= w + MINUTE then 1 else 0
  }

  lemma {:induction false} CountSinceAppend(times: seq<Time>, t: Time, cutoff: Time)
    ensures CountSince(times + [t], cutoff) == CountSince(times, cutoff) + if t >= cutoff then 1 else 0
  {
    if times == [] {
      assert (times + [t])[1..] == [];
    } else {
      assert (times + [t])[1..] == times[1..] + [t];
      CountSinceAppend(times[1..], t, cutoff);
    }
  }

  lemma {:induction false} CountInWithin(times: seq<Time>, w: Time)
    requires forall i :: 0 <= i < |times| ==> times[i] <= w + MINUTE
    ensures CountIn(times, w) == CountSince(times, w)
  {
    if times != [] {
      var n := |times| - 1;
      CountInWithin(times[..n], w);
      CountSinceAppend(times[..n], times[n], w);
      assert times == times[..n] + [times[n]];
    }
  }

  lemma {:induction false} CountSinceAtMost(times: seq<Time>, cutoff: Time)
    ensures CountSince(times, cutoff) <= |times|
  {
    if times != [] {
      CountSinceAtMost(times[1..], cutoff);
    }
  }

  /** Spaced times never put more than `limit` into one closed minute. */
  lemma {:induction false} SpacedWindow(times: seq<Time>, limit: nat, w: Time)
    requires AlarmHistory.Ascending(times) && Spaced(times, limit)
    ensures CountIn(times, w) <= limit
  {
    if times != [] {
      var n := |times| - 1;
      if times[n] > w + MINUTE {
        SpacedWindow(times[..n], limit, w);
      } else {
        CountInWithin(times, w);
        if |times| > limit {
          var k := |times| - limit;
          assert times[k - 1] < times[k - 1 + limit] - MINUTE <= w;
          CountSinceDrop(times, k, w);
          CountSinceAtMost(times[k..], w);
        } else {
          CountSinceAtMost(times, w);
        }
      }
    }
  }

  lemma {:induction false} CountSinceTail(times: seq<Time>, k: nat, cutoff: Time)
    requires AlarmHistory.Ascending(times) && k < |times| && times[k] >= cutoff
    ensures CountSince(times, cutoff) >= |times| - k
  {
    if k == 0 {
      CountSinceAll(times, cutoff);
    } else {
      CountSinceTail(times[1..], k - 1, cutoff);
    }
  }

  ghost predicate RulesWithin(rules: seq<AlarmRule>, id: Id, limit: nat) {
    forall rule :: rule in rules && rule.id == id ==> rule.maxPerMinute <= limit
  }

  /** The times are in order, not later than now, and spaced by the limit. */
  predicate TimesWithin(times: seq<Time>, limit: nat, now: Time) {
    && AlarmHistory.Ascending(times) && (forall i :: 0 <= i < |times| ==> times[i] <= now)
    && Spaced(times, limit)
  }

  predicate RaisedWithin(e: Engine, id: Id, limit: nat, now: Time) {
    TimesWithin(RaisedTimes(e.alarms, id), limit, now)
  }

  lemma FiringKeepsSpacing(raised: seq<Time>, full: seq<Time>, now: Time, t: Reading, max: int, limit: nat)
    requires AlarmsAgree(raised, full) && AlarmHistory.Ascending(full) && ReadingAfter(now, t)
    requires TimesWithin(raised, limit, now) && max <= limit
    requires CountSince(full, t.check - MINUTE) < max
    ensures TimesWithin(raised + [t.raised], limit, t.record)
  {
    var times := raised + [t.raised];
    forall i | 0 <= i < |times| - limit
      ensures times[i] < times[i + limit] - MINUTE
    {
      if i + limit == |raised| {
        if full[i] >= t.check - MINUTE {
          CountSinceTail(full, i, t.check - MINUTE);
          assert false;
        }
      } else {
        assert raised[i] < raised[i + limit] - MINUTE;
      }
    }
  }

  lemma RuleKeepsSpacing(upper: char -> char, e: Engine, log: History, now: Time, rule: AlarmRule, obs: Observation,
                         t: Reading, id: Id, limit: nat)
    requires Agrees(e, log, now) && ReadingAfter(now, t)
    requires RaisedWithin(e, id, limit, now) && (rule.id == id ==> rule.maxPerMinute <= limit)
    ensures RaisedWithin(ProcessRule(upper, e, rule, obs, t).0, id, limit, t.record)
  {
    TimesAfterRule(upper, e, rule, obs, t, id);
    if EngineFires(upper, e, rule, obs, t) && rule.id == id {
      assert AgreesOn(e, log, now, id);
      PrunedCounts(QueueOf(e.history, id), FireTimes(log, id), now, t.check);
      FiringKeepsSpacing(RaisedTimes(e.alarms, id), FireTimes(log, id), now, t, rule.maxPerMinute, limit);
    }
  }

  lemma TimesAfterRule(upper: char -> char, e: Engine, rule: AlarmRule, obs: Observation, t: Reading, id: Id)
    ensures RaisedTimes(ProcessRule(upper, e, rule, obs, t).0.alarms, id)
         == if EngineFires(upper, e, rule, obs, t) && rule.id == id
            then RaisedTimes(e.alarms, id) + [t.raised] else RaisedTimes(e.alarms, id)
  {
    EngineEffect(upper, e, rule, obs, t, id);
    if EngineFires(upper, e, rule, obs, t) {
      RaisedTimesAppend(e.alarms, Raised(rule, obs, t), id);
    } else {
      assert e.alarms + [] == e.alarms;
    }
  }

  lemma {:induction false} RulesKeepSpacing(upper: char -> char, e: Engine, log: History, now: Time,
                                            rules: seq<AlarmRule>, obs: Observation, ts: seq<Reading>, after: Time,
                                            id: Id, limit: nat)
    requires Agrees(e, log, now) && |ts| == |rules| && InSequence(now, ts, after)
    requires RaisedWithin(e, id, limit, now) && RulesWithin(rules, id, limit)
    ensures RaisedWithin(ProcessRules(upper, e, rules, obs, ts).0, id, limit, after)
    decreases |rules|
  {
    if rules != [] {
      var n := |rules| - 1;
      assert rules[n] in rules;
      RulesAgree(upper, e, log, now, rules[..n], obs, ts[..n], ts[n].check);
      RulesKeepSpacing(upper, e, log, now, rules[..n], obs, ts[..n], ts[n].check, id, limit);
      RuleKeepsSpacing(upper, ProcessRules(upper, e, rules[..n], obs, ts[..n]).0,
                       AfterRules(upper, log, rules[..n], obs, ts[..n]), ts[n].check, rules[n], obs, ts[n], id, limit);
    }
  }

  lemma {:induction false} WithoutRuleMembers(rules: seq<AlarmRule>, id: Id)
    ensures forall rule :: rule in WithoutRule(rules, id) <==> rule in rules && rule.id != id
  {
    if rules != [] {
      WithoutRuleMembers(rules[1..], id);
    }
  }

  /** Every rule ever added under this id has at most this limit. */
  ghost predicate AddedWithin(events: seq<Event>, id: Id, limit: nat) {
    forall i :: 0 <= i < |events| && events[i].AddRuleEvent? && events[i].rule.id == id ==>
      events[i].rule.maxPerMinute <= limit
  }

  lemma {:induction false} RulesUnchanged(upper: char -> char, e: Engine, rules: seq<AlarmRule>, obs: Observation,
                                          ts: seq<Reading>)
    requires |ts| == |rules|
    ensures ProcessRules(upper, e, rules, obs, ts).0.rules == e.rules
  {
    if rules != [] {
      RulesUnchanged(upper, e, rules[..|rules| - 1], obs, ts[..|rules| - 1]);
    }
  }

  lemma StepKeepsSpacing(upper: char -> char, m: Moment, event: Event, m': Moment, id: Id, limit: nat)
    requires StepTo(upper, m, event, m') && SteadyStep(m, event, m') && Agrees(m.engine, m.log, m.now)
    requires RulesWithin(m.engine.rules, id, limit) && RaisedWithin(m.engine, id, limit, m.now)
    requires event.AddRuleEvent? && event.rule.id == id ==> event.rule.maxPerMinute <= limit
    ensures RulesWithin(m'.engine.rules, id, limit) && RaisedWithin(m'.engine, id, limit, m'.now)
  {
    match event
    case AddRuleEvent(rule) =>
      WithoutRuleMembers(m.engine.rules, rule.id);
    case SampleEvent(obs, ts) =>
      RulesUnchanged(upper, m.engine, m.engine.rules, obs, ts);
      RulesKeepSpacing(upper, m.engine, m.log, m.now, m.engine.rules, obs, ts, m'.now, id, limit);
    case AcknowledgeEvent(alarm, actor, at) =>
      var k := FindAlarm(m.engine.alarms, alarm);
      if m'.engine != m.engine {
        RaisedTimesUpdate(m.engine.alarms, k, m'.engine.alarms[k], id);
      }
    case ClearEvent(alarm, reason, at) =>
      var k := FindAlarm(m.engine.alarms, alarm);
      if m'.engine != m.engine {
        RaisedTimesUpdate(m.engine.alarms, k, m'.engine.alarms[k], id);
      }
    case ResetEvent(key) =>
  }

  lemma {:induction false} RunKeepsSpacing(upper: char -> char, moments: seq<Moment>, events: seq<Event>, n: nat,
                                           id: Id, limit: nat)
    requires Run(upper, moments, events) && Steady(moments, events)
    requires n < |moments| && AddedWithin(events, id, limit)
    ensures RulesWithin(moments[n].engine.rules, id, limit)
    ensures RaisedWithin(moments[n].engine, id, limit, moments[n].now)
  {
    if n > 0 {
      RunKeepsSpacing(upper, moments, events, n - 1, id, limit);
      RunAgrees(upper, moments, events, n - 1);
      assert StepTo(upper, moments[n - 1], events[n - 1], moments[n - 1 + 1]);
      assert SteadyStep(moments[n - 1], events[n - 1], moments[n - 1 + 1]);
      StepKeepsSpacing(upper, moments[n - 1], events[n - 1], moments[n], id, limit);
    }
  }

  /**
   On a steady clock, however often the rule is replaced, no closed minute holds more alarms of a rule id than
   the largest `MaxPerMinute` it was ever given.
   */
  lemma RateLimitHolds(upper: char -> char, moments: seq<Moment>, events: seq<Event>, n: nat, id: Id, limit: nat,
                       w: Time)
    requires Run(upper, moments, events) && Steady(moments, events)
    requires n < |moments| && AddedWithin(events, id, limit)
    ensures CountIn(RaisedTimes(moments[n].engine.alarms, id), w) <= limit
  {
    RunKeepsSpacing(upper, moments, events, n, id, limit);
    SpacedWindow(RaisedTimes(moments[n].engine.alarms, id), limit, w);
  }

  // ---------- the life of an alarm ----------

  function Rank(state: AlarmState): nat {
    match state
    case Active => 0
    case Acknowledged => 1
    case Cleared => 2
  }

  /** The same alarm at a later time: what it is about never changes, and its state only moves forward. */
  predicate Later(a: AlarmInstance, b: AlarmInstance) {
    && b == a.(state := b.state, acknowledged := b.acknowledged, cleared := b.cleared)
    && Rank(a.state) <= Rank(b.state)
    && (a.state != Active ==> a.acknowledged == b.acknowledged)
  }

  /** The marks on an alarm fit its state. */
  predicate WellMarked(a: AlarmInstance) {
    match a.state
    case Active => a.acknowledged.None? && a.cleared.None?
    case Acknowledged => a.acknowledged.Some? && a.cleared.None?
    case Cleared => a.cleared.Some?
  }

  predicate AlarmsLater(a: seq<AlarmInstance>, b: seq<AlarmInstance>) {
    |a| <= |b| && forall i :: 0 <= i < |a| ==> Later(a[i], b[i])
  }

  ghost predicate AllWellMarked(alarms: seq<AlarmInstance>) {
    forall i :: 0 <= i < |alarms| ==> WellMarked(alarms[i])
  }

  lemma {:induction false} RulesOnlyAppend(upper: char -> char, e: Engine, rules: seq<AlarmRule>, obs: Observation,
                                           ts: seq<Reading>)
    requires |ts| == |rules| && AllWellMarked(e.alarms)
    ensures ProcessRules(upper, e, rules, obs, ts).0.alarms == e.alarms + ProcessRules(upper, e, rules, obs, ts).1
    ensures AllWellMarked(ProcessRules(upper, e, rules, obs, ts).0.alarms)
  {
    if rules != [] {
      var n := |rules| - 1;
      RulesOnlyAppend(upper, e, rules[..n], obs, ts[..n]);
      EngineEffect(upper, ProcessRules(upper, e, rules[..n], obs, ts[..n]).0, rules[n], obs, ts[n], 0);
    }
  }

  lemma StepMovesForward(upper: char -> char, m: Moment, event: Event, m': Moment)
    requires StepTo(upper, m, event, m') && AllWellMarked(m.engine.alarms)
    ensures AlarmsLater(m.engine.alarms, m'.engine.alarms) && AllWellMarked(m'.engine.alarms)
  {
    match event
    case SampleEvent(obs, ts) => RulesOnlyAppend(upper, m.engine, m.engine.rules, obs, ts);
    case _ =>
  }

  lemma {:induction false} RunWellMarked(upper: char -> char, moments: seq<Moment>, events: seq<Event>, n: nat)
    requires Run(upper, moments, events) && n < |moments|
    ensures AllWellMarked(moments[n].engine.alarms)
  {
    if n > 0 {
      RunWellMarked(upper, moments, events, n - 1);
      assert StepTo(upper, moments[n - 1], events[n - 1], moments[n - 1 + 1]);
      StepMovesForward(upper, moments[n - 1], events[n - 1], moments[n]);
    }
  }

  /** Alarms are never dropped, never altered in what they report, and never return to an earlier state. */
  lemma {:induction false} AlarmsMoveForward(upper: char -> char, moments: seq<Moment>, events: seq<Event>, i: nat,
                                             j: nat)
    requires Run(upper, moments, events) && i <= j < |moments|
    ensures AlarmsLater(moments[i].engine.alarms, moments[j].engine.alarms)
    ensures AllWellMarked(moments[j].engine.alarms)
    decreases j - i
  {
    RunWellMarked(upper, moments, events, j);
    if i < j {
      AlarmsMoveForward(upper, moments, events, i, j - 1);
      assert StepTo(upper, moments[j - 1], events[j - 1], moments[j - 1 + 1]);
      StepMovesForward(upper, moments[j - 1], events[j - 1], moments[j]);
      var a, b, c := moments[i].engine.alarms, moments[j - 1].engine.alarms, moments[j].engine.alarms;
      forall k | 0 <= k < |a|
        ensures Later(a[k], c[k])
      {
        assert Later(a[k], b[k]) && Later(b[k], c[k]);
      }
    }
  }
}
