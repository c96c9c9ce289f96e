/**
 src/AtlasGT.Application/Alarms/AlarmEngine.cs: rules, debounce counters, the pruned queue of fire
 times, and the alarm instances, with the methods that change them.
 */
module AlarmEngine {
  import opened Bytes
  import opened Ordinal
  import opened Results

  type Id = nat

  /** A UTC instant in ticks. */
  type Time = int

  const MINUTE := 600_000_000

  datatype Comparison = GreaterThan | LessThan | Equal | NotEqual | Undefined

  datatype AlarmRule =
    AlarmRule(id: Id, name: string, signalKey: string, threshold: real, comparison: Comparison, severity: int,
              debounce: int32, maxPerMinute: int32)

  datatype AlarmState = Active | Acknowledged | Cleared

  datatype AlarmInstance =
    AlarmInstance(id: Id, ruleId: Id, ruleName: string, signalKey: string, value: real, threshold: real, severity: int,
                  raisedAt: Time, state: AlarmState, acknowledged: Option<(Time, string)>,
                  cleared: Option<(Time, string)>)

  datatype Observation = Observation(name: string, value: Option<real>)

  /** What the environment supplies while one rule is handled: clock readings, and the new alarm's Guid. */
  datatype Reading = Reading(check: Time, guid: Id, raised: Time, record: Time)

  // ---------- the state and its pure helpers ----------

  datatype Engine =
    Engine(rules: seq<AlarmRule>, alarms: seq<AlarmInstance>, consecutive: map<Id, int32>, history: map<Id, seq<Time>>)

  function Abs(x: real): real {
    if x < 0.0 then -x else x
  }

  function CheckComparison(c: Comparison, value: real, threshold: real): bool {
    match c
    case GreaterThan => value > threshold
    case LessThan => value < threshold
    case Equal => Abs(value - threshold) < 0.000000001
    case NotEqual => Abs(value - threshold) > 0.000000001
    case Undefined => false
  }

  /** A sample of the rule's signal, letter case ignored; an observation without a value is not one. */
  predicate IsSampleOf(upper: char -> char, rule: AlarmRule, obs: Observation) {
    obs.value.Some? && SameIgnoringCase(upper, rule.signalKey, obs.name)
  }

  /** A sample of the rule's signal beyond its threshold. */
  predicate Breaches(upper: char -> char, rule: AlarmRule, obs: Observation) {
    IsSampleOf(upper, rule, obs) && CheckComparison(rule.comparison, obs.value.value, rule.threshold)
  }

  function Counter(consecutive: map<Id, int32>, id: Id): int32 {
    if id in consecutive then consecutive[id] else 0
  }

  function QueueOf(history: map<Id, seq<Time>>, id: Id): seq<Time> {
    if id in history then history[id] else []
  }

  /** Dequeue while the front is older than the cutoff. */
  function Pruned(q: seq<Time>, cutoff: Time): seq<Time> {
    if q != [] && q[0] < cutoff then Pruned(q[1..], cutoff) else q
  }

  function Raised(rule: AlarmRule, obs: Observation, t: Reading): AlarmInstance
    requires obs.value.Some?
  {
    AlarmInstance(t.guid, rule.id, rule.name, obs.name, obs.value.value, rule.threshold, rule.severity, t.raised,
                  Active, None, None)
  }

  // ---------- the operations as functions ----------

  /** One turn of the loop in `Process`. */
  function ProcessRule(upper: char -> char, e: Engine, rule: AlarmRule, obs: Observation, t: Reading)
      : (Engine, seq<AlarmInstance>)
  {
    if !Breaches(upper, rule, obs) then (e, [])
    else
      var count := Wrap32(Counter(e.consecutive, rule.id) + 1);
      var counted := e.(consecutive := e.consecutive[rule.id := count]);
      if count < rule.debounce then (counted, [])
      else
        var q := Pruned(QueueOf(e.history, rule.id), t.check - MINUTE);
        if |q| >= rule.maxPerMinute then (counted.(history := e.history[rule.id := q]), [])
        else
          var alarm := Raised(rule, obs, t);
          (counted.(alarms := e.alarms + [alarm], history := e.history[rule.id := q + [t.record]]), [alarm])
  }

  function ProcessRules(upper: char -> char, e: Engine, rules: seq<AlarmRule>, obs: Observation,
                        ts: seq<Reading>): (Engine, seq<AlarmInstance>)
    requires |ts| == |rules|
  {
    if rules == [] then (e, [])
    else
      var n := |rules| - 1;
      var (e', raised) := ProcessRules(upper, e, rules[..n], obs, ts[..n]);
      var (e'', more) := ProcessRule(upper, e', rules[n], obs, ts[n]);
      (e'', raised + more)
  }

  function WithoutRule(rules: seq<AlarmRule>, id: Id): seq<AlarmRule> {
    if rules == [] then []
    else (if rules[0].id == id then [] else [rules[0]]) + WithoutRule(rules[1..], id)
  }

  function AddedRule(e: Engine, rule: AlarmRule): Engine {
    e.(rules := WithoutRule(e.rules, rule.id) + [rule])
  }

  /** The position of the first alarm with this id, or the number of alarms. */
  function FindAlarm(alarms: seq<AlarmInstance>, id: Id): (k: nat)
    ensures k <= |alarms|
    ensures k < |alarms| ==> alarms[k].id == id
    ensures forall i :: 0 <= i < k ==> alarms[i].id != id
  {
    if alarms == [] || alarms[0].id == id then 0
    else
      var k := FindAlarm(alarms[1..], id);
      assert forall i :: 1 <= i < k + 1 ==> alarms[i] == alarms[1..][i - 1];
      k + 1
  }

  function AcknowledgedBy(e: Engine, id: Id, actor: string, now: Time): (Engine, bool) {
    var k := FindAlarm(e.alarms, id);
    if k == |e.alarms| || e.alarms[k].state != Active then (e, false)
    else
      (e.(alarms := e.alarms[k := e.alarms[k].(state := Acknowledged, acknowledged := Some((now, actor)))]), true)
  }

  function ClearedFor(e: Engine, id: Id, reason: string, now: Time): (Engine, bool) {
    var k := FindAlarm(e.alarms, id);
    if k == |e.alarms| then (e, false)
    else (e.(alarms := e.alarms[k := e.alarms[k].(state := Cleared, cleared := Some((now, reason)))]), true)
  }

  /** The counters after zeroing those of the rules whose key is exactly `key`. */
  function ZeroedCounters(consecutive: map<Id, int32>, rules: seq<AlarmRule>, key: string): map<Id, int32> {
    if rules == [] then consecutive
    else
      var n := |rules| - 1;
      var zeroed := ZeroedCounters(consecutive, rules[..n], key);
      if rules[n].signalKey == key then zeroed[rules[n].id := 0] else zeroed
  }

  function DebounceReset(e: Engine, key: string): Engine {
    e.(consecutive := ZeroedCounters(e.consecutive, e.rules, key))
  }

  // ---------- the class ----------

  /** The system clock; a steady one never steps back. */
  class Clock {
    const steady: bool
    var now: Time

    constructor (now: Time, steady: bool)
      ensures this.now == now && this.steady == steady
    {
      this.now, this.steady := now, steady;
    }

    method UtcNow() returns (t: Time)
      modifies this
      ensures t == now
      ensures steady ==> old(now) <= t
    {
      t :| steady ==> t >= now;
      now := t;
    }

    /** `Guid.NewGuid`. */
    method NewGuid() returns (id: Id) {
      id :| true;
    }
  }

  /** The readings of one pass follow each other in time, from `before` to `after`. */
  predicate InSequence(before: Time, ts: seq<Reading>, after: Time) {
    if ts == [] then before <= after
    else
      var t := ts[|ts| - 1];
      InSequence(before, ts[..|ts| - 1], t.check) && t.check <= t.raised <= t.record <= after
  }

  class AlarmEngine {
    const upper: char -> char
    var rules: seq<AlarmRule>
    var alarms: seq<AlarmInstance>
    var consecutive: map<Id, int32>
    var history: map<Id, seq<Time>>

    constructor (upper: char -> char)
      ensures this.upper == upper && State() == Engine([], [], map[], map[])
    {
      this.upper, rules, alarms, consecutive, history := upper, [], [], map[], map[];
    }

    function State(): Engine
      reads this
    {
      Engine(rules, alarms, consecutive, history)
    }

    method AddRule(rule: AlarmRule)
      modifies this
      ensures State() == AddedRule(old(State()), rule)
    {
      var kept: seq<AlarmRule> := [];
      for i := 0 to |rules|
        invariant kept + WithoutRule(rules[i..], rule.id) == WithoutRule(rules, rule.id)
        invariant State() == old(State())
      {
        assert rules[i..][0] == rules[i] && rules[i..][1..] == rules[i + 1..];
        if rules[i].id != rule.id {
          kept := kept + [rules[i]];
        }
      }
      rules := kept + [rule];
    }

    method CheckRateLimit(rule: AlarmRule, clock: Clock) returns (allowed: bool)
      modifies this`history, clock
      ensures clock.steady ==> old(clock.now) <= clock.now
      ensures history == old(history)[rule.id := Pruned(QueueOf(old(history), rule.id), clock.now - MINUTE)]
      ensures allowed <==> |history[rule.id]| < rule.maxPerMinute
    {
      var q := QueueOf(history, rule.id);
      var now := clock.UtcNow();
      var cutoff := now - MINUTE;
      while |q| > 0 && q[0] < cutoff
        invariant Pruned(q, cutoff) == Pruned(QueueOf(history, rule.id), cutoff)
        decreases |q|
      {
        q := q[1..];
      }
      history := history[rule.id := q];
      allowed := |q| < rule.maxPerMinute;
    }

    method RecordFire(id: Id, clock: Clock)
      modifies this`history, clock
      ensures clock.steady ==> old(clock.now) <= clock.now
      ensures history == old(history)[id := QueueOf(old(history), id) + [clock.now]]
    {
      var now := clock.UtcNow();
      history := history[id := QueueOf(history, id) + [now]];
    }

    /** One turn of the loop; the ghost reading records what the clock said. */
    method HandleRule(rule: AlarmRule, obs: Observation, clock: Clock)
        returns (raised: seq<AlarmInstance>, ghost t: Reading)
      modifies this, clock
      ensures (State(), raised) == ProcessRule(upper, old(State()), rule, obs, t)
      ensures clock.steady ==> old(clock.now) <= t.check <= t.raised <= t.record <= clock.now
    {
      raised, t := [], Reading(clock.now, 0, clock.now, clock.now);
      if !Breaches(upper, rule, obs) {
        return;
      }
      var count := Wrap32(Counter(consecutive, rule.id) + 1);
      consecutive := consecutive[rule.id := count];
      if count < rule.debounce {
        return;
      }
      var allowed := CheckRateLimit(rule, clock);
      t := Reading(clock.now, 0, clock.now, clock.now);
      if !allowed {
        return;
      }
      var guid := clock.NewGuid();
      var raisedAt := clock.UtcNow();
      var alarm := AlarmInstance(guid, rule.id, rule.name, obs.name, obs.value.value, rule.threshold, rule.severity,
                                 raisedAt, Active, None, None);
      alarms := alarms + [alarm];
      raised := [alarm];
      ghost var q := history[rule.id];
      RecordFire(rule.id, clock);
      assert history == old(history)[rule.id := q + [clock.now]];
      t := Reading(t.check, guid, raisedAt, clock.now);
    }

    method Process(obs: Observation, clock: Clock) returns (newAlarms: seq<AlarmInstance>, ghost ts: seq<Reading>)
      modifies this, clock
      ensures |ts| == |old(rules)|
      ensures (State(), newAlarms) == ProcessRules(upper, old(State()), old(rules), obs, ts)
      ensures clock.steady ==> InSequence(old(clock.now), ts, clock.now)
    {
      newAlarms, ts := [], [];
      for i := 0 to |rules|
        invariant rules == old(rules)
        invariant |ts| == i
        invariant (State(), newAlarms) == ProcessRules(upper, old(State()), rules[..i], obs, ts)
        invariant clock.steady ==> InSequence(old(clock.now), ts, clock.now)
      {
        ghost var before, earlier := newAlarms, ts;
        var raised, t := HandleRule(rules[i], obs, clock);
        newAlarms := newAlarms + raised;
        ts := ts + [t];
        assert rules[..i + 1][..i] == rules[..i] && ts[..i] == earlier;
        LaterEnd(old(clock.now), earlier, t.check);
      }
      assert rules[..|rules|] == rules;
    }

    method Acknowledge(alarmId: Id, actor: string, clock: Clock) returns (ok: bool)
      modifies this, clock
      ensures (State(), ok) == AcknowledgedBy(old(State()), alarmId, actor, clock.now)
      ensures clock.steady ==> old(clock.now) <= clock.now
    {
      var k := FindAlarm(alarms, alarmId);
      if k == |alarms| || alarms[k].state != Active {
        return false;
      }
      var now := clock.UtcNow();
      alarms := alarms[k := alarms[k].(state := Acknowledged, acknowledged := Some((now, actor)))];
      ok := true;
    }

    method Clear(alarmId: Id, reason: string, clock: Clock) returns (ok: bool)
      modifies this, clock
      ensures (State(), ok) == ClearedFor(old(State()), alarmId, reason, clock.now)
      ensures clock.steady ==> old(clock.now) <= clock.now
    {
      var k := FindAlarm(alarms, alarmId);
      if k == |alarms| {
        return false;
      }
      var now := clock.UtcNow();
      alarms := alarms[k := alarms[k].(state := Cleared, cleared := Some((now, reason)))];
      ok := true;
    }

    method ResetDebounce(signalKey: string)
      modifies this
      ensures State() == DebounceReset(old(State()), signalKey)
    {
      for i := 0 to |rules|
        invariant rules == old(rules) && alarms == old(alarms) && history == old(history)
        invariant consecutive == ZeroedCounters(old(consecutive), rules[..i], signalKey)
      {
        assert rules[..i + 1][..i] == rules[..i];
        if rules[i].signalKey == signalKey {
          consecutive := consecutive[rules[i].id := 0];
        }
      }
      assert rules[..|rules|] == rules;
    }
  }

  lemma LaterEnd(before: Time, ts: seq<Reading>, after: Time)
    ensures forall earlier :: earlier <= after && InSequence(before, ts, earlier) ==> InSequence(before, ts, after)
  {
  }
}
