/**
 What each operation of the alarm engine does, said of rules, samples and alarms: which rules a sample makes raise
 an alarm and what the alarm says, which rules an engine keeps, and what acknowledging, clearing and resetting change.
 */
module AlarmEffects {
  import opened Bytes
  import opened Ordinal
  import opened Results
  import opened AlarmEngine

  // ---------- samples ----------

  /** Two values closer than this are equal to the engine. */
  const TOLERANCE := 0.000000001

  /** The value is one the rule is there to report. */
  predicate Beyond(rule: AlarmRule, value: real) {
    match rule.comparison
    case GreaterThan => value > rule.threshold
    case LessThan => value < rule.threshold
    case Equal => rule.threshold - TOLERANCE < value < rule.threshold + TOLERANCE
    case NotEqual => value < rule.threshold - TOLERANCE || value > rule.threshold + TOLERANCE
    case Undefined => false
  }

  /** The sample is of the rule's signal, which is found by name in any letter case, and one to report. */
  predicate Counts(upper: char -> char, rule: AlarmRule, obs: Observation) {
    obs.value.Some? && SameIgnoringCase(upper, rule.signalKey, obs.name) && Beyond(rule, obs.value.value)
  }

  /** The sample counts, completes the rule's debounce count, and finds room in the minute before the check. */
  predicate Due(upper: char -> char, e: Engine, rule: AlarmRule, obs: Observation, t: Reading) {
    && Counts(upper, rule, obs)
    && rule.debounce <= Wrap32(Counter(e.consecutive, rule.id) + 1)
    && |Pruned(QueueOf(e.history, rule.id), t.check - MINUTE)| < rule.maxPerMinute
  }

  /** The alarm is new, and says what the rule and the sample say. */
  predicate Reports(a: AlarmInstance, rule: AlarmRule, obs: Observation, t: Reading) {
    && a.id == t.guid && a.raisedAt == t.raised
    && a.ruleId == rule.id && a.ruleName == rule.name && a.threshold == rule.threshold && a.severity == rule.severity
    && a.signalKey == obs.name && Some(a.value) == obs.value
    && a.state == Active && a.acknowledged == None && a.cleared == None
  }

  /** One rule raises one alarm exactly when it is due; a sample that counts is counted, and for no other rule. */
  lemma RuleRaises(upper: char -> char, e: Engine, rule: AlarmRule, obs: Observation, t: Reading)
    ensures var (e', raised) := ProcessRule(upper, e, rule, obs, t);
      && |raised| == (if Due(upper, e, rule, obs, t) then 1 else 0)
      && (raised != [] ==> Reports(raised[0], rule, obs, t))
      && e'.rules == e.rules && e'.alarms == e.alarms + raised
      && Counter(e'.consecutive, rule.id)
         == (if Counts(upper, rule, obs) then Wrap32(Counter(e.consecutive, rule.id) + 1)
             else Counter(e.consecutive, rule.id))
      && (forall id :: id != rule.id ==>
            && Counter(e'.consecutive, id) == Counter(e.consecutive, id)
            && QueueOf(e'.history, id) == QueueOf(e.history, id))
  {
    assert e.alarms + [] == e.alarms;
    if obs.value.Some? {
      ComparisonIsBeyond(rule, obs.value.value);
    }
  }

  lemma ComparisonIsBeyond(rule: AlarmRule, value: real)
    ensures CheckComparison(rule.comparison, value, rule.threshold) <==> Beyond(rule, value)
  {
  }

  /** The positions of the rules that are due, in ascending order. */
  ghost predicate DueAt(due: seq<nat>, upper: char -> char, e: Engine, rules: seq<AlarmRule>, obs: Observation,
                        ts: seq<Reading>)
    requires |ts| == |rules|
  {
    && (forall k, l :: 0 <= k < l < |due| ==> due[k] < due[l])
    && (forall i: nat :: i in due <==> i < |rules| && Due(upper, e, rules[i], obs, ts[i]))
  }

  ghost predicate DistinctRules(rules: seq<AlarmRule>) {
    forall i, j :: 0 <= i < j < |rules| ==> rules[i].id != rules[j].id
  }

  lemma {:induction false} OtherRulesStay(upper: char -> char, e: Engine, rules: seq<AlarmRule>, obs: Observation,
                                          ts: seq<Reading>, id: Id)
    requires |ts| == |rules| && forall i :: 0 <= i < |rules| ==> rules[i].id != id
    ensures var e' := ProcessRules(upper, e, rules, obs, ts).0;
      Counter(e'.consecutive, id) == Counter(e.consecutive, id) && QueueOf(e'.history, id) == QueueOf(e.history, id)
  {
    if rules != [] {
      var n := |rules| - 1;
      OtherRulesStay(upper, e, rules[..n], obs, ts[..n], id);
      RuleRaises(upper, ProcessRules(upper, e, rules[..n], obs, ts[..n]).0, rules[n], obs, ts[n]);
    }
  }

  lemma OneMoreRule(due: seq<nat>, upper: char -> char, e: Engine, rules: seq<AlarmRule>, obs: Observation,
                    ts: seq<Reading>)
    requires |ts| == |rules| > 0
    requires DueAt(due, upper, e, rules[..|rules| - 1], obs, ts[..|rules| - 1])
    ensures var n := |rules| - 1;
      DueAt(due + (if Due(upper, e, rules[n], obs, ts[n]) then [n] else []), upper, e, rules, obs, ts)
  {
    var n := |rules| - 1;
    var all := due + if Due(upper, e, rules[n], obs, ts[n]) then [n] else [];
    assert forall k :: 0 <= k < |due| ==> due[k] in due;
    forall i: nat
      ensures i in all <==> i < |rules| && Due(upper, e, rules[i], obs, ts[i])
    {
      if i < n {
        assert rules[..n][i] == rules[i] && ts[..n][i] == ts[i];
        assert i in all <==> i in due;
      }
    }
  }

  /** One alarm for each of these positions, with the report of the rule there. */
  ghost predicate ReportAt(raised: seq<AlarmInstance>, due: seq<nat>, rules: seq<AlarmRule>, obs: Observation,
                           ts: seq<Reading>)
    requires |ts| == |rules|
  {
    && |raised| == |due|
    && forall k :: 0 <= k < |due| ==> due[k] < |rules| && Reports(raised[k], rules[due[k]], obs, ts[due[k]])
  }

  lemma OneMoreReport(raised: seq<AlarmInstance>, due: seq<nat>, more: seq<AlarmInstance>, rules: seq<AlarmRule>,
                      obs: Observation, ts: seq<Reading>)
    requires |ts| == |rules| > 0 && |more| <= 1
    requires ReportAt(raised, due, rules[..|rules| - 1], obs, ts[..|rules| - 1])
    requires more != [] ==> Reports(more[0], rules[|rules| - 1], obs, ts[|rules| - 1])
    ensures ReportAt(raised + more, due + (if more == [] then [] else [|rules| - 1]), rules, obs, ts)
  {
  }

  /**
   A sample raises one alarm for each rule that is due when it arrives, in the order of the rules, each with that
   rule's report of the sample, and no other alarm.
   */
  lemma {:induction false} SampleRaises(upper: char -> char, e: Engine, rules: seq<AlarmRule>, obs: Observation,
                                        ts: seq<Reading>)
      returns (due: seq<nat>)
    requires |ts| == |rules| && DistinctRules(rules)
    ensures DueAt(due, upper, e, rules, obs, ts)
    ensures var (e', raised) := ProcessRules(upper, e, rules, obs, ts);
      ReportAt(raised, due, rules, obs, ts) && e'.alarms == e.alarms + raised && e'.rules == e.rules
  {
    if rules == [] {
      due := [];
      assert e.alarms + [] == e.alarms;
    } else {
      var n := |rules| - 1;
      var earlier := SampleRaises(upper, e, rules[..n], obs, ts[..n]);
      var (before, raised) := ProcessRules(upper, e, rules[..n], obs, ts[..n]);
      var more := ProcessRule(upper, before, rules[n], obs, ts[n]).1;
      RuleRaises(upper, before, rules[n], obs, ts[n]);
      OtherRulesStay(upper, e, rules[..n], obs, ts[..n], rules[n].id);
      assert Due(upper, before, rules[n], obs, ts[n]) == Due(upper, e, rules[n], obs, ts[n]);
      OneMoreRule(earlier, upper, e, rules, obs, ts);
      OneMoreReport(raised, earlier, more, rules, obs, ts);
      due := earlier + if Due(upper, e, rules[n], obs, ts[n]) then [n] else [];
      assert e.alarms + raised + more == e.alarms + (raised + more);
    }
  }

  // ---------- rules ----------

  /** The kept rules are those of another id, each from its position, in order. */
  ghost predicate KeptAt(at: seq<nat>, kept: seq<AlarmRule>, rules: seq<AlarmRule>, id: Id) {
    && |at| == |kept|
    && (forall k, l :: 0 <= k < l < |at| ==> at[k] < at[l])
    && (forall i: nat :: i in at <==> i < |rules| && rules[i].id != id)
    && (forall k :: 0 <= k < |at| ==> at[k] < |rules| && kept[k] == rules[at[k]])
  }

  lemma {:induction false} LastRule(rules: seq<AlarmRule>, id: Id)
    requires rules != []
    ensures var n := |rules| - 1;
      WithoutRule(rules, id) == WithoutRule(rules[..n], id) + if rules[n].id == id then [] else [rules[n]]
  {
    var n := |rules| - 1;
    if n > 0 {
      assert rules[1..][..n - 1] == rules[..n][1..];
      LastRule(rules[1..], id);
    }
  }

  lemma OneMoreKept(before: seq<nat>, kept: seq<AlarmRule>, rules: seq<AlarmRule>, id: Id)
    requires rules != [] && KeptAt(before, kept, rules[..|rules| - 1], id)
    ensures var n := |rules| - 1;
      KeptAt(before + (if rules[n].id == id then [] else [n]),
             kept + (if rules[n].id == id then [] else [rules[n]]), rules, id)
  {
    var n := |rules| - 1;
    var at := before + if rules[n].id == id then [] else [n];
    assert forall k :: 0 <= k < |before| ==> before[k] in before;
    forall i: nat
      ensures i in at <==> i < |rules| && rules[i].id != id
    {
      if i < n {
        assert rules[..n][i] == rules[i];
        assert i in at <==> i in before;
      }
    }
  }

  lemma {:induction false} RulesKept(rules: seq<AlarmRule>, id: Id) returns (at: seq<nat>)
    ensures KeptAt(at, WithoutRule(rules, id), rules, id)
  {
    at := [];
    if rules != [] {
      var n := |rules| - 1;
      var before := RulesKept(rules[..n], id);
      LastRule(rules, id);
      OneMoreKept(before, WithoutRule(rules[..n], id), rules, id);
      at := before + if rules[n].id == id then [] else [n];
    }
  }

  /** Adding a rule replaces the rules of its id and keeps all others, in order, before it. */
  lemma AddedRuleExact(e: Engine, rule: AlarmRule) returns (at: seq<nat>)
    ensures var e' := AddedRule(e, rule);
      && e'.rules != [] && e'.rules[|e'.rules| - 1] == rule
      && KeptAt(at, e'.rules[..|e'.rules| - 1], e.rules, rule.id)
      && e' == e.(rules := e'.rules)
    ensures DistinctRules(e.rules) ==> DistinctRules(AddedRule(e, rule).rules)
  {
    at := RulesKept(e.rules, rule.id);
    var kept := WithoutRule(e.rules, rule.id);
    assert (kept + [rule])[..|kept|] == kept;
    forall k | 0 <= k < |kept|
      ensures kept[k].id != rule.id
    {
      assert at[k] in at;
    }
  }

  // ---------- alarms and counters ----------

  /** The first alarm of this id is at this position. */
  ghost predicate IsFirst(alarms: seq<AlarmInstance>, id: Id, k: nat) {
    k < |alarms| && alarms[k].id == id && forall i :: 0 <= i < k ==> alarms[i].id != id
  }

  /** All but the k-th alarm are as they were, and so is what the k-th one reports. */
  ghost predicate OnlyMarked(alarms: seq<AlarmInstance>, alarms': seq<AlarmInstance>, k: nat) {
    && k < |alarms| == |alarms'|
    && (forall i :: 0 <= i < |alarms| && i != k ==> alarms'[i] == alarms[i])
    && var a, a' := alarms[k], alarms'[k];
       && a'.id == a.id && a'.ruleId == a.ruleId && a'.ruleName == a.ruleName && a'.signalKey == a.signalKey
       && a'.value == a.value && a'.threshold == a.threshold && a'.severity == a.severity && a'.raisedAt == a.raisedAt
  }

  /** Acknowledging marks the first alarm of the id if that is active, and changes nothing else. */
  lemma AcknowledgeExact(e: Engine, id: Id, actor: string, now: Time)
    ensures var (e', ok) := AcknowledgedBy(e, id, actor, now);
      && (ok <==> exists k: nat :: IsFirst(e.alarms, id, k) && e.alarms[k].state == Active)
      && (!ok ==> e' == e)
      && e' == e.(alarms := e'.alarms)
      && forall k: nat :: ok && IsFirst(e.alarms, id, k) ==>
           && OnlyMarked(e.alarms, e'.alarms, k) && e'.alarms[k].cleared == e.alarms[k].cleared
           && e'.alarms[k].state == Acknowledged && e'.alarms[k].acknowledged == Some((now, actor))
  {
    var k := FindAlarm(e.alarms, id);
    if k < |e.alarms| {
      assert IsFirst(e.alarms, id, k);
      forall l: nat | IsFirst(e.alarms, id, l)
        ensures l == k
      {
        assert !(l < k) && !(k < l);
      }
    } else {
      assert forall i :: 0 <= i < |e.alarms| ==> e.alarms[i].id != id;
    }
  }

  /** Clearing marks the first alarm of the id in whatever state, and changes nothing else. */
  lemma ClearExact(e: Engine, id: Id, reason: string, now: Time)
    ensures var (e', ok) := ClearedFor(e, id, reason, now);
      && (ok <==> exists k: nat :: IsFirst(e.alarms, id, k))
      && (!ok ==> e' == e)
      && e' == e.(alarms := e'.alarms)
      && forall k: nat :: IsFirst(e.alarms, id, k) ==>
           && OnlyMarked(e.alarms, e'.alarms, k) && e'.alarms[k].acknowledged == e.alarms[k].acknowledged
           && e'.alarms[k].state == Cleared && e'.alarms[k].cleared == Some((now, reason))
  {
    var k := FindAlarm(e.alarms, id);
    if k < |e.alarms| {
      assert IsFirst(e.alarms, id, k);
      forall l: nat | IsFirst(e.alarms, id, l)
        ensures l == k
      {
        assert !(l < k) && !(k < l);
      }
    } else {
      assert forall i :: 0 <= i < |e.alarms| ==> e.alarms[i].id != id;
    }
  }

  /** Resetting a key zeroes the counters of exactly the rules of that very key. */
  lemma ResetExact(e: Engine, key: string, id: Id)
    ensures var e' := DebounceReset(e, key);
      && e' == e.(consecutive := e'.consecutive)
      && Counter(e'.consecutive, id)
         == if exists rule :: rule in e.rules && rule.id == id && rule.signalKey == key then 0
            else Counter(e.consecutive, id)
  {
    ZeroedExact(e.consecutive, e.rules, key, id);
  }

  lemma {:induction false} ZeroedExact(consecutive: map<Id, int32>, rules: seq<AlarmRule>, key: string, id: Id)
    ensures Counter(ZeroedCounters(consecutive, rules, key), id)
         == if exists rule :: rule in rules && rule.id == id && rule.signalKey == key then 0
            else Counter(consecutive, id)
  {
    if rules != [] {
      var n := |rules| - 1;
      ZeroedExact(consecutive, rules[..n], key, id);
      assert rules == rules[..n] + [rules[n]];
      assert forall rule :: rule in rules <==> rule in rules[..n] || rule == rules[n];
    }
  }
}
