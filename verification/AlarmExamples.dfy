/** Two runs of the alarm engine: an interrupted debounce count, and a clock that steps back. */
module AlarmExamples {
  import opened Bytes
  import opened Results
  import opened AlarmEngine
  import opened AlarmHistory
  import opened AlarmRuns
  import opened AlarmDebounce

  // ---------- runs of one rule ----------

  function Temperature(value: real): Observation {
    Observation("temp", Some(value))
  }

  /** An engine with one rule, and its next moment after a temperature. */
  datatype Probe = Probe(rule: AlarmRule, engine: Engine, log: History) {
    function Then(upper: char -> char, value: real, t: Reading): Probe {
      Probe(rule, ProcessRule(upper, engine, rule, Temperature(value), t).0,
            AfterRule(upper, log, rule, Temperature(value), t))
    }

    function At(now: Time): Moment {
      Moment(engine, log, now)
    }
  }

  function Start(rule: AlarmRule): Probe {
    Probe(rule, Engine([rule], [], map[], map[]), [])
  }

  lemma OneRule(upper: char -> char, p: Probe, value: real, t: Reading, now: Time)
    requires p.engine.rules == [p.rule]
    ensures StepTo(upper, p.At(now), SampleEvent(Temperature(value), [t]), p.Then(upper, value, t).At(t.record))
    ensures ProcessRules(upper, p.engine, [p.rule], Temperature(value), [t])
         == ProcessRule(upper, p.engine, p.rule, Temperature(value), t)
  {
    var rules, ts, obs := [p.rule], [t], Temperature(value);
    assert rules[..0] == [] && ts[..0] == [];
    assert ProcessRules(upper, p.engine, rules[..0], obs, ts[..0]) == (p.engine, []);
    assert AfterRules(upper, p.log, rules[..0], obs, ts[..0]) == p.log;
    assert [] + ProcessRule(upper, p.engine, p.rule, obs, t).1 == ProcessRule(upper, p.engine, p.rule, obs, t).1;
  }

  /** A run goes on with one more event. */
  lemma RunGoesOn(upper: char -> char, moments: seq<Moment>, events: seq<Event>, event: Event, m: Moment)
    requires Run(upper, moments, events) && StepTo(upper, moments[|events|], event, m)
    ensures Run(upper, moments + [m], events + [event])
  {
    var longer, all := moments + [m], events + [event];
    forall i | 0 <= i < |all|
      ensures StepTo(upper, longer[i], all[i], longer[i + 1])
    {
      if i < |events| {
        assert StepTo(upper, moments[i], events[i], moments[i + 1]);
      }
    }
  }

  // ---------- an interrupted count ----------

  const TWO_IN_A_ROW := AlarmRule(1, "high", "temp", 20.0, GreaterThan, 1, 2, 10)
  const ZERO := Reading(0, 0, 0, 0)

  /** A breach, then a sample within the threshold: one is counted, none is consecutive, and the next breach fires. */
  lemma BreachThenQuiet(upper: char -> char)
    ensures var p := Start(TWO_IN_A_ROW).Then(upper, 25.0, ZERO).Then(upper, 19.0, ZERO);
      && p.engine == Engine([TWO_IN_A_ROW], [], map[1 := 1], map[]) && p.log == [Breach(1), Quiet(1)]
      && TrailingRun(p.log, 1) == 0
      && |ProcessRule(upper, p.engine, TWO_IN_A_ROW, Temperature(25.0), ZERO).1| == 1
  {
    var p := Start(TWO_IN_A_ROW).Then(upper, 25.0, ZERO);
    assert p.engine == Engine([TWO_IN_A_ROW], [], map[1 := 1], map[]);
    assert p.log == [Breach(1)] + [] == [Breach(1)];
    assert p.log + [Quiet(1)] == [Breach(1), Quiet(1)];
  }

  /**
   A rule that asks for two consecutive samples above 20 degrees raises an alarm on 25, 19, 25: before the
   third sample there are no consecutive ones.
   */
  lemma InterruptedSamplesRaise(upper: char -> char) returns (moments: seq<Moment>, events: seq<Event>)
    ensures Run(upper, moments, events)
    ensures events == [AddRuleEvent(TWO_IN_A_ROW), SampleEvent(Temperature(25.0), [ZERO]),
                       SampleEvent(Temperature(19.0), [ZERO]), SampleEvent(Temperature(25.0), [ZERO])]
    ensures moments[3].engine.rules == [TWO_IN_A_ROW] && !ConsecutiveEnough(moments[3].log, TWO_IN_A_ROW)
    ensures |ProcessRules(upper, moments[3].engine, [TWO_IN_A_ROW], Temperature(25.0), [ZERO]).1| == 1
  {
    var p1 := Start(TWO_IN_A_ROW);
    var p2 := p1.Then(upper, 25.0, ZERO);
    var p3 := p2.Then(upper, 19.0, ZERO);
    OneRule(upper, p1, 25.0, ZERO, 0);
    OneRule(upper, p2, 19.0, ZERO, 0);
    BreachThenQuiet(upper);
    OneRule(upper, p3, 25.0, ZERO, 0);
    moments := [Moment(Engine([], [], map[], map[]), [], 0), p1.At(0), p2.At(0), p3.At(0)];
    events := [AddRuleEvent(TWO_IN_A_ROW), SampleEvent(Temperature(25.0), [ZERO]),
               SampleEvent(Temperature(19.0), [ZERO])];
    assert Run(upper, moments, events);
    RunGoesOn(upper, moments, events, SampleEvent(Temperature(25.0), [ZERO]), p3.Then(upper, 25.0, ZERO).At(0));
    moments := moments + [p3.Then(upper, 25.0, ZERO).At(0)];
    events := events + [SampleEvent(Temperature(25.0), [ZERO])];
  }

  // ---------- a clock that steps back ----------

  const SECOND := 10_000_000

  const ONE_A_MINUTE := AlarmRule(1, "high", "temp", 20.0, GreaterThan, 1, 1, 1)

  /** The limit is checked at 120 s, and then the clock is set back and reads 1 s. */
  const STEPPING := Reading(120 * SECOND, 0, SECOND, SECOND)

  /** Two hot samples: the check at 120 s drops the fire of 0 s from the queue, and a second alarm is raised at 1 s. */
  lemma TwoAlarms(upper: char -> char)
    ensures var p := Start(ONE_A_MINUTE).Then(upper, 25.0, ZERO).Then(upper, 25.0, STEPPING);
      RaisedTimes(p.engine.alarms, 1) == [0, SECOND] && CountIn([0, SECOND], 0) == 2
  {
    var obs, p1 := Temperature(25.0), Start(ONE_A_MINUTE);
    var p2 := p1.Then(upper, 25.0, ZERO);
    RaisedTimesAppend([], Raised(ONE_A_MINUTE, obs, ZERO), 1);
    assert QueueOf(p2.engine.history, 1) == [] + [0] == [0];
    assert Pruned([0], STEPPING.check - MINUTE) == [] by {
      assert [0][1..] == [];
    }
    RaisedTimesAppend(p2.engine.alarms, Raised(ONE_A_MINUTE, obs, STEPPING), 1);
    var times := [0, SECOND];
    assert times[..1][..0] == [] && CountIn(times[..1], 0) == 1;
  }

  /** So a rule limited to one alarm a minute raises two within a second. */
  lemma SteppingClockBreaksLimit(upper: char -> char) returns (moments: seq<Moment>, events: seq<Event>)
    ensures Run(upper, moments, events) && !Steady(moments, events)
    ensures events == [AddRuleEvent(ONE_A_MINUTE), SampleEvent(Temperature(25.0), [ZERO]),
                       SampleEvent(Temperature(25.0), [STEPPING])]
    ensures CountIn(RaisedTimes(moments[3].engine.alarms, 1), 0) > ONE_A_MINUTE.maxPerMinute
  {
    var p1 := Start(ONE_A_MINUTE);
    var p2 := p1.Then(upper, 25.0, ZERO);
    var p3 := p2.Then(upper, 25.0, STEPPING);
    OneRule(upper, p1, 25.0, ZERO, 0);
    OneRule(upper, p2, 25.0, STEPPING, 0);
    TwoAlarms(upper);
    moments := [Moment(Engine([], [], map[], map[]), [], 0), p1.At(0), p2.At(0), p3.At(SECOND)];
    events := [AddRuleEvent(ONE_A_MINUTE), SampleEvent(Temperature(25.0), [ZERO]),
               SampleEvent(Temperature(25.0), [STEPPING])];
    assert !SteadyStep(moments[2], events[2], moments[2 + 1]);
  }
}
