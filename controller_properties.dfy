/**
 * What the control policy promises, stated over single ticks, over runs of
 * polls (the scheduler), and over the shutdown decision.
 */
module ControllerProperties {
  import opened Wrappers
  import opened Channel
  import opened Controller

  // ---------------------------------------------------------------------
  // One tick
  // ---------------------------------------------------------------------

  /**
   * The override condition stated on the tick's inputs (the reading and the
   * cycle start the tick settles on) rather than on the snapshot that
   * `Controller.ShouldOverride` reads, so that the lemmas below check
   * `Tick` against an independent statement of the condition.
   */
  predicate OverrideFires(r: Reading, start: Option<int>, now: int, cfg: Config)
  {
    && r.active > 0.0
    && r.desiredTemperature > 0.0
    && Elapsed(now, start) < cfg.cycleLength
    && r.desiredTemperature - r.currentTemperature <= cfg.threshold
  }

  /**
   * The cycle start: a heating reading starts a cycle when the previous
   * snapshot was not heating or had no start; a non-heating reading clears
   * it; otherwise the previous start is kept.
   */
  lemma CycleStartRule(prev: State, r: Reading, now: int, cfg: Config)
    ensures var start := Tick(prev, r, now, cfg).next.cycleStartedAt;
      && (r.active > 0.0 && (!prev.isHeating || !IsSet(prev.cycleStartedAt)) ==> start == Some(now))
      && (r.active <= 0.0 ==> start == None)
      && (r.active > 0.0 && prev.isHeating && IsSet(prev.cycleStartedAt) ==> start == prev.cycleStartedAt)
  {
  }

  /**
   * The override fires exactly when the reading is heating with a demand,
   * the cycle budget is not used up and the gap is within the threshold; it
   * records `floor(desired + 1)` and writes that value.
   */
  lemma OverrideExactly(prev: State, r: Reading, now: int, cfg: Config)
    ensures var res := Tick(prev, r, now, cfg);
      (res.command.Some? && res.next.isAdjusted) <==> OverrideFires(r, res.next.cycleStartedAt, now, cfg)
    ensures var res := Tick(prev, r, now, cfg);
      OverrideFires(r, res.next.cycleStartedAt, now, cfg) ==>
        && res.command == Some(SetMin(OverrideTarget(r.desiredTemperature)))
        && res.next.currentMinTemperatureSet == OverrideTarget(r.desiredTemperature)
        && res.next.isAdjusted
  {
  }

  /**
   * The revert fires exactly when the override does not, there is a demand,
   * the cycle budget is used up, and the previous minimum exceeded the
   * baseline; it records and writes the baseline.
   */
  lemma RevertExactly(prev: State, r: Reading, now: int, cfg: Config)
    ensures var res := Tick(prev, r, now, cfg);
      var start := res.next.cycleStartedAt;
      (res.command.Some? && !res.next.isAdjusted) <==>
        && !OverrideFires(r, start, now, cfg)
        && r.desiredTemperature > 0.0
        && Elapsed(now, start) >= cfg.cycleLength
        && prev.currentMinTemperatureSet > cfg.baseline
    ensures var res := Tick(prev, r, now, cfg);
      res.command.Some? && !res.next.isAdjusted ==>
        && res.command == Some(SetMin(cfg.baseline))
        && res.next.currentMinTemperatureSet == cfg.baseline
  {
  }

  /**
   * The override does not look at the adjusted flag: it fires even when the
   * previous minimum exceeded the baseline, and its raise is the tick's one
   * write.
   */
  lemma OverrideBeforeRevert(prev: State, r: Reading, now: int, cfg: Config)
    requires var start := Tick(prev, r, now, cfg).next.cycleStartedAt;
      OverrideFires(r, start, now, cfg) && prev.currentMinTemperatureSet > cfg.baseline
    ensures Tick(prev, r, now, cfg).command == Some(SetMin(OverrideTarget(r.desiredTemperature)))
  {
  }

  /**
   * Without a heating demand (the hot-water sentinel 0 or below) nothing is
   * written and the override state carries forward.
   */
  lemma NoDemandNoCommand(prev: State, r: Reading, now: int, cfg: Config)
    requires r.desiredTemperature <= 0.0
    ensures var res := Tick(prev, r, now, cfg);
      && res.command == None
      && res.next.currentMinTemperatureSet == prev.currentMinTemperatureSet
      && (res.next.isAdjusted <==> prev.currentMinTemperatureSet > cfg.baseline)
  {
  }

  /**
   * A non-heating tick has no cycle start, which counts as 0: with a demand,
   * a raised minimum and a clock past one cycle length it reverts at once.
   */
  lemma AbsentStartCountsAsZero(prev: State, r: Reading, now: int, cfg: Config)
    requires r.active <= 0.0 && r.desiredTemperature > 0.0
    requires prev.currentMinTemperatureSet > cfg.baseline
    requires now >= cfg.cycleLength
    ensures Tick(prev, r, now, cfg) ==
      TickResult(Observe(prev, r, cfg.baseline).(cycleStartedAt := None, isAdjusted := false,
                                                 currentMinTemperatureSet := cfg.baseline),
                 Some(SetMin(cfg.baseline)))
  {
  }

  /**
   * The override does not test whether it already applied: a second
   * qualifying tick with the same reading writes again, but records the
   * same minimum (no double raise).
   */
  lemma OverrideReissued(prev: State, r: Reading, now1: int, now2: int, cfg: Config)
    requires var first := Tick(prev, r, now1, cfg);
      && first.command.Some? && first.next.isAdjusted
      && IsSet(first.next.cycleStartedAt)
      && now2 - first.next.cycleStartedAt.value < cfg.cycleLength
    ensures var first := Tick(prev, r, now1, cfg);
      var second := Tick(first.next, r, now2, cfg);
      && second.command == first.command == Some(SetMin(OverrideTarget(r.desiredTemperature)))
      && second.next.currentMinTemperatureSet == first.next.currentMinTemperatureSet
      && second.next.isAdjusted
  {
  }

  /** The snapshot's flag agrees with its minimum temperature. */
  predicate Consistent(s: State, baseline: real)
  {
    s.isAdjusted <==> s.currentMinTemperatureSet > baseline
  }

  /** The first snapshot is consistent. */
  lemma InitConsistent(r: Reading, baseline: real)
    ensures Consistent(Init(r, baseline), baseline)
    ensures Init(r, baseline).cycleStartedAt == None
  {
  }

  /**
   * A tick leaves a consistent snapshot, whatever the previous one, unless
   * it applies an override whose target does not exceed the baseline.
   */
  lemma TickConsistency(prev: State, r: Reading, now: int, cfg: Config)
    ensures var res := Tick(prev, r, now, cfg);
      Consistent(res.next, cfg.baseline) <==>
        !(res.command.Some? && res.next.isAdjusted) || OverrideTarget(r.desiredTemperature) > cfg.baseline
  {
  }

  /**
   * An override whose target does not exceed the baseline is forgotten by
   * the next tick: the flag is recomputed as false, so neither the revert
   * branch nor the shutdown handler puts the baseline back.
   */
  lemma LoweredOverrideForgotten(prev: State, r1: Reading, now1: int, r2: Reading, now2: int,
                                 cfg: Config, revertSucceeds: bool)
    requires var first := Tick(prev, r1, now1, cfg);
      first.command.Some? && first.next.isAdjusted && OverrideTarget(r1.desiredTemperature) <= cfg.baseline
    requires !OverrideFires(r2, Tick(Tick(prev, r1, now1, cfg).next, r2, now2, cfg).next.cycleStartedAt, now2, cfg)
    ensures var second := Tick(Tick(prev, r1, now1, cfg).next, r2, now2, cfg);
      && second.command == None
      && !second.next.isAdjusted
      && second.next.currentMinTemperatureSet == OverrideTarget(r1.desiredTemperature)
      && Shutdown(second.next, cfg, revertSucceeds).revert == None
  {
  }

  // ---------------------------------------------------------------------
  // Runs of polls: the scheduler calling the controller once per period
  // ---------------------------------------------------------------------

  /**
   * One scheduled poll: the reading (absent when the read failed), the
   * clock, and whether a write issued by this poll completes without raising.
   */
  datatype Poll = Poll(reading: Option<Reading>, now: int, writeSucceeds: bool)

  /**
   * The final snapshot of a run, the writes that completed, in order, and
   * whether the poll loop stopped on a failed read or a raising write.
   */
  datatype RunResult = RunResult(last: State, writes: seq<Command>, halted: bool)

  /**
   * The polls of a run, each on the previous poll's snapshot. A poll that
   * halts ends the run: the later polls are never scheduled.
   */
  function Run(s: State, polls: seq<Poll>, cfg: Config): (run: RunResult)
    ensures run.halted ==> |polls| > 0
    decreases |polls|
  {
    if |polls| == 0 then RunResult(s, [], false)
    else
      var p := polls[0];
      var res := Control(s, p.reading, p.now, cfg, p.writeSucceeds);
      if res.halted then RunResult(res.next, [], true)
      else
        var rest := Run(res.next, polls[1..], cfg);
        RunResult(rest.last, (if res.command.Some? then [res.command.value] else []) + rest.writes, rest.halted)
  }

  /**
   * A poll that halts ends the run where it is: the snapshot before it is
   * the last one, and no later poll writes anything.
   */
  lemma RunStopsAtHalt(s: State, p: Poll, rest: seq<Poll>, cfg: Config)
    requires Control(s, p.reading, p.now, cfg, p.writeSucceeds).halted
    ensures Run(s, [p] + rest, cfg) == RunResult(s, [], true)
  {
    assert ([p] + rest)[0] == p;
  }

  /**
   * The recorded minimum is the last value written, or the starting one
   * when the run wrote nothing.
   */
  lemma {:induction false} RunTracksLastWrite(s: State, polls: seq<Poll>, cfg: Config)
    ensures var run := Run(s, polls, cfg);
      if |run.writes| == 0 then run.last.currentMinTemperatureSet == s.currentMinTemperatureSet
      else run.writes[|run.writes| - 1] == SetMin(run.last.currentMinTemperatureSet)
    decreases |polls|
  {
    if |polls| > 0 {
      var p := polls[0];
      var res := Control(s, p.reading, p.now, cfg, p.writeSucceeds);
      RunTracksLastWrite(res.next, polls[1..], cfg);
    }
  }

  /** Every poll writes at most once. */
  lemma {:induction false} RunWritesAtMostOncePerPoll(s: State, polls: seq<Poll>, cfg: Config)
    ensures |Run(s, polls, cfg).writes| <= |polls|
    decreases |polls|
  {
    if |polls| > 0 {
      var p := polls[0];
      var res := Control(s, p.reading, p.now, cfg, p.writeSucceeds);
      RunWritesAtMostOncePerPoll(res.next, polls[1..], cfg);
    }
  }

  /**
   * Whether an override this poll could apply raises the minimum above the
   * baseline. Polls that cannot override (failed read, not heating, no
   * demand, a gap above the threshold) impose nothing.
   */
  predicate RaisesAboveBaseline(p: Poll, cfg: Config)
  {
    && p.reading.Some? && p.reading.value.active > 0.0 && p.reading.value.desiredTemperature > 0.0
    && p.reading.value.desiredTemperature - p.reading.value.currentTemperature <= cfg.threshold ==>
      OverrideTarget(p.reading.value.desiredTemperature) > cfg.baseline
  }

  /**
   * When every override in the run raises above the baseline, a consistent
   * snapshot stays consistent: the flag says whether a revert is owed.
   */
  lemma {:induction false} RunKeepsConsistent(s: State, polls: seq<Poll>, cfg: Config)
    requires Consistent(s, cfg.baseline)
    requires forall i :: 0 <= i < |polls| ==> RaisesAboveBaseline(polls[i], cfg)
    ensures Consistent(Run(s, polls, cfg).last, cfg.baseline)
    decreases |polls|
  {
    if |polls| > 0 {
      var p := polls[0];
      var res := Control(s, p.reading, p.now, cfg, p.writeSucceeds);
      assert RaisesAboveBaseline(p, cfg);
      if p.reading.Some? {
        TickConsistency(s, p.reading.value, p.now, cfg);
        OverrideExactly(s, p.reading.value, p.now, cfg);
      }
      if !res.halted {
        RunKeepsConsistent(res.next, polls[1..], cfg);
      }
    }
  }

  /** Polls without a heating demand, or whose read failed, write nothing and change no minimum. */
  lemma {:induction false} NoDemandRunIsSilent(s: State, polls: seq<Poll>, cfg: Config)
    requires forall i :: 0 <= i < |polls| ==>
      polls[i].reading.Some? ==> polls[i].reading.value.desiredTemperature <= 0.0
    ensures Run(s, polls, cfg).writes == []
    ensures Run(s, polls, cfg).last.currentMinTemperatureSet == s.currentMinTemperatureSet
    decreases |polls|
  {
    if |polls| > 0 {
      var p := polls[0];
      var res := Control(s, p.reading, p.now, cfg, p.writeSucceeds);
      if p.reading.Some? {
        NoDemandNoCommand(s, p.reading.value, p.now, cfg);
      }
      NoDemandRunIsSilent(res.next, polls[1..], cfg);
    }
  }

  /**
   * How the process ends after a run from the first snapshot. A halted poll
   * rejects a promise that nothing handles (the first poll is started
   * without `await`, and the timer drops the promise of every later one), so
   * the runtime ends the process with exit code 1 and the interrupt handler
   * never runs. Otherwise the interrupt comes after the run and the handler
   * decides on the last snapshot.
   */
  function ProcessEnd(first: Reading, polls: seq<Poll>, cfg: Config, revertSucceeds: bool): (res: ShutdownResult)
    ensures Run(Init(first, cfg.baseline), polls, cfg).halted ==> res.revert == None && res.exitCode == 1
    ensures !Run(Init(first, cfg.baseline), polls, cfg).halted ==>
      res == Shutdown(Run(Init(first, cfg.baseline), polls, cfg).last, cfg, revertSucceeds)
  {
    var run := Run(Init(first, cfg.baseline), polls, cfg);
    if run.halted then ShutdownResult(None, 1) else Shutdown(run.last, cfg, revertSucceeds)
  }

  /**
   * After a run from the first snapshot in which every override raises
   * above the baseline, the shutdown decision on the last snapshot writes
   * the baseline back exactly when the recorded minimum exceeds it. The
   * process reaches that decision only when the run did not halt (see
   * `ProcessEndRevertsRaisedMinimum`).
   */
  lemma ShutdownRevertsRaisedMinimum(first: Reading, polls: seq<Poll>, cfg: Config, revertSucceeds: bool)
    requires forall i :: 0 <= i < |polls| ==> RaisesAboveBaseline(polls[i], cfg)
    ensures var last := Run(Init(first, cfg.baseline), polls, cfg).last;
      Shutdown(last, cfg, revertSucceeds).revert.Some? <==> last.currentMinTemperatureSet > cfg.baseline
  {
    InitConsistent(first, cfg.baseline);
    RunKeepsConsistent(Init(first, cfg.baseline), polls, cfg);
  }

  /**
   * Under the same premise, the process writes the baseline back exactly
   * when the run did not halt and the recorded minimum exceeds it; it exits
   * with code 1 when the run halted or that write raised.
   */
  lemma ProcessEndRevertsRaisedMinimum(first: Reading, polls: seq<Poll>, cfg: Config, revertSucceeds: bool)
    requires forall i :: 0 <= i < |polls| ==> RaisesAboveBaseline(polls[i], cfg)
    ensures var run := Run(Init(first, cfg.baseline), polls, cfg);
      ProcessEnd(first, polls, cfg, revertSucceeds).revert.Some? <==>
        !run.halted && run.last.currentMinTemperatureSet > cfg.baseline
    ensures var run := Run(Init(first, cfg.baseline), polls, cfg);
      ProcessEnd(first, polls, cfg, revertSucceeds).exitCode == 1 <==>
        run.halted || (run.last.currentMinTemperatureSet > cfg.baseline && !revertSucceeds)
  {
    ShutdownRevertsRaisedMinimum(first, polls, cfg, revertSucceeds);
  }

  // ---------------------------------------------------------------------
  // Scenarios
  // ---------------------------------------------------------------------

  /** A heating cycle starts with desired 45, current 43, threshold 2, budget 1800 s: the minimum is raised to 46. */
  lemma ScenarioOverride(prev: State, start: int, baseline: real)
    requires !prev.isHeating
    ensures var cfg := Config(1800000, 2.0, baseline);
      var res := Tick(prev, Reading(43.0, 45.0, 1.0, 0.0), start, cfg);
      && res.command == Some(SetMin(46.0))
      && res.next.isAdjusted
      && res.next.currentMinTemperatureSet == 46.0
      && res.next.cycleStartedAt == Some(start)
  {
  }

  /** The same cycle 1800 s later, with a baseline below 46: the baseline is written back. */
  lemma ScenarioRevert(prev: State, start: int, baseline: real)
    requires !prev.isHeating && start != 0 && baseline < 46.0
    ensures var cfg := Config(1800000, 2.0, baseline);
      var r := Reading(43.0, 45.0, 1.0, 0.0);
      var first := Tick(prev, r, start, cfg);
      var second := Tick(first.next, r, start + 1800000, cfg);
      && second.command == Some(SetMin(baseline))
      && !second.next.isAdjusted
      && second.next.currentMinTemperatureSet == baseline
      && second.next.cycleStartedAt == Some(start)
  {
  }

  /**
   * A minimum already above the baseline at start-up, then a failed read on
   * the first poll: the process ends with exit code 1 and the raised minimum
   * is never written back.
   */
  lemma ScenarioFailedReadStrandsRaise(first: Reading, now: int, cfg: Config, revertSucceeds: bool)
    requires first.minimumTemperature > cfg.baseline
    ensures var run := Run(Init(first, cfg.baseline), [Poll(None, now, true)], cfg);
      && run.halted
      && run.last.isAdjusted
      && run.last.currentMinTemperatureSet > cfg.baseline
    ensures ProcessEnd(first, [Poll(None, now, true)], cfg, revertSucceeds) == ShutdownResult(None, 1)
  {
  }

  /**
   * Heating stops mid-cycle while the minimum is raised: the tick reverts as
   * soon as the clock is past one cycle length (the cleared start counts as
   * 0), however short the cycle was; shutdown at that moment would revert too.
   */
  lemma ScenarioHeatingStops(prev: State, r: Reading, now: int, cfg: Config, revertSucceeds: bool)
    requires prev.isHeating && IsSet(prev.cycleStartedAt) && now - prev.cycleStartedAt.value < cfg.cycleLength
    requires prev.isAdjusted && prev.currentMinTemperatureSet > cfg.baseline
    requires r.active <= 0.0 && r.desiredTemperature > 0.0 && now >= cfg.cycleLength
    ensures Tick(prev, r, now, cfg).command == Some(SetMin(cfg.baseline))
    ensures Shutdown(prev, cfg, revertSucceeds).revert == Some(SetMin(cfg.baseline))
  {
  }
}
