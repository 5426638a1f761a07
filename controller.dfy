/**
 * The control loop of the heater efficiency controller.
 *
 * On every poll the controller builds a new snapshot from the status reading
 * and the previous snapshot, marks the start of a heating cycle, and then
 * either raises the daemon's minimum flow temperature (override), puts it
 * back to the configured baseline (revert), or does nothing. Time is the
 * parameter `now` (milliseconds); the status reading is an input value.
 */
module Controller {
  import opened Wrappers
  import opened Channel

  /** The snapshot kept between polls (`State`). */
  datatype State = State(
    isHeating: bool,
    currentTemperature: real,
    currentMinTemperatureSet: real,
    desiredTemperature: real,
    cycleStartedAt: Option<int>,
    isAdjusted: bool)

  /** The values one poll of the status endpoint yields. */
  datatype Reading = Reading(
    currentTemperature: real,
    desiredTemperature: real,
    active: real,
    minimumTemperature: real)

  /**
   * Fixed configuration: the cycle budget in milliseconds (seconds times
   * 1000), the largest gap between desired and current temperature worth an
   * override, and the baseline minimum temperature.
   */
  datatype Config = Config(cycleLength: int, threshold: real, baseline: real)

  /** What one tick decided: the next snapshot and at most one write. */
  datatype TickResult = TickResult(next: State, command: Option<Command>)

  /** JavaScript truthiness of a start time: absent and 0 both count as "not set". */
  predicate IsSet(t: Option<int>)
  {
    t.Some? && t.value != 0
  }

  /** `cycleStartedAt || null`. */
  function KeepStart(t: Option<int>): (r: Option<int>)
    ensures r.Some? <==> IsSet(t)
    ensures IsSet(t) ==> r == t
  {
    if IsSet(t) then t else None
  }

  /** Milliseconds since the cycle start; an absent start counts as 0. */
  function Elapsed(now: int, start: Option<int>): int
  {
    now - (if start.None? then 0 else start.value)
  }

  /** `Math.floor(desired + 1)`, the minimum temperature an override sets. */
  function OverrideTarget(desired: real): (t: real)
    ensures desired < t <= desired + 1.0
    ensures t == (desired.Floor + 1) as real
  {
    (desired + 1.0).Floor as real
  }

  /** The snapshot of the first poll (`fetchStatus(true)`). */
  function Init(r: Reading, baseline: real): (s: State)
    ensures s.currentMinTemperatureSet == r.minimumTemperature
    ensures s.isAdjusted <==> r.minimumTemperature > baseline
    ensures s.isHeating <==> r.active > 0.0
    ensures s.cycleStartedAt.None?
    ensures s.currentTemperature == r.currentTemperature && s.desiredTemperature == r.desiredTemperature
  {
    State(
      isHeating := r.active > 0.0,
      currentTemperature := r.currentTemperature,
      currentMinTemperatureSet := r.minimumTemperature,
      desiredTemperature := r.desiredTemperature,
      cycleStartedAt := None,
      isAdjusted := r.minimumTemperature > baseline)
  }

  /**
   * The snapshot of a later poll (`fetchStatus(false)`), before the tick's
   * decisions: the measurements come from the reading, the minimum
   * temperature and the cycle start from the previous snapshot.
   */
  function Observe(prev: State, r: Reading, baseline: real): (s: State)
    ensures s.isHeating <==> r.active > 0.0
    ensures s.currentTemperature == r.currentTemperature && s.desiredTemperature == r.desiredTemperature
    ensures s.currentMinTemperatureSet == prev.currentMinTemperatureSet
    ensures s.isAdjusted <==> prev.currentMinTemperatureSet > baseline
    ensures s.cycleStartedAt == KeepStart(prev.cycleStartedAt)
  {
    State(
      isHeating := r.active > 0.0,
      currentTemperature := r.currentTemperature,
      currentMinTemperatureSet := prev.currentMinTemperatureSet,
      desiredTemperature := r.desiredTemperature,
      cycleStartedAt := KeepStart(prev.cycleStartedAt),
      isAdjusted := prev.currentMinTemperatureSet > baseline)
  }

  /** The cycle-start rule: start on a fresh heating cycle, clear when not heating. */
  function CycleStart(prev: State, s: State, now: int): Option<int>
  {
    if s.isHeating && (!prev.isHeating || !IsSet(prev.cycleStartedAt)) then Some(now)
    else if !s.isHeating then None
    else s.cycleStartedAt
  }

  /** The override condition. */
  predicate ShouldOverride(s: State, now: int, cfg: Config)
  {
    && s.isHeating
    && s.desiredTemperature > 0.0
    && Elapsed(now, s.cycleStartedAt) < cfg.cycleLength
    && s.desiredTemperature - s.currentTemperature <= cfg.threshold
  }

  /** The revert condition, consulted only when no override fires. */
  predicate ShouldRevert(s: State, now: int, cfg: Config)
  {
    && s.desiredTemperature > 0.0
    && Elapsed(now, s.cycleStartedAt) >= cfg.cycleLength
    && s.isAdjusted
  }

  /** One successful poll (`control` after its read). */
  function Tick(prev: State, r: Reading, now: int, cfg: Config): (res: TickResult)
    ensures res.next.isHeating <==> r.active > 0.0
    ensures res.next.isHeating <==> res.next.cycleStartedAt.Some?
    ensures res.next.currentTemperature == r.currentTemperature
    ensures res.next.desiredTemperature == r.desiredTemperature
    ensures res.command.Some? ==> res.command == Some(SetMin(res.next.currentMinTemperatureSet))
    ensures res.command.Some? && res.next.isAdjusted ==>
      res.next.currentMinTemperatureSet == OverrideTarget(r.desiredTemperature)
    ensures res.command.Some? && !res.next.isAdjusted ==> res.next.currentMinTemperatureSet == cfg.baseline
    ensures res.command.None? ==>
      && res.next.currentMinTemperatureSet == prev.currentMinTemperatureSet
      && (res.next.isAdjusted <==> prev.currentMinTemperatureSet > cfg.baseline)
  {
    var observed := Observe(prev, r, cfg.baseline);
    var s := observed.(cycleStartedAt := CycleStart(prev, observed, now));
    if ShouldOverride(s, now, cfg) then
      var target := OverrideTarget(s.desiredTemperature);
      TickResult(s.(isAdjusted := true, currentMinTemperatureSet := target), Some(SetMin(target)))
    else if ShouldRevert(s, now, cfg) then
      TickResult(s.(isAdjusted := false, currentMinTemperatureSet := cfg.baseline), Some(SetMin(cfg.baseline)))
    else
      TickResult(s, None)
  }

  /**
   * What one scheduled poll did: the next snapshot, the write it attempted,
   * and whether the poll loop stopped (no further poll is scheduled).
   */
  datatype PollResult = PollResult(next: State, command: Option<Command>, halted: bool)

  /**
   * One scheduled poll (`control`), given the reading (absent when the read
   * failed) and whether the write, if the tick issues one, completes without
   * raising. A failed read or a raising write rejects the poll before the
   * snapshot is stored and before the next poll is scheduled: the previous
   * snapshot stays and polling stops.
   */
  function Control(prev: State, reading: Option<Reading>, now: int, cfg: Config, writeSucceeds: bool)
    : (res: PollResult)
    ensures reading.None? ==> res == PollResult(prev, None, true)
    ensures reading.Some? ==>
      var t := Tick(prev, reading.value, now, cfg);
      && res.command == t.command
      && (res.halted <==> t.command.Some? && !writeSucceeds)
      && res.next == (if res.halted then prev else t.next)
  {
    match reading
    case None => PollResult(prev, None, true)
    case Some(r) =>
      var t := Tick(prev, r, now, cfg);
      if t.command.Some? && !writeSucceeds then PollResult(prev, t.command, true)
      else PollResult(t.next, t.command, false)
  }

  /** How the process ends on an interrupt: the revert it writes, if any, and its exit code. */
  datatype ShutdownResult = ShutdownResult(revert: Option<Command>, exitCode: int)

  /**
   * The interrupt handler (`shutdown`) on the last snapshot, given whether
   * the revert write completes without raising.
   */
  function Shutdown(last: State, cfg: Config, revertSucceeds: bool): (res: ShutdownResult)
    ensures res.revert.Some? <==> last.isAdjusted
    ensures res.revert.Some? ==> res.revert.value == SetMin(cfg.baseline)
    ensures res.exitCode == 1 <==> last.isAdjusted && !revertSucceeds
    ensures res.exitCode == 0 || res.exitCode == 1
  {
    if last.isAdjusted then
      ShutdownResult(Some(SetMin(cfg.baseline)), if revertSucceeds then 0 else 1)
    else
      ShutdownResult(None, 0)
  }
}
