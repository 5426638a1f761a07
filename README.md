# vaillant-efficiency: the control policy in Dafny

This project models the controller that tunes a Vaillant heater through the
ebusd daemon. On every poll it reads the heater's current and desired flow
temperature and its heating-active flag. The daemon's minimum flow
temperature is read only on the first poll (`src/controller.ts:21`). Later
polls carry forward the minimum recorded in the previous snapshot. After
the read the controller does one of three things:

- **Override**: during the first part of a heating cycle, when the desired
  temperature is close enough to the current one, it raises the minimum flow
  temperature to `floor(desired + 1)`.
- **Revert**: once the cycle budget is used up, it writes the configured
  baseline back.
- **Nothing**: it leaves the set-point alone.

On an interrupt it writes the baseline back if an override is active.

The model has four modules:

- `JsonPath` (`src/helper.ts`). Splits a path on `.`, skips `$` segments and
  walks the JSON document. The lookup is a left fold over the segments
  (`Lookup`). The source's loop (`GetValueFromJsonByPath`) is proved equal
  to it. Lemmas prove the split/join round trip, compositionality, skipping
  of `$`, and null absorption.
- `Channel` (`ebusTcp` in `src/controller.ts`). The retry loop runs against
  a fake channel that gives one canned response per process call. A read
  command is repeated until its output is not blank, with one pause per
  blank response. Any other command runs once.
- `Controller` (`src/controller.ts`). Builds the snapshot of the first poll
  (`Init`) and of later polls (`Observe`). `Tick` is one poll as a pure
  decision `(previous snapshot, reading, now, config) -> (next snapshot,
  optional write)`. `Control` is one scheduled poll: it adds the failed read
  and the write that raises, both of which stop the poll loop. `Shutdown`
  is the interrupt handler's decision.
- `ControllerProperties`. States the policy's promises: the exact override
  and revert conditions, the cycle-start rule, the absent start counting as
  0, and the re-issued override. It also covers runs of polls as the
  scheduler drives them (`Run`) and worked scenarios.

Times are integers in milliseconds, and `now` is a parameter. Temperatures
are `real`. Configuration arrives already parsed: `cycleLength` is the
configured seconds times 1000, plus `threshold` and `baseline`.

The model keeps JavaScript's truthiness of `cycleStartedAt`:
`currentState?.cycleStartedAt || null` (`src/controller.ts:25`) and
`!currentState.cycleStartedAt` (`:49`) treat a start time of 0 like an
absent one. That is `Controller.IsSet`.

## Where the code behaves differently from what a reader would expect

The model follows the code in each case.

- **Failed read.** One would expect a failed status read to skip one poll
  while polling goes on. In the code, `fetchStatus` either rejects, when
  the `fetch` outside its `try` fails (`:16`), or returns `null`, when the
  body fails inside the `try` (`:39-41`). `control` then fails at its
  `await` (`:46`) or on `newState.isHeating` (`:49`). Either way the snapshot
  is kept, nothing is written, and the next poll (`:89`) is never scheduled.
  A write that raises (`:66`, `:81`) stops the loop the same way, before the
  new snapshot is stored (`:87`). `Controller.Control` and
  `ControllerProperties.Run` model both. The rejected promise is never
  handled either: the first poll is started without `await` (`:122`), and
  the timer drops the promise of every later one (`:89`). The global
  `fetch` (`:16`) needs Node 18 or later, where an unhandled rejection ends
  the process with exit code 1. So the interrupt handler never runs after a
  halted poll, and a raised minimum stays raised
  (`ControllerProperties.ProcessEndRevertsRaisedMinimum`,
  `ControllerProperties.ScenarioFailedReadStrandsRaise`).
- **Re-issued override.** One would expect a second override poll with an
  unchanged demand to do nothing. In the code the override branch does not
  test `isAdjusted` (`:57-62`), so the same write is issued again with the
  same target (`ControllerProperties.OverrideReissued`).
- **Heating stops mid-cycle.** One would expect no revert on the poll where
  heating stops before the cycle budget is used. In the code the cycle start
  is cleared (`:53`), and `Date.now() - null` counts it as 0 (`:76`). So the
  poll reverts as soon as the clock is past one cycle length
  (`ControllerProperties.ScenarioHeatingStops`).
- **Meaning of `isAdjusted`.** One would expect the flag to hold exactly
  while the minimum exceeds the baseline. The override sets it without
  comparing the target to the baseline (`:68`), and the next poll recomputes
  it from that comparison (`:24`). An override whose target is at or below
  the baseline is therefore forgotten: neither the revert branch nor
  shutdown writes the baseline back
  (`ControllerProperties.LoweredOverrideForgotten`,
  `ControllerProperties.TickConsistency`).

## Model

| member | source | states |
|---|---|---|
| `JsonPath.Split` | src/helper.ts:2 | splitting on '.' yields at least one part and no part contains a dot |
| `JsonPath.JoinSplit` | src/helper.ts:2 | joining the split parts with '.' gives back the path |
| `JsonPath.SplitJoin` | src/helper.ts:2 | splitting the join of dot-free parts gives back the parts |
| `JsonPath.SplitDotFree` | src/helper.ts:2 | a path without a dot is one segment |
| `JsonPath.SplitConcat` | src/helper.ts:2 | the segments of `p.q` are those of `p` followed by those of `q` |
| `JsonPath.GetValueFromJsonByPath` | src/helper.ts:1-18 | the segment-by-segment cursor loop returns exactly the recursive lookup |
| `JsonPath.FoldAppend` | src/helper.ts:5-15 | walking `a + b` is walking `b` from where walking `a` ended (a left fold) |
| `JsonPath.FoldNull` | src/helper.ts:7 | once the cursor is null every later segment leaves it null |
| `JsonPath.RootSegmentSkipped` | src/helper.ts:5-7 | a `$` segment anywhere in the path changes nothing |
| `JsonPath.RootPathIsIdentity` | src/helper.ts:5-7 | the path `$` returns the document unchanged |
| `JsonPath.RootPrefixSkipped` | src/helper.ts:5-7 | `$.q` looks up the same value as `q` |
| `JsonPath.LookupCompose` | src/helper.ts:2-15 | looking up `p.q` is looking up `q` in the result of looking up `p` |
| `JsonPath.LookupField` | src/helper.ts:9-13 | a dot-free field of an object is its member when present, null otherwise |
| `JsonPath.MissingFieldIsNull` | src/helper.ts:9-12 | a field absent from the object makes the lookup and every longer path null |
| `JsonPath.ExplicitNullIsMissing` | src/helper.ts:9-12 | a field holding null gives the same null as the same object without that field |
| `JsonPath.ScalarHasNoFields` | src/helper.ts:9-12 | a field of a non-object is null |
| `JsonPath.NullPrefixIsNull` | src/helper.ts:7 | when `p` looks up null, so does every `p.q` |
| `JsonPath.PresentFieldDescends` | src/helper.ts:9-10 | a present field is descended into: `f.q` on an object is `q` on its member `f` |
| `JsonPath.RootedNestedExample` | src/helper.ts:1-18 | `$.a.b` on `{a: {b: v}}` is `v` |
| `Channel.LeadingBlanks` | src/controller.ts:96-99 | the count of leading blank outputs, all of them blank, and the next response not a blank output |
| `Channel.AwaitPresentIsFirstNonBlank` | src/controller.ts:96-99 | the read loop ends with the first response that is not a blank output, or waits on when there is none |
| `Channel.Exchange` | src/controller.ts:92-102 | a read retries once per leading blank response and returns the first response that is not blank; any other command runs once with no pause |
| `Channel.EbusTcp` | src/controller.ts:92-102 | as written: every process call runs the minimum-temperature read, whatever command was given |
| `Channel.EbusTcpFixed` | src/controller.ts:92-102 | as intended: every process call runs the given command, with the same retry discipline |
| `Channel.WriteNeverSent` | src/controller.ts:93-95 | as written, a write command's one process call is the read, so the write is never sent |
| `Channel.WriteSentOnce` | src/controller.ts:93-95 | as intended, a write command runs exactly once |
| `Channel.ThreeBlanksThenValue` | src/controller.ts:96-99 | three blank answers then a value give that value after three pauses and four calls |
| `Controller.KeepStart` | src/controller.ts:25 | a carried start time survives exactly when it is set and non-zero |
| `Controller.OverrideTarget` | src/controller.ts:63 | the raised minimum `floor(desired + 1)` lies in `(desired, desired + 1]` and equals `floor(desired) + 1` |
| `Controller.Init` | src/controller.ts:19-26 | the first snapshot takes the minimum from the reading, is adjusted iff that minimum exceeds the baseline, and has no cycle start |
| `Controller.Observe` | src/controller.ts:19-26 | a later snapshot takes the measurements from the reading, carries the minimum and the start time, and recomputes the adjusted flag from the previous minimum |
| `Controller.Tick` | src/controller.ts:45-87 | heating iff active > 0 iff a cycle start is present; a write always carries the new recorded minimum (the override target when adjusted, the baseline when not); without a write the minimum carries over and the flag is recomputed |
| `Controller.Control` | src/controller.ts:45-89 | a failed read keeps the previous snapshot, writes nothing and stops polling; a tick whose write raises keeps the previous snapshot and stops polling; otherwise the tick's snapshot is stored and polling goes on |
| `Controller.Shutdown` | src/controller.ts:125-142 | the baseline is written back iff the last snapshot is adjusted; exit code 1 exactly when that write raises, else 0 |
| `ControllerProperties.CycleStartRule` | src/controller.ts:49-54 | a heating reading starts a cycle now when the previous snapshot was not heating or had no start; a non-heating one clears it; otherwise it is kept |
| `ControllerProperties.OverrideExactly` | src/controller.ts:57-69 | the override fires iff heating, demand > 0, elapsed < cycle length and gap <= threshold; it records and writes `floor(desired + 1)` |
| `ControllerProperties.RevertExactly` | src/controller.ts:74-85 | the revert fires iff the override does not, demand > 0, elapsed >= cycle length and the previous minimum exceeded the baseline; it records and writes the baseline |
| `ControllerProperties.OverrideBeforeRevert` | src/controller.ts:57-85 | the override fires even when the previous minimum exceeded the baseline, and its raise is the single write |
| `ControllerProperties.NoDemandNoCommand` | src/controller.ts:57-85 | with desired <= 0 nothing is written, the minimum carries over and the flag is recomputed |
| `ControllerProperties.AbsentStartCountsAsZero` | src/controller.ts:49-85 | a non-heating tick with demand, a raised minimum and a clock past one cycle length reverts |
| `ControllerProperties.OverrideReissued` | src/controller.ts:57-69 | a second qualifying tick with the same reading writes the same value again and records the same minimum |
| `ControllerProperties.InitConsistent` | src/controller.ts:19-26 | the first snapshot's flag agrees with its minimum |
| `ControllerProperties.TickConsistency` | src/controller.ts:24-85 | after a tick the flag agrees with the minimum iff no override fired or its target exceeds the baseline |
| `ControllerProperties.LoweredOverrideForgotten` | src/controller.ts:24-85 | after an override at or below the baseline, the next non-override tick drops the flag and shutdown writes nothing |
| `ControllerProperties.RunStopsAtHalt` | src/controller.ts:45-89 | a poll whose read fails or whose write raises ends the run with the snapshot before it and no later writes |
| `ControllerProperties.RunTracksLastWrite` | src/controller.ts:57-89 | over a run of polls the recorded minimum is the last value written, or the starting one when nothing was written |
| `ControllerProperties.Run` | src/controller.ts:87-89 | the scheduler runs each poll on the snapshot the previous poll stored and stops at the first halted poll; only a run with at least one poll can halt |
| `ControllerProperties.RunWritesAtMostOncePerPoll` | src/controller.ts:57-89 | a run writes at most once per poll |
| `ControllerProperties.RunKeepsConsistent` | src/controller.ts:24-89 | when every poll that is heating with a demand and a gap within the threshold would raise above the baseline, the flag keeps agreeing with the minimum across a run |
| `ControllerProperties.NoDemandRunIsSilent` | src/controller.ts:57-89 | polls without demand, or with a failed read, write nothing and keep the minimum |
| `ControllerProperties.ShutdownRevertsRaisedMinimum` | src/controller.ts:120-142 | after init and a run in which every poll that is heating with a demand and a gap within the threshold would raise above the baseline, the shutdown decision on the last snapshot writes the baseline iff the recorded minimum exceeds it |
| `ControllerProperties.ProcessEnd` | src/controller.ts:122-142 | a halted run exits with 1 and writes nothing, because its rejection is unhandled; a run that did not halt ends with the shutdown decision on its last snapshot |
| `ControllerProperties.ProcessEndRevertsRaisedMinimum` | src/controller.ts:122-141 | under the same premise the process writes the baseline back iff the run did not halt and the recorded minimum exceeds it, and exits with 1 iff the run halted or that write raised |
| `ControllerProperties.ScenarioFailedReadStrandsRaise` | src/controller.ts:45-49 | a minimum above the baseline at start-up and a failed first read: the run halts still adjusted, and the process ends with exit code 1 and no revert |
| `ControllerProperties.ScenarioOverride` | src/controller.ts:49-69 | a new cycle with desired 45, current 43, threshold 2 writes 46 and marks adjusted |
| `ControllerProperties.ScenarioRevert` | src/controller.ts:49-85 | the same cycle 1800 s later writes the baseline back and clears the flag |
| `ControllerProperties.ScenarioHeatingStops` | src/controller.ts:49-85 | heating stopping mid-cycle with a raised minimum reverts once the clock passes one cycle length; shutdown then would revert too |

## Findings

| source | as written | input that shows it | evidently intended | confidence | as-written member | corrected member |
|---|---|---|---|---|---|---|
| src/controller.ts:93-98 | each process call runs the minimum-temperature read command, not the `command` argument | the override write `SetMin(46)` (`:66`) or the shutdown revert (`:130`): the daemon receives only a read | run the given command, and retry only reads | high; not executed | `Channel.WriteNeverSent` | `Channel.EbusTcpFixed` |

`Channel.EbusTcp` is the as-written channel, and `Channel.WriteNeverSent`
shows that no write reaches the daemon through it. `Tick`, `Control`, `Run`
and `Shutdown` treat every emitted `SetMin` as a write the daemon receives.
That holds for `Channel.EbusTcpFixed` (`Channel.WriteSentOnce`) and not for
the code as written.

## Left out

- HTTP `fetch`, `res.json()` and all console logging: network I/O and output. A poll's reading is an input value, and a failed read is `None`.
- Building the reading from the status document: the four dotted-path lookups at `src/controller.ts:20-24`. A missing path yields `null`, and JavaScript then coerces `null` inside comparisons and arithmetic; the model's `Reading` holds numbers only.
- `execSync`: replaced by a finite sequence of canned responses. `Channel.Outcome.Exhausted` stands for the source's unbounded wait when the responses run out.
- Command-string formatting and number-to-text conversion (`:64`, `:79`, `:107-108`). Commands are the `Channel.Command` datatype. The test for `ebusctl read` in the command text (`:95`) becomes a constructor test: the read template contains that text, and the write template starts with `ebusctl write`.
- `dotenv` loading and the `parseInt`/`parseFloat` coercions, including the number-to-string comparison at `:24`. Configuration is already-parsed numbers.
- Timers: the 10 s poll period (`:89`), the 60 s settle pause after an override (`:71`), and the 2 s retry and init pauses (`:97`, `:118`). `Channel.Exchange` counts the retry pauses but does not time them.
- The three separate `Date.now()` calls of one tick (`:50`, `:60`, `:76`) are one `now` in the model.
- The init-time read of the minimum temperature through the channel (`:114`): its result is only logged. The first snapshot's minimum comes from the status reading (`Controller.Init`).
- Start-up failures: the model starts from a completed init read (`:114`) and a successful first status reading (`Controller.Init` takes a plain `Reading`). In the code, an init read that raises, or a first `fetch` that rejects (`:16`, `:120`), rejects `init()`, which nothing handles (`:146`), so the process exits with code 1 before any poll. An init read that only ever gets blank output waits forever. A first reading that returns `null` (`:41`) makes the first poll's `fetchStatus` fail at `:21` and return `null`, so `control` fails at `:49` and the process ends the same way.
- The SIGINT registration and `process.exit` (`:132-144`), and any interleaving of shutdown with a tick in flight. Shutdown is a decision on the last snapshot of a run that did not halt; a halted run ends the process through the unhandled rejection instead (`ControllerProperties.ProcessEnd`). A shutdown before the first snapshot exists, which fails in the code on a `null` state, is not modelled.
- IEEE-754 arithmetic and NaN: temperatures are exact reals.
- JavaScript property access on non-objects (for example `"str"["length"]`) and inherited properties such as `toString` on objects count as missing fields. JSON arrays are not part of `JsonPath.Json`.
