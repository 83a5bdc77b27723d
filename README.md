# mousewatcher: a Dafny model of the idle watcher and its random walk

mousewatcher keeps a computer from looking idle. It starts in the off state.
A key release switches watching on. While watching is on, a background loop
checks once a second whether the user has been inactive for longer than a
threshold (10 s by default, or `--delay` seconds). When that holds, it walks
the cursor to a random point near the display centre. The walk goes one pixel
per axis per step, and it occasionally presses the left button. A second key
release ends the process.

The model has five modules:

- `Prelude` (`prelude.dfy`): the Rust integer semantics the source relies on.
  This covers the `as i32` cast, Rust's truncating `%` (Dafny's own `%` is
  Euclidean), the i32 and u128 ranges, and an `Option` type.
- `ActivityClock` (`activity_clock.dfy`): `should_move` as the predicate
  `ShouldMove(now, lastMoveMs, noActionMs)`, with lemmas on the unset
  sentinel, the strict threshold and monotonicity in time.
- `Toggle` (`toggle.dfy`): the listener `callback` as a pure transition
  function `Handle` over a `State` value. `Run` folds `Handle` over a stream
  of timestamped events. Lemmas cover each transition, toggle parity, and
  clock monotonicity over a stream.
- `WalkEngine` (`walk.dfy`): `make_random_move`. `Destination` is the
  destination arithmetic. `Plan` is the reference definition of the events a
  fully successful walk injects. `Attempt` cuts a plan at the first failed
  injection. `Animate` is the source's loop, written as a `while` loop and
  proved equal to `Attempt(Plan(...))`. `MakeRandomMove` adds the
  display-size query and the destination.
- `MouseWatcher` (`watcher.dfy`): the `static mut` globals as the fields of a
  class `Watcher`. Its constructor is start-up. `Callback` is proved to
  follow `Handle`. `Tick` is one pass of the `start_watcher` loop body.

The clock, randomness and the platform are parameters:

- `now` is a parameter of every operation that reads `SystemTime::now`.
- The two random `i32` values for the destination are `rx` and `ry`.
- `rolls(i)` says whether iteration `i`'s draw of `rand::random::<f32>()`
  fell below the click probability.
- `injectOk(k)` says whether the `k`-th call to `simulate` in a walk
  succeeds.
- `display` is `None` when `display_size` fails, and otherwise holds the
  width and height.
- `orig` is the cursor position that `device_query` reports.

The model follows what the code does. The hotkey is not checked, although
the banner at src/main.rs:77-82 tells the user to press `MASTER_KEY` to start
or stop watching. `EventType::KeyRelease(_key)` at src/main.rs:134 binds a
fresh variable and never compares it with `MASTER_KEY`. So a release of any
key toggles, and the release of any key while watching ends the process. In
four more places a reader could expect different behaviour:

- The key release that switches watching on does not reset the activity
  timestamp (src/main.rs:139-141, `Toggle.StartingKeepsIdleVerdict`). The
  press of the same key does, because it is not a release and so stamps the
  clock (src/main.rs:146-147). The countdown therefore restarts at the key
  press (`Toggle.KeystrokeRestartsCountdown`). A walk right after switching
  on needs the key held down longer than the threshold, or a release whose
  press never reached the listener.
- A failed `simulate` aborts the walk through `?` (src/main.rs:184, 190).
  The walk stops at the first failure; the loop prints the error
  (src/main.rs:117) and carries on.
- The click budget is a counter that rises to `COUNT_OF_CLICKS` = 3
  (src/main.rs:163, 186-187). Button presses are injected without a matching
  release.
- The destination is not clamped to the display (`WalkEngine.DestinationUnclamped`).

## Model

| member | source | states |
|---|---|---|
| `Prelude.Rem` | src/main.rs:155-156 | Rust's `%`: the remainder is smaller in magnitude than the divisor, has the sign of the dividend, and leaves a multiple of the divisor |
| `Prelude.AsI32` | src/main.rs:152-153 | the `as i32` cast yields an i32 congruent to its input modulo 2^32, and is the identity on i32 values |
| `ActivityClock.ShouldMove` | src/main.rs:125-130 | `should_move`: idle iff a timestamp has been recorded and the instant lies strictly beyond the timestamp plus the threshold |
| `ActivityClock.UnsetNeverIdle` | src/main.rs:129 | with `LAST_MOVE_MS == 0` the idle test is false at every instant |
| `ActivityClock.ThresholdIsStrict` | src/main.rs:127-129 | exactly at the threshold the test is false, one millisecond later it is true |
| `ActivityClock.IdleIsMonotone` | src/main.rs:125-130 | without new activity, once the test holds it keeps holding |
| `ActivityClock.FreshActivityIsNotIdle` | src/main.rs:127-129 | within the threshold after the recorded activity the test is false |
| `ActivityClock.ScenarioB` | src/main.rs:127-129 | activity at 1000 ms and a 5000 ms threshold give idle at 6001 ms and not at 6000 ms |
| `Toggle.Handle` | src/main.rs:132-148 | the callback keeps the threshold and keeps "exited implies not working"; a key release advances the phase (off, on, exited) by one, capped at exited; any other event keeps the phase |
| `Toggle.ReleaseStartsWatching` | src/main.rs:134-141 | a release of any key while off switches watching on and leaves the timestamp unchanged |
| `Toggle.ReleaseWhileWatchingExits` | src/main.rs:134-138 | a release of any key while on clears the flag and ends the process |
| `Toggle.OtherEventStampsClock` | src/main.rs:146-147 | every event that is not a key release sets the timestamp to `now` and keeps the flag |
| `Toggle.ExitIsFinal` | src/main.rs:138 | after the process has exited no event changes the state |
| `Toggle.ActivityRestartsCountdown` | src/main.rs:146-147 | after a non-release event the idle test stays false for a whole threshold |
| `Toggle.StartingKeepsIdleVerdict` | src/main.rs:139-141 | switching on leaves the idle verdict at every later instant unchanged |
| `Toggle.KeystrokeRestartsCountdown` | src/main.rs:132-147 | a key press followed by its release switches watching on with the timestamp set to the press time, so the idle test is false for a whole threshold after the press |
| `Toggle.RunPhase` | src/main.rs:132-148 | over any stream of events the phase advances by the number of key releases, capped at exited; consistency and the threshold are preserved |
| `Toggle.ToggleParity` | src/main.rs:134-143 | from start-up, watching is on iff exactly one key release arrived, and the process has exited iff two or more did |
| `Toggle.ClockNeverGoesBack` | src/main.rs:146-147 | with events arriving in time order the timestamp never decreases |
| `Toggle.ReleasesKeepClock` | src/main.rs:134-143 | a stream of key releases alone leaves the timestamp unchanged |
| `WalkEngine.Center` | src/main.rs:152-153 | the centre is always an i32, and on any display narrower than 2^32 pixels it is exactly half the size, rounded down |
| `WalkEngine.Offset` | src/main.rs:155-156 | `(r % 800).abs()` lies in [0, 799] for every i32 `r` |
| `WalkEngine.OffsetCoversArea` | src/main.rs:155 | every offset in [0, 799] is produced, by a non-negative and by a non-positive random value |
| `WalkEngine.Destination` | src/main.rs:152-156 | the destination lies in [centre - 400, centre + 399], with centre = size / 2 as i32 |
| `WalkEngine.DestinationUnclamped` | src/main.rs:155-156 | on a 600-pixel axis the destination can be -100 or 699, outside the display |
| `WalkEngine.StepToward` | src/main.rs:165-178 | an axis at its target stays put; otherwise it moves by exactly one pixel and gets strictly closer |
| `WalkEngine.Plan` | src/main.rs:163-193 | the events a walk injects when every injection succeeds; none exactly when the cursor already stands at the destination, as the loop condition at line 164 says |
| `WalkEngine.PlanReachesTarget` | src/main.rs:164-193 | a walk whose injections all succeed ends at the destination after max(\|dx - x\|, \|dy - y\|) moves, each a unit step toward the destination, with no more presses than the budget left |
| `WalkEngine.ScenarioC` | src/main.rs:164-183 | from (100, 100) to (103, 97) with no clicks the walk injects exactly the moves (101, 99), (102, 98), (103, 97) |
| `WalkEngine.FirstFailure` | src/main.rs:184-190 | the first failing injection: every earlier injection succeeded, and it failed unless none did |
| `WalkEngine.Attempt` | src/main.rs:184-190 | the `?` abort: the events tried are a prefix of the plan; `Ok` iff the whole plan was tried and every injection succeeded; otherwise the last tried event is the first that failed, and the error names it |
| `WalkEngine.AttemptFailsAt` | src/main.rs:184-190 | a walk whose last tried injection is the first to fail returns that event's error, having tried exactly a prefix of the plan |
| `WalkEngine.AttemptSucceeds` | src/main.rs:164-194 | a walk whose injections all succeed carries out the whole plan and returns `Ok` |
| `WalkEngine.WalkResult` | src/main.rs:150-195 | `make_random_move` as a function: it fails with `DisplayUnavailable` iff the display size is unknown, and then injects nothing |
| `WalkEngine.WalkGuarantees` | src/main.rs:150-195 | any walk: at most 3 presses and at most max(\|dx\|, \|dy\|) moves; `Ok` iff the display is known and every injection succeeded, and then the cursor ends exactly at the destination after exactly that many moves; a failed walk ends with the event that failed |
| `WalkEngine.Animate` | src/main.rs:157-194 | the step loop injects exactly the events of the plan up to and including the first failing one, and fails with that event |
| `WalkEngine.MakeRandomMove` | src/main.rs:150-195 | matches `WalkResult`; on success the cursor ends at the drawn destination; never more than 3 presses |
| `MouseWatcher.ThresholdMs` | src/main.rs:54 | the threshold (default 10 000 ms, line 15) is whole seconds, the `--delay` seconds are recovered from it, and it is zero only for a delay of 0 |
| `MouseWatcher.Watcher.constructor` | src/main.rs:15-26 | start-up: timestamp = start time, threshold = 10 000 ms or delay × 1000, watching off |
| `MouseWatcher.Watcher.Callback` | src/main.rs:132-148 | the object's new state is `Handle` of its old state, and "exited implies not working" is kept |
| `MouseWatcher.Watcher.Tick` | src/main.rs:111-123 | a walk happens iff watching is on and the idle test holds, so never after the process has exited; the walk is `WalkResult`, otherwise nothing is injected |

## Left out

- Command-line parsing and the `u128` parse of `--delay` (src/main.rs:37-59) are a library call. The constructor takes the parsed value and requires that `delay * 1000` fits in u128. The exit with an error on a bad parameter is not modelled.
- The welcome banner, the coloured output and the `println!` progress lines (src/main.rs:61-109, 117, 128, 162, 188) are output only. At line 117 the watcher loop prints a failed walk's error and carries on; `Watcher.Tick` returns that error instead.
- `rdev::listen`, `simulate` and `display_size`, and the `device_query` cursor read (src/main.rs:32, 151, 157-158, 184, 190) are platform calls. They become the parameters `display`, `orig` and `injectOk`. The error message strings of `CustomError` become the constructors of `MoveError`.
- Synthetic moves reach the callback again through the operating system, which stamps the activity clock. This round trip is platform behaviour. `Tick` leaves the watcher's state unchanged, and the stamping is what `Toggle.OtherEventStampsClock` states.
- `thread::spawn`, the endless loop, the 1 s and 3 ms sleeps, and the unsynchronised `static mut` globals (src/main.rs:15-17, 111-123, 192) are concurrency and timing. One loop pass is `Watcher.Tick`, and events reach `Watcher.Callback` one at a time. The loop spins without sleeping while watching is off; that is timing and is not modelled.
- `SystemTime::now` (src/main.rs:25, 126, 146) is the parameter `now`.
- `rand::random::<f32>() < CLICK_PERCENT` and the `f64` coordinates of `MouseMove` (src/main.rs:181-182, 186) are floating point. They become the boolean oracle `rolls` and integer coordinates.
- `Watcher.Tick`: requires `lastMoveMs <= now` when watching is on, so the u128 subtraction in `should_move` (src/main.rs:127) cannot go below zero. The model does not cover the two ways that subtraction can underflow. One is the system clock going backwards. The other is a race: `should_move` reads the clock at src/main.rs:126 but reads `LAST_MOVE_MS` only at line 127, and in between the listener thread can store a later `now` (src/main.rs:146-147). In a debug build the underflow panics the watcher thread, and no walk ever happens again. In a release build the difference wraps to a huge value, so a walk starts right after user activity.
- `WalkEngine.Destination`: `+ center_x - AREA_SIZE` is summed over unbounded integers. An i32 overflow there needs a display centre within 800 of the i32 limits, i.e. a display more than 4 billion pixels wide.
- `WalkEngine.Animate`: cursor coordinates are unbounded integers. The i32 subtraction `mouse_x - dest_x` would overflow only for a cursor more than 2^31 pixels from the destination.
- `WalkEngine.Animate`: the per-axis update `if (mouse_x - dest_x) != 0 { ... }` is written as a call to `StepToward`, which has the same branches.
- Key and button variants other than `AltGr` and the left, right and middle buttons are folded into `OtherKey(code)` and `OtherButton(code)`. The callback does not look at them.
