/**
 * The process-wide watcher state (the `static mut` globals) as one object:
 * initialised at start-up, updated by the listener callback, and read by each
 * tick of the background loop, which walks the cursor when the watcher is on
 * and the user has been idle long enough.
 */
module MouseWatcher {
  import opened Prelude
  import ActivityClock
  import opened Toggle
  import opened WalkEngine

  /**
   * The idle threshold in milliseconds: the default, or the given seconds
   * times 1000. It is always whole seconds, the seconds given are recovered
   * from it, and only a delay of 0 gives a zero threshold.
   */
  function ThresholdMs(delaySeconds: Option<nat>): (ms: nat)
    ensures ms % 1000 == 0
    ensures delaySeconds.Some? ==> ms / 1000 == delaySeconds.value
    ensures ms == 0 <==> delaySeconds == Some(0)
  {
    match delaySeconds
    case None => ActivityClock.DEFAULT_NO_ACTION_MS
    case Some(d) => d * 1000
  }

  class Watcher {
    /** LAST_MOVE_MS: when activity was last seen, in ms since the epoch; 0 is "never". */
    var lastMoveMs: nat
    /** NO_ACTION_MS: the idle threshold, fixed once start-up is over. */
    const noActionMs: nat
    /** STATE_WORKING: whether the watcher is switched on. */
    var working: bool
    /** Whether the callback has ended the process. */
    var terminated: bool

    ghost predicate Valid()
      reads this
    {
      Consistent(Snapshot())
    }

    /** The fields as a value of the callback's state type. */
    function Snapshot(): State
      reads this
    {
      State(lastMoveMs, noActionMs, working, terminated)
    }

    /**
     * Start-up (`main` with `init_params`): the threshold from the delay in
     * seconds, the activity clock set to the start time, watching off. The
     * u128 product must not overflow.
     */
    constructor (delaySeconds: Option<nat>, now: nat)
      requires delaySeconds.Some? ==> IsU128(delaySeconds.value * 1000)
      ensures Valid()
      ensures Snapshot() == State(now, ThresholdMs(delaySeconds), false, false)
    {
      lastMoveMs := now;
      noActionMs := ThresholdMs(delaySeconds);
      working := false;
      terminated := false;
    }

    /** `callback`: one input event, arriving at `now`. */
    method Callback(event: EventType, now: nat)
      requires Valid()
      modifies this
      ensures Valid()
      ensures Snapshot() == Handle(old(Snapshot()), event, now)
    {
      if terminated {
        return;
      }
      if event.KeyRelease? {
        if working {
          working := false;
          terminated := true;
          return;
        } else {
          working := true;
          return;
        }
      }
      lastMoveMs := now;
    }

    /**
     * One pass of the `start_watcher` loop body: when watching is on and the
     * idle test holds at `now`, one walk with the given display size, random
     * values, cursor position and oracles; otherwise nothing. The watcher's
     * own state is left as it is.
     */
    method Tick(now: nat, display: Option<(nat, nat)>, rx: int, ry: int, orig: (int, int),
                rolls: nat -> bool, injectOk: nat -> bool)
      returns (walked: bool, result: Outcome, events: seq<Injected>)
      requires Valid()
      requires working ==> lastMoveMs <= now
      requires IsI32(rx) && IsI32(ry)
      ensures walked <==> working && ActivityClock.ShouldMove(now, lastMoveMs, noActionMs)
      ensures terminated ==> !walked
      ensures walked ==> (result, events) == WalkResult(display, rx, ry, orig, rolls, injectOk)
      ensures !walked ==> result == Ok && events == []
    {
      walked, result, events := false, Ok, [];
      if working {
        if ActivityClock.ShouldMove(now, lastMoveMs, noActionMs) {
          walked := true;
          result, events := MakeRandomMove(display, rx, ry, orig, rolls, injectOk);
        }
      }
    }
  }
}
