/**
 * The listener callback: every input event the operating system reports is
 * handed to `Handle`, which either flips the working flag (a key release),
 * stops the process (a second key release) or stamps the activity clock.
 */
module Toggle {
  import opened Prelude
  import ActivityClock

  /** A keyboard key; the watcher names only AltGr, its advertised hotkey. */
  datatype Key = AltGr | OtherKey(code: nat)

  datatype Button = Left | Right | Middle | OtherButton(code: nat)

  /** The kinds of input event the listener delivers (cursor coordinates as integers). */
  datatype EventType =
    | KeyPress(key: Key)
    | KeyRelease(key: Key)
    | ButtonPress(button: Button)
    | ButtonRelease(button: Button)
    | MouseMove(x: int, y: int)
    | Wheel(deltaX: int, deltaY: int)

  /** The hotkey shown to the user; the callback never compares against it. */
  const MASTER_KEY: Key := AltGr

  /**
   * The process-wide watcher state: the last activity timestamp, the idle
   * threshold, the working flag, and whether the process has exited.
   */
  datatype State = State(lastMoveMs: nat, noActionMs: nat, working: bool, terminated: bool)

  /** The process never keeps working after it has exited. */
  predicate Consistent(s: State) { s.terminated ==> !s.working }

  /** 0: watching is off, 1: watching, 2: the process has exited. */
  function Phase(s: State): nat { if s.terminated then 2 else if s.working then 1 else 0 }

  /**
   * `callback`: a key release, of any key, switches watching on, or off and
   * exits; every other event records `now` as the last activity. Nothing
   * happens once the process has exited.
   */
  function Handle(s: State, e: EventType, now: nat): (t: State)
    ensures t.noActionMs == s.noActionMs
    ensures Consistent(s) ==> Consistent(t)
    ensures Phase(t) == if e.KeyRelease? then Min(Phase(s) + 1, 2) else Phase(s)
  {
    if s.terminated then s
    else if e.KeyRelease? then
      if s.working then s.(working := false, terminated := true)
      else s.(working := true)
    else s.(lastMoveMs := now)
  }

  /** A release of any key while watching is off switches it on and leaves the clock alone. */
  lemma ReleaseStartsWatching(s: State, k: Key, now: nat)
    requires !s.terminated && !s.working
    ensures Handle(s, KeyRelease(k), now) == s.(working := true)
  {
  }

  /** A release of any key while watching clears the flag and exits the process. */
  lemma ReleaseWhileWatchingExits(s: State, k: Key, now: nat)
    requires !s.terminated && s.working
    ensures Handle(s, KeyRelease(k), now) == s.(working := false, terminated := true)
  {
  }

  /** Every event other than a key release stamps the clock and keeps the flag. */
  lemma OtherEventStampsClock(s: State, e: EventType, now: nat)
    requires !s.terminated && !e.KeyRelease?
    ensures Handle(s, e, now) == s.(lastMoveMs := now)
  {
  }

  /** After the process has exited no event changes anything. */
  lemma ExitIsFinal(s: State, e: EventType, now: nat)
    requires s.terminated
    ensures Handle(s, e, now) == s
  {
  }

  /**
   * After a non-release event the idle test stays false for a whole
   * threshold, in particular one millisecond later for any threshold >= 1.
   */
  lemma ActivityRestartsCountdown(s: State, e: EventType, now: nat, later: nat)
    requires !s.terminated && !e.KeyRelease?
    requires now <= later <= now + s.noActionMs
    ensures !ActivityClock.ShouldMove(later, Handle(s, e, now).lastMoveMs, s.noActionMs)
  {
  }

  /**
   * Switching watching on does not restart the countdown: the idle verdict at
   * any later instant is the one the old timestamp gives.
   */
  lemma StartingKeepsIdleVerdict(s: State, k: Key, now: nat, later: nat)
    requires !s.terminated && s.lastMoveMs <= later
    ensures var t := Handle(s, KeyRelease(k), now);
      ActivityClock.ShouldMove(later, t.lastMoveMs, t.noActionMs)
        == ActivityClock.ShouldMove(later, s.lastMoveMs, s.noActionMs)
  {
  }

  /**
   * A keystroke that switches watching on restarts the countdown: the press
   * is not a release, so it stamps the clock, and the release that follows
   * keeps that stamp. For a whole threshold after the press the idle test is false.
   */
  lemma KeystrokeRestartsCountdown(s: State, k: Key, pressed: nat, released: nat, later: nat)
    requires !s.working && !s.terminated
    requires pressed <= released && pressed <= later <= pressed + s.noActionMs
    ensures var t := Run(s, [(KeyPress(k), pressed), (KeyRelease(k), released)]);
      && t.working && t.lastMoveMs == pressed
      && !ActivityClock.ShouldMove(later, t.lastMoveMs, t.noActionMs)
  {
    var events: seq<(EventType, nat)> := [(KeyPress(k), pressed), (KeyRelease(k), released)];
    var stamped := Handle(s, KeyPress(k), pressed);
    var started := Handle(stamped, KeyRelease(k), released);
    assert events[1..] == [(KeyRelease(k), released)] && events[1..][1..] == [];
    assert Run(s, events) == Run(stamped, events[1..]) == Run(started, []) == started;
  }

  /** The callback applied to a stream of (event, arrival time) pairs in order. */
  function Run(s: State, events: seq<(EventType, nat)>): State
    decreases |events|
  {
    if events == [] then s else Run(Handle(s, events[0].0, events[0].1), events[1..])
  }

  /** The number of key releases in a stream. */
  function Releases(events: seq<(EventType, nat)>): nat
    decreases |events|
  {
    if events == [] then 0
    else (if events[0].0.KeyRelease? then 1 else 0) + Releases(events[1..])
  }

  /** Each key release advances the phase by one, up to the exit. */
  lemma {:induction false} RunPhase(s: State, events: seq<(EventType, nat)>)
    ensures Phase(Run(s, events)) == Min(Phase(s) + Releases(events), 2)
    ensures Consistent(s) ==> Consistent(Run(s, events))
    ensures Run(s, events).noActionMs == s.noActionMs
    decreases |events|
  {
    if events != [] {
      RunPhase(Handle(s, events[0].0, events[0].1), events[1..]);
    }
  }

  /**
   * Toggle parity from a fresh start: one release leaves the watcher on, a
   * second one ends the process, and no stream turns it back on after that.
   */
  lemma ToggleParity(s: State, events: seq<(EventType, nat)>)
    requires !s.working && !s.terminated
    ensures Run(s, events).working <==> Releases(events) == 1
    ensures Run(s, events).terminated <==> Releases(events) >= 2
  {
    RunPhase(s, events);
  }

  /** Arrival times never go below the starting timestamp and never go backwards. */
  predicate Chronological(start: nat, events: seq<(EventType, nat)>)
  {
    (forall k | 0 <= k < |events| :: start <= events[k].1)
    && (forall j, k | 0 <= j < k < |events| :: events[j].1 <= events[k].1)
  }

  /** The activity timestamp never decreases when events arrive in time order. */
  lemma {:induction false} ClockNeverGoesBack(s: State, events: seq<(EventType, nat)>)
    requires Chronological(s.lastMoveMs, events)
    ensures s.lastMoveMs <= Run(s, events).lastMoveMs
    decreases |events|
  {
    if events != [] {
      var t := Handle(s, events[0].0, events[0].1);
      assert Chronological(t.lastMoveMs, events[1..]) by {
        forall k | 0 <= k < |events[1..]| ensures t.lastMoveMs <= events[1..][k].1 {
          assert events[1..][k] == events[k + 1];
        }
        forall j, k | 0 <= j < k < |events[1..]| ensures events[1..][j].1 <= events[1..][k].1 {
          assert events[1..][j] == events[j + 1] && events[1..][k] == events[k + 1];
        }
      }
      ClockNeverGoesBack(t, events[1..]);
    }
  }

  /** Key releases alone never move the activity timestamp. */
  lemma {:induction false} ReleasesKeepClock(s: State, events: seq<(EventType, nat)>)
    requires forall k | 0 <= k < |events| :: events[k].0.KeyRelease?
    ensures Run(s, events).lastMoveMs == s.lastMoveMs
    decreases |events|
  {
    if events != [] {
      assert forall k | 0 <= k < |events[1..]| :: events[1..][k] == events[k + 1];
      ReleasesKeepClock(Handle(s, events[0].0, events[0].1), events[1..]);
    }
  }
}
