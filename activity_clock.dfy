/**
 * The idle test of the watcher: the global last-activity timestamp (milliseconds
 * since the Unix epoch, 0 meaning "never recorded") compared against the
 * configured inactivity threshold.
 */
module ActivityClock {

  /** Threshold used when no delay is given on the command line. */
  const DEFAULT_NO_ACTION_MS: nat := 10_000

  /**
   * `should_move`: the time since the last recorded activity strictly exceeds
   * the threshold and a timestamp has been recorded. The source subtracts in
   * u128, which cannot go below zero, so `now` must not precede the timestamp.
   */
  predicate ShouldMove(now: nat, lastMoveMs: nat, noActionMs: nat)
    requires lastMoveMs <= now
    ensures ShouldMove(now, lastMoveMs, noActionMs) <==>
      0 < lastMoveMs && lastMoveMs + noActionMs < now
  {
    now - lastMoveMs > noActionMs && lastMoveMs != 0
  }

  /** The unset sentinel suppresses idle triggering at every instant. */
  lemma UnsetNeverIdle(now: nat, noActionMs: nat)
    ensures !ShouldMove(now, 0, noActionMs)
  {
  }

  /**
   * The comparison is strict: exactly at the threshold nothing happens, one
   * millisecond later the watcher is idle.
   */
  lemma ThresholdIsStrict(lastMoveMs: nat, noActionMs: nat)
    requires lastMoveMs != 0
    ensures !ShouldMove(lastMoveMs + noActionMs, lastMoveMs, noActionMs)
    ensures ShouldMove(lastMoveMs + noActionMs + 1, lastMoveMs, noActionMs)
  {
  }

  /** Once idle, the watcher stays idle as time passes without new activity. */
  lemma IdleIsMonotone(now: nat, later: nat, lastMoveMs: nat, noActionMs: nat)
    requires lastMoveMs <= now <= later
    requires ShouldMove(now, lastMoveMs, noActionMs)
    ensures ShouldMove(later, lastMoveMs, noActionMs)
  {
  }

  /** A recorded timestamp suppresses the idle test for a whole threshold. */
  lemma FreshActivityIsNotIdle(now: nat, lastMoveMs: nat, noActionMs: nat)
    requires lastMoveMs <= now <= lastMoveMs + noActionMs
    ensures !ShouldMove(now, lastMoveMs, noActionMs)
  {
  }

  /** Activity at 1000 ms with a 5000 ms threshold: idle at 6001 ms, not at 6000 ms. */
  lemma ScenarioB()
    ensures ShouldMove(6001, 1000, 5000) && !ShouldMove(6000, 1000, 5000)
  {
  }
}
