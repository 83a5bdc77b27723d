/**
 * One synthetic walk (`make_random_move`): pick a destination in an 800 x 800
 * square around the display centre, then step the cursor one pixel per axis per
 * iteration until both axes arrive, emitting a move per iteration and at most
 * three left-button presses, and giving up at the first injection that fails.
 *
 * Randomness and the platform are parameters: `rx`, `ry` are the two random
 * i32 values, `rolls(i)` says whether iteration i's random draw fell below the
 * click probability, and `injectOk(k)` whether the k-th injected event succeeds.
 */
module WalkEngine {
  import opened Prelude

  /** Half the side of the square the destination is drawn from. */
  const AREA_SIZE: int := 400

  /** Most button presses injected in one walk. */
  const COUNT_OF_CLICKS: nat := 3

  /** An event the walk injects: a cursor move to (x, y), or a left-button press. */
  datatype Injected = Move(x: int, y: int) | Press

  datatype MoveError = DisplayUnavailable | SimulateFailed(event: Injected)

  datatype Outcome = Ok | Err(error: MoveError)

  /**
   * The display centre along one axis: half the u64 size, cast to i32. On any
   * display narrower than 2^32 pixels it is the exact half, rounded down.
   */
  function Center(size: nat): (c: int)
    ensures IsI32(c)
    ensures size < 0x1_0000_0000 ==> 0 <= c && size == 2 * c + size % 2
  {
    AsI32(size / 2)
  }

  /** `(r % (AREA_SIZE * 2)).abs()` with Rust's truncating remainder. */
  function Offset(r: int): (o: int)
    requires IsI32(r)
    ensures 0 <= o < 2 * AREA_SIZE
  {
    Abs(Rem(r, 2 * AREA_SIZE))
  }

  /** Every offset in the range is drawn by some random value, of either sign. */
  lemma OffsetCoversArea(o: int)
    requires 0 <= o < 2 * AREA_SIZE
    ensures Offset(o) == o && Offset(-o) == o
  {
  }

  /** The destination along one axis lies in [centre - 400, centre + 399]. */
  function Destination(size: nat, r: int): (d: int)
    requires IsI32(r)
    ensures Center(size) - AREA_SIZE <= d <= Center(size) + AREA_SIZE - 1
  {
    Offset(r) + Center(size) - AREA_SIZE
  }

  /** The destination is not clamped: on a 600-pixel axis it can fall off either edge. */
  lemma DestinationUnclamped()
    ensures Destination(600, 0) == -100 && Destination(600, 799) == 699
  {
    assert Rem(799, 800) == 799;
  }

  /** Both coordinates of the destination. */
  function Target(size: (nat, nat), rx: int, ry: int): (int, int)
    requires IsI32(rx) && IsI32(ry)
  {
    (Destination(size.0, rx), Destination(size.1, ry))
  }

  /** One axis of one iteration: unchanged at the target, else one pixel closer. */
  predicate AxisStep(p: int, q: int, target: int)
  {
    if p == target then q == p else Abs(q - p) == 1 && Abs(target - q) < Abs(target - p)
  }

  /** The per-axis update of the walk loop. */
  function StepToward(p: int, target: int): (q: int)
    ensures AxisStep(p, q, target)
  {
    if p - target != 0 then (if p - target > 0 then p - 1 else p + 1) else p
  }

  /** Number of iterations a walk needs: the larger per-axis distance. */
  function Distance(x: int, y: int, dx: int, dy: int): nat
  {
    Max(Abs(dx - x), Abs(dy - y))
  }

  /**
   * The events a walk from (x, y) to (dx, dy) injects when every injection
   * succeeds, `clicks` presses having been made and `i` iterations done.
   */
  function Plan(x: int, y: int, dx: int, dy: int, clicks: nat, i: nat, rolls: nat -> bool): (t: seq<Injected>)
    ensures t == [] <==> x == dx && y == dy
    decreases Distance(x, y, dx, dy)
  {
    if x == dx && y == dy then []
    else
      var nx, ny := StepToward(x, dx), StepToward(y, dy);
      var click := rolls(i) && clicks < COUNT_OF_CLICKS;
      var rest := Plan(nx, ny, dx, dy, if click then clicks + 1 else clicks, i + 1, rolls);
      [Move(nx, ny)] + (if click then [Press] + rest else rest)
  }

  function MoveCount(events: seq<Injected>): nat
    decreases |events|
  {
    if events == [] then 0 else (if events[0].Move? then 1 else 0) + MoveCount(events[1..])
  }

  function PressCount(events: seq<Injected>): nat
    decreases |events|
  {
    if events == [] then 0 else (if events[0].Press? then 1 else 0) + PressCount(events[1..])
  }

  /** Where the cursor is after the moves among `events`, starting at `p`. */
  function Cursor(p: (int, int), events: seq<Injected>): (int, int)
    decreases |events|
  {
    if events == [] then p
    else Cursor(if events[0].Move? then (events[0].x, events[0].y) else p, events[1..])
  }

  /** Every move, from `p` on, is a single-pixel step of each axis toward `d`. */
  predicate StepsToward(p: (int, int), events: seq<Injected>, d: (int, int))
    decreases |events|
  {
    events == [] ||
    if events[0].Move? then
      var q := (events[0].x, events[0].y);
      AxisStep(p.0, q.0, d.0) && AxisStep(p.1, q.1, d.1) && StepsToward(q, events[1..], d)
    else StepsToward(p, events[1..], d)
  }

  /**
   * A complete walk ends exactly at the destination, takes as many moves as
   * the larger per-axis distance, each a unit step toward the destination,
   * and presses the button no more often than the remaining budget allows.
   */
  lemma {:induction false} PlanReachesTarget(x: int, y: int, dx: int, dy: int, clicks: nat, i: nat, rolls: nat -> bool)
    requires clicks <= COUNT_OF_CLICKS
    ensures var t := Plan(x, y, dx, dy, clicks, i, rolls);
      && Cursor((x, y), t) == (dx, dy)
      && MoveCount(t) == Distance(x, y, dx, dy)
      && PressCount(t) <= COUNT_OF_CLICKS - clicks
      && StepsToward((x, y), t, (dx, dy))
    decreases Distance(x, y, dx, dy)
  {
    if !(x == dx && y == dy) {
      var nx, ny := StepToward(x, dx), StepToward(y, dy);
      var click := rolls(i) && clicks < COUNT_OF_CLICKS;
      var c' := if click then clicks + 1 else clicks;
      var rest := Plan(nx, ny, dx, dy, c', i + 1, rolls);
      PlanReachesTarget(nx, ny, dx, dy, c', i + 1, rolls);
      var tail := if click then [Press] + rest else rest;
      var t := [Move(nx, ny)] + tail;
      assert t == Plan(x, y, dx, dy, clicks, i, rolls);
      assert t[0] == Move(nx, ny) && t[1..] == tail;
      if click {
        assert tail[0] == Press && tail[1..] == rest;
      }
    }
  }

  /** One iteration of the plan: a move, possibly a press, then the rest of the walk. */
  lemma PlanUnfolds(x: int, y: int, dx: int, dy: int, clicks: nat, i: nat, rolls: nat -> bool)
    requires !(x == dx && y == dy)
    ensures var nx, ny := StepToward(x, dx), StepToward(y, dy);
      Plan(x, y, dx, dy, clicks, i, rolls) ==
        if rolls(i) && clicks < COUNT_OF_CLICKS
        then [Move(nx, ny), Press] + Plan(nx, ny, dx, dy, clicks + 1, i + 1, rolls)
        else [Move(nx, ny)] + Plan(nx, ny, dx, dy, clicks, i + 1, rolls)
  {
    var nx, ny := StepToward(x, dx), StepToward(y, dy);
    var rest := Plan(nx, ny, dx, dy, clicks + 1, i + 1, rolls);
    assert [Move(nx, ny)] + ([Press] + rest) == [Move(nx, ny), Press] + rest;
  }

  /**
   * Emitting the next move of a plan: what has been emitted stays a prefix of
   * the plan, followed by a press when the roll allows one, then the rest.
   */
  lemma NextMove(plan: seq<Injected>, before: seq<Injected>, x: int, y: int, dx: int, dy: int,
                 clicks: nat, i: nat, rolls: nat -> bool)
    requires plan == before + Plan(x, y, dx, dy, clicks, i, rolls)
    requires !(x == dx && y == dy)
    ensures var nx, ny := StepToward(x, dx), StepToward(y, dy);
      var after := before + [Move(nx, ny)];
      && Distance(nx, ny, dx, dy) < Distance(x, y, dx, dy)
      && |after| <= |plan| && plan[..|after|] == after
      && if rolls(i) && clicks < COUNT_OF_CLICKS then
           && |after| + 1 <= |plan| && plan[..|after| + 1] == after + [Press]
           && plan == after + [Press] + Plan(nx, ny, dx, dy, clicks + 1, i + 1, rolls)
         else plan == after + Plan(nx, ny, dx, dy, clicks, i + 1, rolls)
  {
    var nx, ny := StepToward(x, dx), StepToward(y, dy);
    var after := before + [Move(nx, ny)];
    PlanUnfolds(x, y, dx, dy, clicks, i, rolls);
    if rolls(i) && clicks < COUNT_OF_CLICKS {
      var rest := Plan(nx, ny, dx, dy, clicks + 1, i + 1, rolls);
      assert plan == after + [Press] + rest;
    } else {
      var rest := Plan(nx, ny, dx, dy, clicks, i + 1, rolls);
      assert plan == after + rest;
    }
  }

  /** Origin (100, 100) to (103, 97): three moves, both axes advancing together. */
  lemma ScenarioC(rolls: nat -> bool)
    requires forall i :: !rolls(i)
    ensures Plan(100, 100, 103, 97, 0, 0, rolls) == [Move(101, 99), Move(102, 98), Move(103, 97)]
  {
  }

  /** A prefix of a stream of events holds no more moves or presses than the stream. */
  lemma {:induction false} PrefixCounts(events: seq<Injected>, n: nat)
    requires n <= |events|
    ensures MoveCount(events[..n]) <= MoveCount(events)
    ensures PressCount(events[..n]) <= PressCount(events)
    decreases n
  {
    if n > 0 {
      assert events[..n][1..] == events[1..][..n - 1];
      PrefixCounts(events[1..], n - 1);
    }
  }

  /** The first attempt number in [from, n) whose injection fails, or n if none does. */
  function FirstFailure(n: nat, injectOk: nat -> bool, from: nat): (j: nat)
    requires from <= n
    ensures from <= j <= n
    ensures forall k | from <= k < j :: injectOk(k)
    ensures j < n ==> !injectOk(j)
    decreases n - from
  {
    if from == n || !injectOk(from) then from else FirstFailure(n, injectOk, from + 1)
  }

  /**
   * Runs a plan against the injection oracle: the events tried are those up to
   * and including the first one that fails, and the walk fails with that one.
   */
  function Attempt(plan: seq<Injected>, injectOk: nat -> bool): (r: (Outcome, seq<Injected>))
    ensures |r.1| <= |plan| && plan[..|r.1|] == r.1
    ensures forall k | 0 <= k < |r.1| - 1 :: injectOk(k)
    ensures r.0.Ok? <==> r.1 == plan && forall k | 0 <= k < |plan| :: injectOk(k)
    ensures r.0.Err? ==> r.1 != [] && r.0.error == SimulateFailed(r.1[|r.1| - 1]) && !injectOk(|r.1| - 1)
  {
    var j := FirstFailure(|plan|, injectOk, 0);
    if j == |plan| then (Ok, plan) else (Err(SimulateFailed(plan[j])), plan[..j + 1])
  }

  /**
   * A walk whose last tried injection is the first to fail stops right there:
   * what it tried is a prefix of the plan, ending with the failing event.
   */
  lemma AttemptFailsAt(plan: seq<Injected>, injectOk: nat -> bool, tried: seq<Injected>)
    requires 0 < |tried| <= |plan| && plan[..|tried|] == tried
    requires forall k | 0 <= k < |tried| - 1 :: injectOk(k)
    requires !injectOk(|tried| - 1)
    ensures Attempt(plan, injectOk) == (Err(SimulateFailed(tried[|tried| - 1])), tried)
  {
    assert FirstFailure(|plan|, injectOk, 0) == |tried| - 1;
  }

  /** A plan whose injections all succeed is carried out in full. */
  lemma AttemptSucceeds(plan: seq<Injected>, injectOk: nat -> bool)
    requires forall k | 0 <= k < |plan| :: injectOk(k)
    ensures Attempt(plan, injectOk) == (Ok, plan)
  {
  }

  /**
   * The outcome of a walk and the events it tries to inject: nothing when the
   * display size is unavailable; otherwise the planned events up to and
   * including the first failing one.
   */
  function WalkResult(display: Option<(nat, nat)>, rx: int, ry: int, orig: (int, int),
                      rolls: nat -> bool, injectOk: nat -> bool): (r: (Outcome, seq<Injected>))
    requires IsI32(rx) && IsI32(ry)
    ensures r.0 == Err(DisplayUnavailable) <==> display.None?
    ensures display.None? ==> r.1 == []
  {
    match display
    case None => (Err(DisplayUnavailable), [])
    case Some(size) =>
      var d := Target(size, rx, ry);
      Attempt(Plan(orig.0, orig.1, d.0, d.1, 0, 0, rolls), injectOk)
  }

  /**
   * What a walk guarantees: a successful one ends at its destination after
   * exactly the larger per-axis distance in moves; no walk exceeds that many
   * moves or three presses; a failed one stops at the event that failed.
   */
  lemma WalkGuarantees(display: Option<(nat, nat)>, rx: int, ry: int, orig: (int, int),
                       rolls: nat -> bool, injectOk: nat -> bool)
    requires IsI32(rx) && IsI32(ry)
    ensures var (result, events) := WalkResult(display, rx, ry, orig, rolls, injectOk);
      && PressCount(events) <= COUNT_OF_CLICKS
      && (display.Some? ==> var d := Target(display.value, rx, ry);
            && MoveCount(events) <= Distance(orig.0, orig.1, d.0, d.1)
            && (result.Ok? ==> Cursor(orig, events) == d
                               && MoveCount(events) == Distance(orig.0, orig.1, d.0, d.1)))
      && (result.Ok? <==> display.Some? && forall k | 0 <= k < |events| :: injectOk(k))
      && (result.Err? && display.Some? ==>
            events != [] && result.error == SimulateFailed(events[|events| - 1])
            && !injectOk(|events| - 1)
            && forall k | 0 <= k < |events| - 1 :: injectOk(k))
  {
    if display.Some? {
      var d := Target(display.value, rx, ry);
      var plan := Plan(orig.0, orig.1, d.0, d.1, 0, 0, rolls);
      PlanReachesTarget(orig.0, orig.1, d.0, d.1, 0, 0, rolls);
      var j := FirstFailure(|plan|, injectOk, 0);
      if j < |plan| {
        PrefixCounts(plan, j + 1);
      }
    }
  }

  /**
   * The animation loop of `make_random_move`: one pixel per axis per
   * iteration, a move injected each iteration and a press when the roll says
   * so and fewer than three presses were made; a failing injection ends it.
   */
  method Animate(orig: (int, int), dest: (int, int), rolls: nat -> bool, injectOk: nat -> bool)
    returns (result: Outcome, events: seq<Injected>)
    ensures (result, events) == Attempt(Plan(orig.0, orig.1, dest.0, dest.1, 0, 0, rolls), injectOk)
  {
    var mouseX, mouseY := orig.0, orig.1;
    ghost var plan := Plan(mouseX, mouseY, dest.0, dest.1, 0, 0, rolls);
    var countOfClicks: nat := 0;
    var i: nat := 0;
    events := [];
    while mouseX != dest.0 || mouseY != dest.1
      invariant events + Plan(mouseX, mouseY, dest.0, dest.1, countOfClicks, i, rolls) == plan
      invariant forall k | 0 <= k < |events| :: injectOk(k)
      decreases Distance(mouseX, mouseY, dest.0, dest.1)
    {
      NextMove(plan, events, mouseX, mouseY, dest.0, dest.1, countOfClicks, i, rolls);
      mouseX := StepToward(mouseX, dest.0);
      mouseY := StepToward(mouseY, dest.1);
      var ok := injectOk(|events|);
      events := events + [Move(mouseX, mouseY)];
      if !ok {
        AttemptFailsAt(plan, injectOk, events);
        return Err(SimulateFailed(Move(mouseX, mouseY))), events;
      }
      if rolls(i) && countOfClicks < COUNT_OF_CLICKS {
        countOfClicks := countOfClicks + 1;
        ok := injectOk(|events|);
        events := events + [Press];
        if !ok {
          AttemptFailsAt(plan, injectOk, events);
          return Err(SimulateFailed(Press)), events;
        }
      }
      i := i + 1;
    }
    assert events == plan;
    AttemptSucceeds(plan, injectOk);
    result := Ok;
  }

  /**
   * `make_random_move`: no walk without the display size; otherwise the
   * destination is drawn around the display centre and the cursor animated
   * there from where it stands.
   */
  method MakeRandomMove(display: Option<(nat, nat)>, rx: int, ry: int, orig: (int, int),
                        rolls: nat -> bool, injectOk: nat -> bool)
    returns (result: Outcome, events: seq<Injected>)
    requires IsI32(rx) && IsI32(ry)
    ensures (result, events) == WalkResult(display, rx, ry, orig, rolls, injectOk)
    ensures result.Ok? ==> display.Some? && Cursor(orig, events) == Target(display.value, rx, ry)
    ensures PressCount(events) <= COUNT_OF_CLICKS
  {
    if display.None? {
      return Err(DisplayUnavailable), [];
    }
    var size := display.value;
    var destX := Destination(size.0, rx);
    var destY := Destination(size.1, ry);
    result, events := Animate(orig, (destX, destY), rolls, injectOk);
    WalkGuarantees(display, rx, ry, orig, rolls, injectOk);
  }
}
