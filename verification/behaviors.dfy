/** Runtime state of one stick figure and the record-update transitions
    between its behaviours, plus the idle-variant timer. */
module Behaviors {
  import opened Types

  /** The pose a paused figure cycles through. */
  datatype IdleVariant = Standing | LookingLeft | LookingRight

  /** Runtime state of a single stick figure. */
  datatype FigureState = FigureState(
    id: string,
    pathId: string,
    progress: real,
    speed: real,
    behavior: FigureBehavior,
    walkPhase: real,
    facingLeft: bool,
    gridX: real,
    gridY: real,
    direction: Direction,
    pauseRemaining: real,
    idleVariant: IdleVariant,
    idleTimer: real)

  /** `a` and `b` agree on identity, path, motion and pose: every field but
      behavior, pauseRemaining, idleVariant and idleTimer. */
  predicate SameMotion(a: FigureState, b: FigureState) {
    && a.id == b.id
    && a.pathId == b.pathId
    && a.progress == b.progress
    && a.speed == b.speed
    && a.walkPhase == b.walkPhase
    && a.facingLeft == b.facingLeft
    && a.gridX == b.gridX
    && a.gridY == b.gridY
    && a.direction == b.direction
  }

  /** Resume walking: behaviour walking, no pause left, nothing else changes. */
  function StartWalking(figure: FigureState): (r: FigureState)
    ensures r.behavior == Walking && r.pauseRemaining == 0.0
    ensures SameMotion(figure, r)
    ensures r.idleVariant == figure.idleVariant && r.idleTimer == figure.idleTimer
  {
    figure.(behavior := Walking, pauseRemaining := 0.0)
  }

  /** Sit for `duration` ms; nothing else changes. */
  function StartSitting(figure: FigureState, duration: real): (r: FigureState)
    ensures r.behavior == Sitting && r.pauseRemaining == duration
    ensures SameMotion(figure, r)
    ensures r.idleVariant == figure.idleVariant && r.idleTimer == figure.idleTimer
  {
    figure.(behavior := Sitting, pauseRemaining := duration)
  }

  /** Pause idle for `duration` ms, restarting the idle animation from
      `Standing` with a zero timer. */
  function StartIdle(figure: FigureState, duration: real): (r: FigureState)
    ensures r.behavior == Idle && r.pauseRemaining == duration
    ensures SameMotion(figure, r)
    ensures r.idleVariant == Standing && r.idleTimer == 0.0
  {
    figure.(behavior := Idle, pauseRemaining := duration, idleVariant := Standing, idleTimer := 0.0)
  }

  /** Walk into a building for `duration` ms; nothing else changes. */
  function EnterBuilding(figure: FigureState, duration: real): (r: FigureState)
    ensures r.behavior == EnteringBuilding && r.pauseRemaining == duration
    ensures SameMotion(figure, r)
    ensures r.idleVariant == figure.idleVariant && r.idleTimer == figure.idleTimer
  {
    figure.(behavior := EnteringBuilding, pauseRemaining := duration)
  }

  /** Leave a building. Despite its name it goes straight to walking: the
      `ExitingBuilding` behaviour is never produced. */
  function ExitBuilding(figure: FigureState): (r: FigureState)
    ensures r.behavior == Walking && r.pauseRemaining == 0.0
    ensures SameMotion(figure, r)
    ensures r.idleVariant == figure.idleVariant && r.idleTimer == figure.idleTimer
  {
    figure.(behavior := Walking, pauseRemaining := 0.0)
  }

  /** `ExitBuilding` and `StartWalking` are the same transition. */
  lemma ExitBuildingIsStartWalking(figure: FigureState)
    ensures ExitBuilding(figure) == StartWalking(figure)
  {
  }

  /** No transition, nor the idle animation, ever yields `ExitingBuilding`
      from a figure that is not already in it. */
  lemma NeverExitingBuilding(figure: FigureState, duration: real, deltaTime: real)
    ensures StartWalking(figure).behavior != ExitingBuilding
    ensures StartSitting(figure, duration).behavior != ExitingBuilding
    ensures StartIdle(figure, duration).behavior != ExitingBuilding
    ensures EnterBuilding(figure, duration).behavior != ExitingBuilding
    ensures ExitBuilding(figure).behavior != ExitingBuilding
    ensures UpdateIdleAnimation(figure, deltaTime).behavior == figure.behavior
  {
  }

  /** A pause followed by resuming walking only loses the pose state that
      `StartIdle` resets: sitting or entering a building and walking on is
      the same as walking on directly. */
  lemma PauseThenWalk(figure: FigureState, duration: real)
    ensures StartWalking(StartSitting(figure, duration)) == StartWalking(figure)
    ensures StartWalking(EnterBuilding(figure, duration)) == StartWalking(figure)
    ensures ExitBuilding(EnterBuilding(figure, duration)) == StartWalking(figure)
    ensures StartWalking(StartIdle(figure, duration))
            == StartWalking(figure).(idleVariant := Standing, idleTimer := 0.0)
  {
  }

  /** Every transition is idempotent. */
  lemma TransitionsIdempotent(figure: FigureState, duration: real)
    ensures StartWalking(StartWalking(figure)) == StartWalking(figure)
    ensures StartSitting(StartSitting(figure, duration), duration) == StartSitting(figure, duration)
    ensures StartIdle(StartIdle(figure, duration), duration) == StartIdle(figure, duration)
    ensures EnterBuilding(EnterBuilding(figure, duration), duration) == EnterBuilding(figure, duration)
  {
  }

  // ---------------------------------------------------------------------
  // Idle animation

  /** Time a pose is held before the next one, in ms. */
  const IDLE_CYCLE_MS: real := 1500.0

  /** The variant list, in cycling order. */
  const VARIANTS: seq<IdleVariant> := [Standing, LookingLeft, LookingRight]

  /** `Array.prototype.indexOf`: first index holding `x`, or -1. */
  function IndexOf<T(==)>(s: seq<T>, x: T): (r: int)
    ensures r == -1 <==> x !in s
    ensures r != -1 ==> 0 <= r < |s| && s[r] == x && x !in s[..r]
  {
    if |s| == 0 then -1
    else if s[0] == x then 0
    else
      var k := IndexOf(s[1..], x);
      if k == -1 then -1
      else
        assert s[..k + 1] == [s[0]] + s[1..][..k];
        k + 1
  }

  /** The next pose, written independently of the list. */
  function NextVariant(v: IdleVariant): IdleVariant {
    match v
    case Standing => LookingLeft
    case LookingLeft => LookingRight
    case LookingRight => Standing
  }

  /** The pose after `v` as `updateIdleAnimation` computes it: the successor of its
      index in `VARIANTS`, modulo the list length. */
  function CycleVariant(v: IdleVariant): (r: IdleVariant)
    ensures r == NextVariant(v)
  {
    var currentIdx := IndexOf(VARIANTS, v);
    var nextIdx := (currentIdx + 1) % |VARIANTS|;
    VARIANTS[nextIdx]
  }

  /** The poses form one cycle of length 3 with no fixed point. */
  lemma VariantCycle(v: IdleVariant)
    ensures CycleVariant(v) != v
    ensures CycleVariant(CycleVariant(v)) != v
    ensures CycleVariant(CycleVariant(CycleVariant(v))) == v
  {
  }

  /** Advance the idle timer of a sitting or idle figure by `deltaTime`,
      moving to the next pose (and restarting the timer) once 1500 ms have
      accumulated; any other figure is returned as is. */
  function UpdateIdleAnimation(figure: FigureState, deltaTime: real): (r: FigureState)
    ensures figure.behavior != Idle && figure.behavior != Sitting ==> r == figure
    ensures r == figure.(idleTimer := r.idleTimer, idleVariant := r.idleVariant)
    ensures (figure.behavior == Idle || figure.behavior == Sitting) ==>
              if figure.idleTimer + deltaTime < IDLE_CYCLE_MS
              then r.idleTimer == figure.idleTimer + deltaTime && r.idleVariant == figure.idleVariant
              else r.idleTimer == 0.0 && r.idleVariant == NextVariant(figure.idleVariant)
  {
    if figure.behavior != Idle && figure.behavior != Sitting then figure
    else
      var newTimer := figure.idleTimer + deltaTime;
      if newTimer >= IDLE_CYCLE_MS then
        figure.(idleTimer := 0.0, idleVariant := CycleVariant(figure.idleVariant))
      else
        figure.(idleTimer := newTimer)
  }

  /** For non-negative frame times the timer stays in [0, 1500). */
  lemma IdleTimerInRange(figure: FigureState, deltaTime: real)
    requires 0.0 <= figure.idleTimer < IDLE_CYCLE_MS
    requires deltaTime >= 0.0
    ensures 0.0 <= UpdateIdleAnimation(figure, deltaTime).idleTimer < IDLE_CYCLE_MS
  {
  }

  /** Applies `UpdateIdleAnimation` once per frame time in `frames`. */
  function RunIdle(figure: FigureState, frames: seq<real>): FigureState
    decreases |frames|
  {
    if |frames| == 0 then figure
    else RunIdle(UpdateIdleAnimation(figure, frames[0]), frames[1..])
  }

  /** Three frames of at least 1500 ms each bring a paused figure back to
      its starting pose. */
  lemma {:induction false} IdlePosePeriod(figure: FigureState, a: real, b: real, c: real)
    requires figure.behavior == Idle || figure.behavior == Sitting
    requires figure.idleTimer >= 0.0
    requires a >= IDLE_CYCLE_MS && b >= IDLE_CYCLE_MS && c >= IDLE_CYCLE_MS
    ensures RunIdle(figure, [a, b, c]).idleVariant == figure.idleVariant
    ensures RunIdle(figure, [a, b, c]).idleTimer == 0.0
  {
    var f1 := UpdateIdleAnimation(figure, a);
    var f2 := UpdateIdleAnimation(f1, b);
    var f3 := UpdateIdleAnimation(f2, c);
    assert [a, b, c][1..] == [b, c];
    assert [b, c][1..] == [c];
    assert RunIdle(figure, [a, b, c]) == RunIdle(f1, [b, c]);
    assert RunIdle(f1, [b, c]) == RunIdle(f2, [c]);
    assert RunIdle(f2, [c]) == RunIdle(f3, []);
    VariantCycle(figure.idleVariant);
  }

  /** A figure that is neither idle nor sitting (walking, or entering or
      exiting a building) is untouched by any number of idle-animation
      frames. */
  lemma {:induction false} RunIdleWalking(figure: FigureState, frames: seq<real>)
    requires figure.behavior != Idle && figure.behavior != Sitting
    ensures RunIdle(figure, frames) == figure
    decreases |frames|
  {
    if |frames| > 0 {
      RunIdleWalking(figure, frames[1..]);
    }
  }
}
