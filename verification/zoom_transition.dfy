/** The zoom transition wrapped around the scene: the transform and class
    selection, and the completion guard as an event-driven state machine.

    React's rendering is modelled as events. `Update` is a re-render with new
    props; the two effects then run in declaration order, each only when one
    of its dependencies changed. `TransitionEnd` is a `transitionend` event
    reaching the container. Each step reports whether `onComplete` was
    called. */
module ZoomTransition {
  import opened Types
  import Isometric

  datatype ZoomDirection = ZoomIn | ZoomOut

  /** `scale(s) translate(tx px, ty px)`. */
  datatype Transform = Transform(scale: real, translateX: real, translateY: real)

  /** `scale(1) translate(0px, 0px)`. */
  const IDENTITY: Transform := Transform(1.0, 0.0, 0.0)

  /** Magnification of a zoom-in. */
  const ZOOM_SCALE: real := 5.0

  /** Where a CSS transform sends a point given in coordinates relative to
      the element's transform origin: translate first, then scale (the
      functions of a CSS transform list apply right to left). */
  function ApplyTransform(t: Transform, p: Isometric.Point): Isometric.Point {
    Isometric.Point(t.scale * (p.x + t.translateX), t.scale * (p.y + t.translateY))
  }

  /** The inline transform: a zoom onto `target` only while zooming in. */
  function GetTransformStyle(isActive: bool, direction: ZoomDirection, target: Isometric.Point): (t: Transform)
    ensures t != IDENTITY <==> isActive && direction == ZoomIn
    ensures t.scale == ZOOM_SCALE <==> isActive && direction == ZoomIn
    ensures t != IDENTITY ==> ApplyTransform(t, target) == Isometric.Point(0.0, 0.0)
  {
    if !isActive && direction == ZoomIn then IDENTITY
    else if isActive && direction == ZoomIn then Transform(ZOOM_SCALE, -target.x, -target.y)
    else if isActive && direction == ZoomOut then IDENTITY
    else IDENTITY
  }

  /** The identity transform moves nothing. */
  lemma IdentityFixesPoints(p: Isometric.Point)
    ensures ApplyTransform(IDENTITY, p) == p
  {
  }

  /** The zoom-in transform magnifies five-fold about the target: a point
      at offset (dx, dy) from the target lands at (5dx, 5dy). */
  lemma ZoomInMagnifiesAboutTarget(target: Isometric.Point, dx: real, dy: real)
    ensures ApplyTransform(GetTransformStyle(true, ZoomIn, target), Isometric.Point(target.x + dx, target.y + dy))
            == Isometric.Point(ZOOM_SCALE * dx, ZOOM_SCALE * dy)
  {
  }

  /** The inline style: none at all under reduced motion. */
  function InlineStyle(isActive: bool, direction: ZoomDirection, reducedMotion: bool,
                       target: Isometric.Point): (s: Option<Transform>)
    ensures s.None? <==> reducedMotion
    ensures s.Some? ==> s.value == GetTransformStyle(isActive, direction, target)
  {
    if reducedMotion then None else Some(GetTransformStyle(isActive, direction, target))
  }

  const BASE_CLASS: string := "zoom-container"
  const ZOOMING_IN_CLASS: string := "zoom-container--zooming-in"
  const ZOOMING_OUT_CLASS: string := "zoom-container--zooming-out"

  /** The container's class list: the base class, plus one modifier while
      an animated transition is active. */
  function ClassNames(isActive: bool, direction: ZoomDirection, reducedMotion: bool): (cs: seq<string>)
    ensures |cs| >= 1 && cs[0] == BASE_CLASS
    ensures |cs| == 2 <==> isActive && !reducedMotion
    ensures |cs| <= 2
    ensures ZOOMING_IN_CLASS in cs <==> isActive && !reducedMotion && direction == ZoomIn
    ensures ZOOMING_OUT_CLASS in cs <==> isActive && !reducedMotion && direction == ZoomOut
  {
    if isActive && !reducedMotion then
      [BASE_CLASS, if direction == ZoomIn then ZOOMING_IN_CLASS else ZOOMING_OUT_CLASS]
    else [BASE_CLASS]
  }

  // ---------------------------------------------------------------------
  // The completion guard

  datatype Props = Props(isActive: bool, direction: ZoomDirection, reducedMotion: bool)

  /** Current props and the `hasCalledComplete` ref. */
  datatype Controller = Controller(props: Props, hasCalledComplete: bool)

  datatype Event =
    | Update(next: Props, callbackChanged: bool)
    | TransitionEnd(propertyName: string, onContainer: bool)

  /** The controller after an event, and whether `onComplete` was called. */
  datatype Step = Step(state: Controller, completed: bool)

  /** The first effect runs when `isActive` or `direction` changed, and
      clears the guard when the new props are active. */
  predicate Rearms(c: Controller, e: Event) {
    && e.Update?
    && e.next.isActive
    && (e.next.isActive != c.props.isActive || e.next.direction != c.props.direction)
  }

  /** The second effect runs when `isActive`, `reducedMotion` or the
      callback changed. */
  predicate ReducedMotionEffectRuns(c: Controller, e: Event)
    requires e.Update?
  {
    e.next.isActive != c.props.isActive || e.next.reducedMotion != c.props.reducedMotion || e.callbackChanged
  }

  /** First render: both effects run once, with the guard initially clear. */
  function Mount(p: Props): (s: Step)
    ensures s.state.props == p
    ensures s.completed <==> p.isActive && p.reducedMotion
    ensures s.state.hasCalledComplete == s.completed
  {
    var fire := p.isActive && p.reducedMotion;
    Step(Controller(p, fire), fire)
  }

  /** One event. */
  function Apply(c: Controller, e: Event): (s: Step)
    ensures s.completed ==> s.state.hasCalledComplete
    ensures s.completed ==> !c.hasCalledComplete || Rearms(c, e)
    ensures c.hasCalledComplete && !s.state.hasCalledComplete ==> Rearms(c, e)
    ensures e.TransitionEnd? ==> s.state.props == c.props
    ensures e.Update? ==> s.state.props == e.next
  {
    match e
    case Update(next, callbackChanged) =>
      var guard := if Rearms(c, e) then false else c.hasCalledComplete;
      var fire := ReducedMotionEffectRuns(c, e) && next.isActive && next.reducedMotion && !guard;
      Step(Controller(next, guard || fire), fire)
    case TransitionEnd(propertyName, onContainer) =>
      // the handler is attached only without reduced motion
      var fire := !c.props.reducedMotion && propertyName == "transform" && onContainer && !c.hasCalledComplete;
      Step(c.(hasCalledComplete := c.hasCalledComplete || fire), fire)
  }

  /** Runs a sequence of events, counting the calls of `onComplete`. */
  function Run(c: Controller, es: seq<Event>): (Controller, nat)
    decreases |es|
  {
    if |es| == 0 then (c, 0)
    else
      var s := Apply(c, es[0]);
      var (final, n) := Run(s.state, es[1..]);
      (final, n + (if s.completed then 1 else 0))
  }

  /** No event of `es`, applied in turn from `c`, re-arms the guard. */
  predicate NoRearm(c: Controller, es: seq<Event>)
    decreases |es|
  {
    |es| == 0 || (!Rearms(c, es[0]) && NoRearm(Apply(c, es[0]).state, es[1..]))
  }

  /** At most one completion per activation: without a re-arming update,
      a run calls `onComplete` at most once, not at all when the guard is
      already set, and the guard is set afterwards whenever it was called. */
  lemma {:induction false} AtMostOncePerActivation(c: Controller, es: seq<Event>)
    requires NoRearm(c, es)
    ensures Run(c, es).1 <= (if c.hasCalledComplete then 0 else 1)
    ensures Run(c, es).1 > 0 ==> Run(c, es).0.hasCalledComplete
    ensures c.hasCalledComplete ==> Run(c, es).0.hasCalledComplete
    decreases |es|
  {
    if |es| > 0 {
      var s := Apply(c, es[0]);
      AtMostOncePerActivation(s.state, es[1..]);
    }
  }

  /** Only a transform transition on the container itself completes. */
  lemma OtherTransitionsIgnored(c: Controller, propertyName: string, onContainer: bool)
    ensures Apply(c, TransitionEnd(propertyName, onContainer)).completed
            <==> !c.props.reducedMotion && propertyName == "transform" && onContainer && !c.hasCalledComplete
    ensures propertyName != "transform" || !onContainer
            ==> Apply(c, TransitionEnd(propertyName, onContainer)).state == c
  {
  }

  /** Under reduced motion, activation completes at once, no transition
      event ever completes, and the container gets neither an inline
      transform nor a modifier class. */
  lemma ReducedMotionCompletesImmediately(c: Controller, direction: ZoomDirection, callbackChanged: bool,
                                          propertyName: string, onContainer: bool, target: Isometric.Point)
    requires !c.props.isActive
    ensures var s := Apply(c, Update(Props(true, direction, true), callbackChanged));
            s.completed && s.state.hasCalledComplete
    ensures c.props.reducedMotion ==> !Apply(c, TransitionEnd(propertyName, onContainer)).completed
    ensures InlineStyle(true, direction, true, target) == None
    ensures ClassNames(true, direction, true) == [BASE_CLASS]
  {
  }

  /** Changing direction while active re-arms the guard: after a zoom-in
      has completed, the zoom-out completes on its transition end exactly
      once more. */
  lemma DirectionChangeRearms(d1: ZoomDirection, d2: ZoomDirection, callbackChanged: bool)
    requires d1 != d2
    ensures var c := Controller(Props(true, d1, false), true);
            var es := [Update(Props(true, d2, false), callbackChanged),
                       TransitionEnd("transform", true), TransitionEnd("transform", true)];
            Run(c, es).1 == 1 && Run(c, es).0.hasCalledComplete
  {
    var c := Controller(Props(true, d1, false), true);
    var e0 := Update(Props(true, d2, false), callbackChanged);
    var e1 := TransitionEnd("transform", true);
    var es := [e0, e1, e1];
    var s0 := Apply(c, e0);
    assert !s0.completed && !s0.state.hasCalledComplete;
    var s1 := Apply(s0.state, e1);
    assert s1.completed;
    var s2 := Apply(s1.state, e1);
    assert !s2.completed;
    assert es[1..] == [e1, e1] && [e1, e1][1..] == [e1] && [e1][1..] == [];
    assert Run(s2.state, []) == (s2.state, 0);
    assert Run(s1.state, [e1]) == (s2.state, 0);
    assert Run(s0.state, [e1, e1]) == (s2.state, 1);
  }

  /** Under reduced motion, a direction change while active clears the
      guard but does not call `onComplete`: the reduced-motion effect does
      not depend on the direction. A later callback change then completes. */
  lemma ReducedMotionDirectionChange(d1: ZoomDirection, d2: ZoomDirection)
    requires d1 != d2
    ensures var c := Controller(Props(true, d1, true), true);
            var s := Apply(c, Update(Props(true, d2, true), false));
            !s.completed && !s.state.hasCalledComplete
            && Apply(s.state, Update(Props(true, d2, true), true)).completed
  {
  }
}
