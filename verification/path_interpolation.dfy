/** Geometry of walk paths: segment and total length, arc-length
    interpolation, advancing progress (wrap or bounce), screen direction and
    the proximity search over interaction points.

    `Math.sqrt` is the parameter `sqrt`; the lemmas assume only
    that it is a square root on the non-negative reals (`IsSqrt`). */
module PathInterpolation {
  import opened Types
  import Isometric

  /** Real multiplication, with the sign and scaling facts the geometry
      needs stated once, so that the proofs below stay linear. */
  function Mul(x: real, y: real): (r: real)
    ensures x > 0.0 && y > 0.0 ==> r > 0.0
    ensures x < 0.0 && y < 0.0 ==> r > 0.0
    ensures x == 0.0 || y == 0.0 ==> r == 0.0
    ensures 0.0 <= x <= 1.0 && y >= 0.0 ==> 0.0 <= r <= y
    ensures x == 1.0 ==> r == y
  {
    // Both branches are the product. The split is on the hypothesis of the
    // bound; with a bare `x * y` body the solver unfolds every product and
    // the arc-length proofs no longer finish.
    if 0.0 <= x <= 1.0 && y >= 0.0 then assert x * y <= 1.0 * y; x * y else x * y
  }

  /** Real division by a non-zero divisor: the inverse of multiplying by
      it; a share of a positive whole lies in [0,1], and the whole itself
      is 1. */
  function Div(x: real, y: real): (r: real)
    requires y != 0.0
    ensures Mul(r, y) == x
    ensures y > 0.0 && 0.0 <= x <= y ==> 0.0 <= r <= 1.0
    ensures x == y ==> r == 1.0
  {
    assert (x / y) * y == x;
    FractionBound(x, y);
    x / y
  }

  lemma FractionBound(x: real, y: real)
    requires y != 0.0
    ensures y > 0.0 && 0.0 <= x <= y ==> 0.0 <= x / y <= 1.0
  {
    if y > 0.0 && 0.0 <= x <= y && x / y > 1.0 {
      calc {
        x;
      == (x / y) * y;
      >  1.0 * y;
      }
    }
  }

  /** `x * x`: never negative, and zero only at zero. */
  function Square(x: real): (r: real)
    ensures r >= 0.0
    ensures r > 0.0 <==> x != 0.0
  {
    Mul(x, x)
  }

  /** `sqrt` returns the non-negative square root of every non-negative real. */
  ghost predicate IsSqrt(sqrt: real -> real) {
    forall x :: x >= 0.0 ==> sqrt(x) >= 0.0 && Square(sqrt(x)) == x
  }

  /** `dx * dx + dy * dy` for the offset from `p1` to `p2`. */
  function SquaredDistance(p1: GridPos, p2: GridPos): real {
    var dx := p2.gridX - p1.gridX;
    var dy := p2.gridY - p1.gridY;
    Square(dx) + Square(dy)
  }

  /** Euclidean distance between two grid positions. */
  function SegmentLength(sqrt: real -> real, p1: GridPos, p2: GridPos): real {
    sqrt(SquaredDistance(p1, p2))
  }

  lemma SquareNeg(x: real)
    ensures Square(-x) == Square(x)
  {
  }

  /** The squared distance is non-negative, symmetric and zero exactly on
      equal points. */
  lemma SquaredDistanceFacts(p1: GridPos, p2: GridPos)
    ensures SquaredDistance(p1, p2) >= 0.0
    ensures SquaredDistance(p1, p2) == SquaredDistance(p2, p1)
    ensures SquaredDistance(p1, p2) == 0.0 <==> p1 == p2
  {
    SquareNeg(p2.gridX - p1.gridX);
    SquareNeg(p2.gridY - p1.gridY);
    assert p1.gridX - p2.gridX == -(p2.gridX - p1.gridX);
    assert p1.gridY - p2.gridY == -(p2.gridY - p1.gridY);
  }

  /** For non-negative reals, x < y exactly when x*x < y*y. */
  lemma SquareLess(x: real, y: real)
    requires x >= 0.0 && y >= 0.0
    ensures x < y <==> Square(x) < Square(y)
  {
    if x < y {
      calc {
        x * x;
      <= x * y;
      <  y * y;
      }
    } else {
      calc {
        y * y;
      <= y * x;
      <= x * x;
      }
    }
  }

  /** A segment length is non-negative, symmetric, zero exactly when the
      end points coincide, and its square is the squared distance. */
  lemma SegmentLengthFacts(sqrt: real -> real, p1: GridPos, p2: GridPos)
    requires IsSqrt(sqrt)
    ensures SegmentLength(sqrt, p1, p2) >= 0.0
    ensures SegmentLength(sqrt, p1, p2) == SegmentLength(sqrt, p2, p1)
    ensures SegmentLength(sqrt, p1, p2) == 0.0 <==> p1 == p2
    ensures Square(SegmentLength(sqrt, p1, p2)) == SquaredDistance(p1, p2)
  {
    SquaredDistanceFacts(p1, p2);
    var d := SquaredDistance(p1, p2);
    assert sqrt(d) >= 0.0 && Square(sqrt(d)) == d;
  }

  /** Number of segments of a waypoint list. */
  function SegmentCount(w: seq<GridPos>): nat {
    if |w| == 0 then 0 else |w| - 1
  }

  /** Cumulative length of the first `n` segments. */
  function PrefixLength(sqrt: real -> real, w: seq<GridPos>, n: nat): real
    requires n <= SegmentCount(w)
  {
    if n == 0 then 0.0
    else PrefixLength(sqrt, w, n - 1) + SegmentLength(sqrt, w[n - 1], w[n])
  }

  /** Sum of all consecutive segment lengths; 0 for fewer than two waypoints. */
  function TotalLength(sqrt: real -> real, w: seq<GridPos>): real {
    PrefixLength(sqrt, w, SegmentCount(w))
  }

  /** The accumulation loop of `getTotalPathLength` computes exactly the sum of segments. */
  method GetTotalPathLength(sqrt: real -> real, path: WalkPath) returns (total: real)
    ensures total == TotalLength(sqrt, path.waypoints)
    ensures |path.waypoints| < 2 ==> total == 0.0
  {
    var w := path.waypoints;
    total := 0.0;
    var i := 0;
    while i < |w| - 1
      invariant 0 <= i <= SegmentCount(w)
      invariant total == PrefixLength(sqrt, w, i)
    {
      total := total + SegmentLength(sqrt, w[i], w[i + 1]);
      i := i + 1;
    }
  }

  /** Cumulative lengths are non-negative and non-decreasing. */
  lemma {:induction false} PrefixMonotone(sqrt: real -> real, w: seq<GridPos>, m: nat, n: nat)
    requires IsSqrt(sqrt)
    requires m <= n <= SegmentCount(w)
    ensures 0.0 <= PrefixLength(sqrt, w, m) <= PrefixLength(sqrt, w, n)
    decreases n
  {
    if n == 0 {
    } else {
      SegmentLengthFacts(sqrt, w[n - 1], w[n]);
      if m < n {
        PrefixMonotone(sqrt, w, m, n - 1);
      } else {
        PrefixMonotone(sqrt, w, 0, n - 1);
      }
    }
  }

  /** The total length is zero exactly when all waypoints coincide with their
      successors (in particular for fewer than two waypoints). */
  lemma {:induction false} PrefixZeroIff(sqrt: real -> real, w: seq<GridPos>, n: nat)
    requires IsSqrt(sqrt)
    requires n <= SegmentCount(w)
    ensures PrefixLength(sqrt, w, n) == 0.0 <==> forall k :: 0 <= k < n ==> w[k] == w[k + 1]
    decreases n
  {
    if n > 0 {
      PrefixZeroIff(sqrt, w, n - 1);
      PrefixMonotone(sqrt, w, n - 1, n - 1);
      SegmentLengthFacts(sqrt, w[n - 1], w[n]);
    }
  }

  lemma TotalLengthZeroIff(sqrt: real -> real, w: seq<GridPos>)
    requires IsSqrt(sqrt)
    ensures TotalLength(sqrt, w) >= 0.0
    ensures TotalLength(sqrt, w) == 0.0 <==> forall k :: 0 <= k < |w| - 1 ==> w[k] == w[k + 1]
  {
    PrefixZeroIff(sqrt, w, SegmentCount(w));
    PrefixMonotone(sqrt, w, 0, SegmentCount(w));
  }

  /** Waypoints (0,0) and (3,4) are 5 apart. */
  lemma TotalLengthExample(sqrt: real -> real)
    requires IsSqrt(sqrt)
    ensures TotalLength(sqrt, [GridPos(0.0, 0.0), GridPos(3.0, 4.0)]) == 5.0
  {
    var w := [GridPos(0.0, 0.0), GridPos(3.0, 4.0)];
    assert SquaredDistance(w[0], w[1]) == 25.0;
    var s := sqrt(25.0);
    assert s >= 0.0 && Square(s) == 25.0;
    SquareLess(s, 5.0);
    SquareLess(5.0, s);
    assert s == 5.0;
  }

  // ---------------------------------------------------------------------
  // Interpolation

  /** `Math.max(0, Math.min(1, p))`. */
  function Clamp01(p: real): (r: real)
    ensures 0.0 <= r <= 1.0
    ensures 0.0 <= p <= 1.0 ==> r == p
    ensures p <= 0.0 ==> r == 0.0
    ensures p >= 1.0 ==> r == 1.0
  {
    var m := if 1.0 < p then 1.0 else p;
    if 0.0 > m then 0.0 else m
  }

  /** The point a fraction `t` of the way from `a` to `b`. */
  function Lerp(a: GridPos, b: GridPos, t: real): GridPos {
    GridPos(a.gridX + (b.gridX - a.gridX) * t, a.gridY + (b.gridY - a.gridY) * t)
  }

  /** The segment search of `interpolatePath`, from segment `i` with `accumulated` the
      length already walked; falls through to the last waypoint. */
  function InterpolateFrom(sqrt: real -> real, w: seq<GridPos>, i: nat, accumulated: real, target: real): GridPos
    requires i < |w|
    decreases |w| - i
  {
    if i + 1 >= |w| then w[|w| - 1]
    else
      var segLen := SegmentLength(sqrt, w[i], w[i + 1]);
      if accumulated + segLen >= target then
        var segProgress := if segLen > 0.0 then Div(target - accumulated, segLen) else 0.0;
        Lerp(w[i], w[i + 1], segProgress)
      else
        InterpolateFrom(sqrt, w, i + 1, accumulated + segLen, target)
  }

  /** Position at `progress` (clamped to [0,1]) of the path, measured
      proportionally to arc length. */
  function InterpolatePath(sqrt: real -> real, path: WalkPath, progress: real): (p: GridPos)
    ensures |path.waypoints| == 0 ==> p == GridPos(0.0, 0.0)
    ensures |path.waypoints| == 1 ==> p == path.waypoints[0]
    ensures |path.waypoints| >= 2 && TotalLength(sqrt, path.waypoints) == 0.0 ==> p == path.waypoints[0]
  {
    var w := path.waypoints;
    if |w| == 0 then GridPos(0.0, 0.0)
    else if |w| == 1 then w[0]
    else
      var clamped := Clamp01(progress);
      var total := TotalLength(sqrt, w);
      if total == 0.0 then w[0]
      else InterpolateFrom(sqrt, w, 0, 0.0, Mul(clamped, total))
  }

  /** Only the clamped progress matters. */
  lemma InterpolateClamped(sqrt: real -> real, path: WalkPath, progress: real)
    ensures InterpolatePath(sqrt, path, progress) == InterpolatePath(sqrt, path, Clamp01(progress))
  {
  }

  /** Any progress at or below 0 yields the first waypoint. */
  lemma InterpolateStart(sqrt: real -> real, path: WalkPath, progress: real)
    requires IsSqrt(sqrt)
    requires |path.waypoints| >= 1
    requires progress <= 0.0
    ensures InterpolatePath(sqrt, path, progress) == path.waypoints[0]
  {
    var w := path.waypoints;
    if |w| >= 2 {
      SegmentLengthFacts(sqrt, w[0], w[1]);
    }
  }

  /** If the first `j` segments already span the whole path, waypoint `j`
      is the last waypoint: all later segments have zero length. */
  lemma {:induction false} FlatTail(sqrt: real -> real, w: seq<GridPos>, j: nat)
    requires IsSqrt(sqrt)
    requires |w| >= 1 && j <= |w| - 1
    requires PrefixLength(sqrt, w, j) >= TotalLength(sqrt, w)
    ensures w[j] == w[|w| - 1]
    decreases |w| - j
  {
    if j < |w| - 1 {
      PrefixMonotone(sqrt, w, j, j + 1);
      PrefixMonotone(sqrt, w, j + 1, |w| - 1);
      SegmentLengthFacts(sqrt, w[j], w[j + 1]);
      FlatTail(sqrt, w, j + 1);
    }
  }

  /** The step of `InterpolateFromEnd` at a segment that reaches the total. */
  lemma LastReachedSegment(sqrt: real -> real, w: seq<GridPos>, i: nat)
    requires IsSqrt(sqrt)
    requires i + 1 < |w|
    requires PrefixLength(sqrt, w, i + 1) >= TotalLength(sqrt, w)
    ensures InterpolateFrom(sqrt, w, i, PrefixLength(sqrt, w, i), TotalLength(sqrt, w)) == w[|w| - 1]
  {
    var acc := PrefixLength(sqrt, w, i);
    var total := TotalLength(sqrt, w);
    var segLen := SegmentLength(sqrt, w[i], w[i + 1]);
    assert PrefixLength(sqrt, w, i + 1) == acc + segLen;
    FlatTail(sqrt, w, i + 1);
    SegmentLengthFacts(sqrt, w[i], w[i + 1]);
    if segLen > 0.0 {
      PrefixMonotone(sqrt, w, i + 1, |w| - 1);
      assert total - acc == segLen;
      var t := Div(total - acc, segLen);
      assert t == 1.0;
      assert InterpolateFrom(sqrt, w, i, acc, total) == Lerp(w[i], w[i + 1], t);
      assert Lerp(w[i], w[i + 1], 1.0) == w[i + 1];
    } else {
      assert w[i] == w[i + 1];
      assert InterpolateFrom(sqrt, w, i, acc, total) == Lerp(w[i], w[i + 1], 0.0);
    }
  }

  lemma {:induction false} InterpolateFromEnd(sqrt: real -> real, w: seq<GridPos>, i: nat)
    requires IsSqrt(sqrt)
    requires i < |w|
    ensures InterpolateFrom(sqrt, w, i, PrefixLength(sqrt, w, i), TotalLength(sqrt, w)) == w[|w| - 1]
    decreases |w| - i
  {
    if i + 1 < |w| {
      if PrefixLength(sqrt, w, i + 1) >= TotalLength(sqrt, w) {
        LastReachedSegment(sqrt, w, i);
      } else {
        InterpolateFromEnd(sqrt, w, i + 1);
      }
    }
  }

  /** Any progress at or above 1 yields the last waypoint. */
  lemma InterpolateEnd(sqrt: real -> real, path: WalkPath, progress: real)
    requires IsSqrt(sqrt)
    requires |path.waypoints| >= 1
    requires progress >= 1.0
    ensures InterpolatePath(sqrt, path, progress) == path.waypoints[|path.waypoints| - 1]
  {
    var w := path.waypoints;
    if |w| >= 2 {
      if TotalLength(sqrt, w) == 0.0 {
        FlatTail(sqrt, w, 0);
      } else {
        InterpolateFromEnd(sqrt, w, 0);
      }
    }
  }

  /** `p` is the point a fraction `t` into segment `k`, `k` is the first
      segment whose cumulative length reaches `target`, and on a segment of
      positive length `t` is the share of it that `target` still needs:
      progress is proportional to arc length. */
  ghost predicate LocatedAt(sqrt: real -> real, w: seq<GridPos>, target: real, k: int, t: real, p: GridPos) {
    && 0 <= k < |w| - 1
    && 0.0 <= t <= 1.0
    && p == Lerp(w[k], w[k + 1], t)
    && PrefixLength(sqrt, w, k + 1) >= target
    && (forall j :: 1 <= j <= k ==> PrefixLength(sqrt, w, j) < target)
    && (SegmentLength(sqrt, w[k], w[k + 1]) > 0.0 ==>
          Mul(t, SegmentLength(sqrt, w[k], w[k + 1])) == target - PrefixLength(sqrt, w, k))
  }

  lemma {:induction false} InterpolateFromLocated(sqrt: real -> real, w: seq<GridPos>, i: nat, target: real)
    requires IsSqrt(sqrt)
    requires i + 1 < |w|
    requires PrefixLength(sqrt, w, i) <= target <= TotalLength(sqrt, w)
    requires forall j :: 1 <= j <= i ==> PrefixLength(sqrt, w, j) < target
    ensures exists k, t :: LocatedAt(sqrt, w, target, k, t, InterpolateFrom(sqrt, w, i, PrefixLength(sqrt, w, i), target))
    decreases |w| - i
  {
    var acc := PrefixLength(sqrt, w, i);
    var segLen := SegmentLength(sqrt, w[i], w[i + 1]);
    var p := InterpolateFrom(sqrt, w, i, acc, target);
    assert PrefixLength(sqrt, w, i + 1) == acc + segLen;
    if acc + segLen >= target {
      LocatedInSegment(sqrt, w, i, target);
      var t := if segLen > 0.0 then Div(target - acc, segLen) else 0.0;
      assert LocatedAt(sqrt, w, target, i, t, p);
    } else {
      assert p == InterpolateFrom(sqrt, w, i + 1, acc + segLen, target);
      InterpolateFromLocated(sqrt, w, i + 1, target);
    }
  }

  /** The step of `InterpolateFromLocated` at the segment that reaches the
      target: the point is located there. */
  lemma LocatedInSegment(sqrt: real -> real, w: seq<GridPos>, i: nat, target: real)
    requires IsSqrt(sqrt)
    requires i + 1 < |w|
    requires PrefixLength(sqrt, w, i) <= target <= PrefixLength(sqrt, w, i + 1)
    requires forall j :: 1 <= j <= i ==> PrefixLength(sqrt, w, j) < target
    ensures LocatedAt(sqrt, w, target, i, if SegmentLength(sqrt, w[i], w[i + 1]) > 0.0
                                           then Div(target - PrefixLength(sqrt, w, i), SegmentLength(sqrt, w[i], w[i + 1]))
                                           else 0.0,
                      InterpolateFrom(sqrt, w, i, PrefixLength(sqrt, w, i), target))
  {
    var acc := PrefixLength(sqrt, w, i);
    var segLen := SegmentLength(sqrt, w[i], w[i + 1]);
    assert PrefixLength(sqrt, w, i + 1) == acc + segLen;
    SegmentLengthFacts(sqrt, w[i], w[i + 1]);
    var t := if segLen > 0.0 then Div(target - acc, segLen) else 0.0;
    if segLen > 0.0 {
      assert 0.0 <= target - acc <= segLen;
    }
    assert InterpolateFrom(sqrt, w, i, acc, target) == Lerp(w[i], w[i + 1], t);
  }

  /** Halfway along a straight two-unit segment the fraction is exactly one
      half: only the midpoint is located at arc length 1. */
  lemma LocatedMidpoint(sqrt: real -> real, t: real, p: GridPos)
    requires IsSqrt(sqrt)
    requires LocatedAt(sqrt, [GridPos(0.0, 0.0), GridPos(2.0, 0.0)], 1.0, 0, t, p)
    ensures t == 0.5 && p == GridPos(1.0, 0.0)
  {
    var w := [GridPos(0.0, 0.0), GridPos(2.0, 0.0)];
    assert SquaredDistance(w[0], w[1]) == 4.0;
    var s := sqrt(4.0);
    assert s >= 0.0 && Square(s) == 4.0;
    SquareLess(s, 2.0);
    SquareLess(2.0, s);
    assert SegmentLength(sqrt, w[0], w[1]) == 2.0;
    assert PrefixLength(sqrt, w, 0) == 0.0;
    assert Mul(t, 2.0) == 1.0;
    assert t * 2.0 == 1.0;
  }

  /** The arc length that `progress` asks for. */
  function TargetDistance(sqrt: real -> real, path: WalkPath, progress: real): real {
    Mul(Clamp01(progress), TotalLength(sqrt, path.waypoints))
  }

  /** The interpolated point lies on the first segment whose cumulative
      length reaches progress * total, a fraction t in [0,1] along it. */
  lemma InterpolateOnSegment(sqrt: real -> real, path: WalkPath, progress: real)
    requires IsSqrt(sqrt)
    requires |path.waypoints| >= 2
    ensures exists k, t :: LocatedAt(sqrt, path.waypoints, TargetDistance(sqrt, path, progress),
                                     k, t, InterpolatePath(sqrt, path, progress))
  {
    var w := path.waypoints;
    var total := TotalLength(sqrt, w);
    var target := TargetDistance(sqrt, path, progress);
    var p := InterpolatePath(sqrt, path, progress);
    if total == 0.0 {
      assert target == 0.0;
      assert p == w[0];
      SegmentLengthFacts(sqrt, w[0], w[1]);
      assert PrefixLength(sqrt, w, 1) >= 0.0;
      assert Lerp(w[0], w[1], 0.0) == w[0];
      assert LocatedAt(sqrt, w, target, 0, 0.0, p);
    } else {
      PrefixMonotone(sqrt, w, 0, SegmentCount(w));
      assert 0.0 <= target <= total;
      InterpolateFromLocated(sqrt, w, 0, target);
    }
  }

  // ---------------------------------------------------------------------
  // Advancing along a path

  /** Full path traversed in 8000 ms at speed 1. */
  const BASE_SPEED: real := 1.0 / 8000.0

  datatype Motion = Motion(progress: real, direction: Direction)

  /** Unwrapped, unclamped progress after `deltaTime` ms. */
  function NextProgress(currentProgress: real, speed: real, deltaTime: real, direction: Direction): real {
    currentProgress + speed * BASE_SPEED * deltaTime * (direction as real)
  }

  /** New progress and direction: wrap once on loops, bounce otherwise; a
      zero-length path does not move. */
  function AdvanceAlongPath(sqrt: real -> real, currentProgress: real, speed: real, deltaTime: real,
                            path: WalkPath, direction: Direction): (m: Motion)
    ensures TotalLength(sqrt, path.waypoints) == 0.0 ==> m == Motion(currentProgress, direction)
    ensures path.loop ==> m.direction == direction
    ensures !path.loop && TotalLength(sqrt, path.waypoints) != 0.0 ==> 0.0 <= m.progress <= 1.0
  {
    if TotalLength(sqrt, path.waypoints) == 0.0 then Motion(currentProgress, direction)
    else
      var next := NextProgress(currentProgress, speed, deltaTime, direction);
      if path.loop then
        var wrapped := if next > 1.0 then next - 1.0 else next;
        var wrapped' := if wrapped < 0.0 then wrapped + 1.0 else wrapped;
        Motion(wrapped', direction)
      else if next >= 1.0 then Motion(1.0, -1)
      else if next <= 0.0 then Motion(0.0, 1)
      else Motion(next, direction)
  }

  /** On an open path: direction flips exactly when the step reaches an end
      in the direction of travel, and a step strictly inside moves freely. */
  lemma BounceSemantics(sqrt: real -> real, p: real, speed: real, dt: real, path: WalkPath, dir: Direction)
    requires !path.loop && TotalLength(sqrt, path.waypoints) != 0.0
    ensures var m := AdvanceAlongPath(sqrt, p, speed, dt, path, dir);
            var next := NextProgress(p, speed, dt, dir);
            && (m.direction != dir <==> (next >= 1.0 && dir == 1) || (next <= 0.0 && dir == -1))
            && (next >= 1.0 ==> m == Motion(1.0, -1))
            && (next <= 0.0 ==> m == Motion(0.0, 1))
            && (0.0 < next < 1.0 ==> m == Motion(next, dir))
  {
  }

  /** On a loop, one wrap suffices when the step is at most a whole lap. */
  lemma LoopWrapInRange(sqrt: real -> real, p: real, speed: real, dt: real, path: WalkPath, dir: Direction)
    requires path.loop
    requires 0.0 <= p <= 1.0
    requires speed >= 0.0 && dt >= 0.0 && speed * dt <= 8000.0
    ensures var m := AdvanceAlongPath(sqrt, p, speed, dt, path, dir);
            0.0 <= m.progress <= 1.0 && m.direction == dir
  {
    var step := speed * BASE_SPEED * dt;
    assert step == speed * dt / 8000.0;
    assert 0.0 <= step <= 1.0;
  }

  /** On a loop the direction is kept and the progress is the unclamped
      next value, less one lap above 1 or plus one lap below 0. */
  lemma LoopWrapSemantics(sqrt: real -> real, p: real, speed: real, dt: real, path: WalkPath, dir: Direction)
    requires path.loop && TotalLength(sqrt, path.waypoints) != 0.0
    ensures var m := AdvanceAlongPath(sqrt, p, speed, dt, path, dir);
            var next := NextProgress(p, speed, dt, dir);
            && m.direction == dir
            && (next > 1.0 ==> m.progress == next - 1.0)
            && (next < 0.0 ==> m.progress == next + 1.0)
            && (0.0 <= next <= 1.0 ==> m.progress == next)
  {
  }

  /** Without the bound on the step a single wrap can leave [0,1]. */
  lemma LoopWrapNeedsBoundedStep(sqrt: real -> real, path: WalkPath)
    requires path.loop && TotalLength(sqrt, path.waypoints) != 0.0
    ensures AdvanceAlongPath(sqrt, 1.0, 2.0, 8000.0, path, 1).progress == 2.0
  {
  }

  /** A loop whose first and last waypoints coincide wraps seamlessly: the
      position at progress 0 is the position at progress 1. */
  lemma LoopSeamless(sqrt: real -> real, path: WalkPath)
    requires IsSqrt(sqrt)
    requires |path.waypoints| >= 1 && path.waypoints[0] == path.waypoints[|path.waypoints| - 1]
    ensures InterpolatePath(sqrt, path, 0.0) == InterpolatePath(sqrt, path, 1.0)
  {
    InterpolateStart(sqrt, path, 0.0);
    InterpolateEnd(sqrt, path, 1.0);
  }

  // ---------------------------------------------------------------------
  // Screen direction

  const MOVE_EPSILON: real := 0.001

  /** True when the figure moves leftward on screen: the screen x of the
      sample a little further along is smaller than the current one. */
  function IsMovingLeft(sqrt: real -> real, path: WalkPath, progress: real, direction: Direction): (left: bool)
    ensures var p1 := InterpolatePath(sqrt, path, progress);
            var p2 := InterpolatePath(sqrt, path, Clamp01(progress + MOVE_EPSILON * (direction as real)));
            left <==> Isometric.ToIsometric(p2.gridX, p2.gridY).screenX < Isometric.ToIsometric(p1.gridX, p1.gridY).screenX
  {
    var p1 := InterpolatePath(sqrt, path, progress);
    var p2 := InterpolatePath(sqrt, path, Clamp01(progress + MOVE_EPSILON * (direction as real)));
    var dx := (p2.gridX - p2.gridY) - (p1.gridX - p1.gridY);
    Isometric.ScreenXOrder(p2, p1);
    dx < 0.0
  }

  /** At an end, moving outward, both samples coincide: never leftward. */
  lemma NotMovingLeftPastEnds(sqrt: real -> real, path: WalkPath, progress: real, direction: Direction)
    requires (progress >= 1.0 && direction == 1) || (progress <= 0.0 && direction == -1)
    ensures !IsMovingLeft(sqrt, path, progress, direction)
  {
    InterpolateClamped(sqrt, path, progress);
  }

  // ---------------------------------------------------------------------
  // Interaction points

  /** Default proximity threshold, in grid units. */
  const DEFAULT_THRESHOLD: real := 0.3

  /** The proximity test: Euclidean distance strictly below the threshold. */
  predicate IsNear(sqrt: real -> real, ip: InteractionPoint, gridX: real, gridY: real, threshold: real) {
    SegmentLength(sqrt, GridPos(gridX, gridY), ip.position) < threshold
  }

  function FindNearbyFrom(sqrt: real -> real, ips: seq<InteractionPoint>, gridX: real, gridY: real,
                          threshold: real, i: nat): (r: int)
    requires i <= |ips|
    ensures r == -1 || i <= r < |ips|
    ensures r == -1 <==> forall j :: i <= j < |ips| ==> !IsNear(sqrt, ips[j], gridX, gridY, threshold)
    ensures r != -1 ==> IsNear(sqrt, ips[r], gridX, gridY, threshold)
    ensures r != -1 ==> forall j :: i <= j < r ==> !IsNear(sqrt, ips[j], gridX, gridY, threshold)
    decreases |ips| - i
  {
    if i == |ips| then -1
    else if IsNear(sqrt, ips[i], gridX, gridY, threshold) then i
    else FindNearbyFrom(sqrt, ips, gridX, gridY, threshold, i + 1)
  }

  /** Index of the FIRST interaction point (in list order, not the nearest)
      within `threshold` of (gridX, gridY), or -1 when there is none. */
  function FindNearbyInteractionPoint(sqrt: real -> real, path: WalkPath, gridX: real, gridY: real,
                                      threshold: real): (r: int)
    ensures r == -1 || 0 <= r < |path.interactionPoints|
    ensures r == -1 <==> forall j :: 0 <= j < |path.interactionPoints| ==>
                                 !IsNear(sqrt, path.interactionPoints[j], gridX, gridY, threshold)
    ensures r != -1 ==> IsNear(sqrt, path.interactionPoints[r], gridX, gridY, threshold)
    ensures r != -1 ==> forall j :: 0 <= j < r ==> !IsNear(sqrt, path.interactionPoints[j], gridX, gridY, threshold)
  {
    FindNearbyFrom(sqrt, path.interactionPoints, gridX, gridY, threshold, 0)
  }

  /** For a non-negative threshold the distance test is the squared test. */
  lemma NearIffSquared(sqrt: real -> real, ip: InteractionPoint, gridX: real, gridY: real, threshold: real)
    requires IsSqrt(sqrt)
    requires threshold >= 0.0
    ensures var dx := ip.position.gridX - gridX;
            var dy := ip.position.gridY - gridY;
            IsNear(sqrt, ip, gridX, gridY, threshold) <==> dx * dx + dy * dy < threshold * threshold
  {
    var g := GridPos(gridX, gridY);
    SegmentLengthFacts(sqrt, g, ip.position);
    var s := SegmentLength(sqrt, g, ip.position);
    SquareLess(s, threshold);
  }

  /** With the default threshold of 0.3, a point is near exactly when its
      squared distance is below 0.09. */
  lemma DefaultThresholdSquared(sqrt: real -> real, ip: InteractionPoint, gridX: real, gridY: real)
    requires IsSqrt(sqrt)
    ensures var dx := ip.position.gridX - gridX;
            var dy := ip.position.gridY - gridY;
            IsNear(sqrt, ip, gridX, gridY, DEFAULT_THRESHOLD) <==> dx * dx + dy * dy < 0.09
  {
    NearIffSquared(sqrt, ip, gridX, gridY, DEFAULT_THRESHOLD);
  }
}
