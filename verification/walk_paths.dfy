/** The four walk paths stick figures follow, and their integrity. */
module WalkPaths {
  import opened Types
  import PathInterpolation
  import BuildingConfigs

  function Entrance(x: real, y: real, buildingId: string, duration: real): InteractionPoint {
    InteractionPoint(GridPos(x, y), BuildingEntrance, Some(buildingId), duration)
  }

  function BenchAt(x: real, y: real, duration: real): InteractionPoint {
    InteractionPoint(GridPos(x, y), Bench, None, duration)
  }

  function PauseAt(x: real, y: real, duration: real): InteractionPoint {
    InteractionPoint(GridPos(x, y), Pause, None, duration)
  }

  const MAIN_STREET: WalkPath := WalkPath(
    "main-street",
    [GridPos(-3.0, -2.0), GridPos(-2.0, -1.2), GridPos(-1.0, -0.5), GridPos(0.0, 0.0),
     GridPos(1.0, -0.5), GridPos(2.0, -1.2), GridPos(3.0, -2.0)],
    false,
    [Entrance(-3.0, -2.0, "newspaper", 3000.0),
     BenchAt(-1.5, -1.0, 5000.0),
     Entrance(0.0, 0.0, "town-center", 3000.0),
     BenchAt(1.5, -1.0, 5000.0),
     Entrance(3.0, -2.0, "art-gallery", 3000.0)])

  const NORTH_AVENUE: WalkPath := WalkPath(
    "north-avenue",
    [GridPos(0.0, 0.0), GridPos(0.0, -1.0), GridPos(0.0, -2.0), GridPos(0.0, -3.0), GridPos(0.0, -4.0)],
    false,
    [Entrance(0.0, 0.0, "town-center", 3000.0),
     BenchAt(0.0, -2.5, 4000.0),
     Entrance(0.0, -4.0, "post-office", 3000.0)])

  const PARK_LOOP: WalkPath := WalkPath(
    "park-loop",
    [GridPos(0.0, 0.0), GridPos(-1.0, -0.5), GridPos(-2.0, -1.2), GridPos(-3.0, -2.0),
     GridPos(-2.0, -3.0), GridPos(0.0, -4.0), GridPos(2.0, -3.0), GridPos(3.0, -2.0),
     GridPos(2.0, -1.2), GridPos(1.0, -0.5), GridPos(0.0, 0.0)],
    true,
    [Entrance(-3.0, -2.0, "newspaper", 2000.0),
     Entrance(0.0, -4.0, "post-office", 2000.0),
     Entrance(3.0, -2.0, "art-gallery", 2000.0),
     PauseAt(-1.5, -1.0, 1500.0)])

  const SIDE_STREET: WalkPath := WalkPath(
    "side-street",
    [GridPos(-3.0, -2.0), GridPos(-2.0, -3.0), GridPos(0.0, -4.0), GridPos(2.0, -3.0), GridPos(3.0, -2.0)],
    false,
    [Entrance(-3.0, -2.0, "newspaper", 2500.0),
     Entrance(0.0, -4.0, "post-office", 2500.0),
     Entrance(3.0, -2.0, "art-gallery", 2500.0)])

  const WALK_PATHS: seq<WalkPath> := [MAIN_STREET, NORTH_AVENUE, PARK_LOOP, SIDE_STREET]

  function PathIds(ps: seq<WalkPath>): (ids: seq<string>)
    ensures |ids| == |ps|
    ensures forall i :: 0 <= i < |ps| ==> ids[i] == ps[i].id
  {
    seq(|ps|, i requires 0 <= i < |ps| => ps[i].id)
  }

  /** No two consecutive waypoints coincide. */
  predicate NoRepeatedWaypoint(w: seq<GridPos>) {
    forall k :: 0 <= k < |w| - 1 ==> w[k] != w[k + 1]
  }

  /** Entrances name a building, stand on a waypoint of their own path, and
      benches and pauses name none. */
  predicate WellFormedPoint(path: WalkPath, ip: InteractionPoint) {
    if ip.kind == BuildingEntrance then ip.buildingId.Some? && ip.position in path.waypoints
    else ip.buildingId.None?
  }

  /** Four paths with distinct identifiers, in this order. */
  lemma PathIdsDistinct()
    ensures PathIds(WALK_PATHS) == ["main-street", "north-avenue", "park-loop", "side-street"]
    ensures Distinct(PathIds(WALK_PATHS))
  {
  }

  /** Every path has at least two waypoints and no zero-length segment. */
  lemma WaypointsWellFormed()
    ensures forall i :: 0 <= i < |WALK_PATHS| ==>
              |WALK_PATHS[i].waypoints| >= 2 && NoRepeatedWaypoint(WALK_PATHS[i].waypoints)
  {
  }

  /** Hence every path has positive length, so figures on it move. */
  lemma PathLengthsPositive(sqrt: real -> real)
    requires PathInterpolation.IsSqrt(sqrt)
    ensures forall i :: 0 <= i < |WALK_PATHS| ==> PathInterpolation.TotalLength(sqrt, WALK_PATHS[i].waypoints) > 0.0
  {
    WaypointsWellFormed();
    forall i | 0 <= i < |WALK_PATHS|
      ensures PathInterpolation.TotalLength(sqrt, WALK_PATHS[i].waypoints) > 0.0
    {
      var w := WALK_PATHS[i].waypoints;
      PathInterpolation.TotalLengthZeroIff(sqrt, w);
      assert w[0] != w[1];
    }
  }

  /** Only the park loop loops, and it starts and ends at the town centre,
      so wrapping from progress 1 to 0 does not jump. */
  lemma ParkLoopClosed(sqrt: real -> real)
    requires PathInterpolation.IsSqrt(sqrt)
    ensures forall i :: 0 <= i < |WALK_PATHS| ==> (WALK_PATHS[i].loop <==> WALK_PATHS[i].id == "park-loop")
    ensures PARK_LOOP.waypoints[0] == GridPos(0.0, 0.0)
    ensures PARK_LOOP.waypoints[|PARK_LOOP.waypoints| - 1] == GridPos(0.0, 0.0)
    ensures PathInterpolation.InterpolatePath(sqrt, PARK_LOOP, 0.0) == PathInterpolation.InterpolatePath(sqrt, PARK_LOOP, 1.0)
  {
    PathInterpolation.LoopSeamless(sqrt, PARK_LOOP);
  }

  /** Every interaction point is well formed, every entrance names a
      configured building, and every pause lasts 1.5 to 5 seconds. */
  lemma InteractionPointsWellFormed()
    ensures forall i, j :: 0 <= i < |WALK_PATHS| && 0 <= j < |WALK_PATHS[i].interactionPoints| ==>
              var ip := WALK_PATHS[i].interactionPoints[j];
              && WellFormedPoint(WALK_PATHS[i], ip)
              && (ip.buildingId.Some? ==> BuildingConfigs.FindBuilding(BuildingConfigs.BUILDINGS, ip.buildingId.value).Some?)
              && 1500.0 <= ip.duration <= 5000.0
  {
  }
}
