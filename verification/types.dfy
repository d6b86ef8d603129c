/** Shared data model of the townsquare scene: grid positions, figure
    behaviours, building, figure and walk-path records, and the decorative
    environment elements. Numbers are modelled as `real`. */
module Types {

  datatype Option<+T> = None | Some(value: T)

  /** A point on the isometric grid. */
  datatype GridPos = GridPos(gridX: real, gridY: real)

  /** The behaviours a stick figure may be in; `ExitingBuilding` is allowed by
      the type but no transition ever produces it. */
  datatype FigureBehavior =
    | Walking
    | Sitting
    | EnteringBuilding
    | ExitingBuilding
    | Idle

  /** Direction of travel along a path: 1 forward, -1 backward. */
  type Direction = d: int | d == 1 || d == -1 witness 1

  /** An interactive building that leads to one section of the site. */
  datatype BuildingConfig = BuildingConfig(
    id: string,
    name: string,
    route: string,
    position: GridPos,
    accentColor: string,
    accentColorHover: string,
    ariaLabel: string,
    zIndex: real)

  /** Static configuration of one animated stick figure. */
  datatype StickFigureConfig = StickFigureConfig(
    id: string,
    pathId: string,
    speed: real,
    startOffset: real,
    behavior: FigureBehavior)

  datatype InteractionKind = Bench | BuildingEntrance | Pause

  /** A place on a walk path where a figure pauses for `duration` ms. */
  datatype InteractionPoint = InteractionPoint(
    position: GridPos,
    kind: InteractionKind,
    buildingId: Option<string>,
    duration: real)

  /** A named route: ordered waypoints, a loop flag and interaction points. */
  datatype WalkPath = WalkPath(
    id: string,
    waypoints: seq<GridPos>,
    loop: bool,
    interactionPoints: seq<InteractionPoint>)

  datatype EnvironmentKind = Tree | EnvBench | LampPost

  /** A decorative element; only its zIndex matters to the scene logic. */
  datatype EnvironmentElement = EnvironmentElement(
    id: string,
    kind: EnvironmentKind,
    position: GridPos,
    zIndex: real)

  /** True when no two entries of `ids` are equal. */
  predicate Distinct(ids: seq<string>) {
    forall i, j :: 0 <= i < j < |ids| ==> ids[i] != ids[j]
  }
}
