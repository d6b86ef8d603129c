# Townsquare scene: a Dafny model

This project models the core of an isometric "townsquare" portfolio page:
the exported functions and tables behind the scene, and the scene's
rendering logic. The scene draws four buildings, each a link to a section of
the site, and a layer of stick figures meant to walk along four paths
between them. A zoom transition component is meant to animate the move from
the scene into a section.

In this repository the figure hook `useStickFigures` is a stub that returns
no figures, so the figure layer draws nothing. The app's routes
(src/App.tsx:22-28) render neither the scene nor the zoom transition. The
model states what each piece does for any input, including inputs the stub
never supplies.

The model covers:

- the 2:1 isometric projection between grid and screen coordinates;
- the static tables of buildings, walk paths and figures;
- arc-length interpolation along a path, advancing along it (wrap or
  bounce), the leftward-motion test and the interaction-point search;
- the figure behaviour transitions and the idle-pose timer;
- the stable depth sort used for figures, buildings and environment
  elements, and the figure and building rendering;
- the responsive figure count and the navigation wiring of the scene;
- the zoom transition's transform, class list and completion guard. The
  guard is modelled as a state machine driven by prop updates and
  `transitionend` events.

Numbers are Dafny `real`s. `Math.sqrt` is a parameter `sqrt: real -> real`.
Lemmas that need it require `PathInterpolation.IsSqrt(sqrt)`: a
non-negative result whose square is the argument. Products that proofs
reason about go through `PathInterpolation.Mul`, `Square` and `Div`, which
state their sign and scaling facts.

Modules:

| file | module | contents |
|---|---|---|
| types.dfy | Types | records shared by the scene (positions, building, path, figure and environment configs) |
| isometric.dfy | Isometric | projection and its inverse, building centres |
| path_interpolation.dfy | PathInterpolation | segment lengths, total length, interpolation, advancing, leftward test, nearby search |
| behaviors.dfy | Behaviors | figure state, behaviour transitions, idle animation |
| stable_sort.dfy | StableSort | stable insertion sort by a real key |
| stick_figure_manager.dfy | StickFigureManager | depth-sorted figure rendering |
| building_configs.dfy | BuildingConfigs | the four buildings |
| walk_paths.dfy | WalkPaths | the four walk paths |
| figure_configs.dfy | FigureConfigs | the thirteen figures |
| scene.dfy | Scene | figure count, depth order, building placement, wiring |
| zoom_transition.dfy | ZoomTransition | transform, classes, completion guard |

## Model

| member | source | states |
|---|---|---|
| Isometric.ToIsometric | src/utils/isometric.ts:18-26 | projecting a grid point and mapping the result back with `FromIsometric` gives the grid point again |
| Isometric.FromIsometric | src/utils/isometric.ts:35-44 | the grid point returned solves the projection equations for the given screen point, so projecting it gives that screen point back |
| Isometric.ScreenRoundTrip | src/utils/isometric.ts:35-44 | the converse round trip: every screen point is the projection of its inverse image, so the two maps are mutually inverse |
| Isometric.ToIsometricExamples | src/utils/isometric.ts:3-26 | the origin stays put, one grid step along x lands at (60, 30), the post office's cell (0, -6) lands at (360, -180), and the tile is twice as wide as it is high |
| Isometric.ScreenXOrder | src/utils/isometric.ts:23 | screen x orders points exactly as gridX - gridY does, in both directions |
| Isometric.GetBuildingCenter | src/utils/isometric.ts:50-58 | the centre maps back under the inverse projection to the building's grid position |
| PathInterpolation.SquaredDistanceFacts | src/components/townsquare/animation/pathInterpolation.ts:10-12 | the squared distance is non-negative and symmetric, and is zero exactly when the points coincide |
| PathInterpolation.SegmentLengthFacts | src/components/townsquare/animation/pathInterpolation.ts:6-13 | `SegmentLength`, the square root of the squared distance: a segment length is non-negative, symmetric, zero exactly for coinciding endpoints, and squares to the squared distance |
| PathInterpolation.GetTotalPathLength | src/components/townsquare/animation/pathInterpolation.ts:18-24 | the accumulation loop returns the sum of all consecutive segment lengths, and 0 for fewer than two waypoints |
| PathInterpolation.PrefixMonotone | src/components/townsquare/animation/pathInterpolation.ts:18-24 | partial sums of segment lengths are non-negative and never decrease |
| PathInterpolation.PrefixZeroIff | src/components/townsquare/animation/pathInterpolation.ts:18-24 | the first n segments have total length 0 exactly when each of their waypoints equals the next |
| PathInterpolation.TotalLengthZeroIff | src/components/townsquare/animation/pathInterpolation.ts:18-24 | a path has length 0 exactly when all its waypoints coincide |
| PathInterpolation.TotalLengthExample | src/components/townsquare/animation/pathInterpolation.ts:6-24 | the two-waypoint path from (0,0) to (3,4) has length 5 |
| PathInterpolation.Clamp01 | src/components/townsquare/animation/pathInterpolation.ts:45 | the result lies in [0,1], keeps values already in range, and sends values below 0 to 0 and above 1 to 1 |
| PathInterpolation.InterpolatePath | src/components/townsquare/animation/pathInterpolation.ts:32-51 | the early exits: the origin for no waypoints, the only waypoint for one, the first waypoint for a zero-length path |
| PathInterpolation.InterpolateClamped | src/components/townsquare/animation/pathInterpolation.ts:44-45 | only the clamped progress matters: progress outside [0,1] acts as the nearer end |
| PathInterpolation.InterpolateStart | src/components/townsquare/animation/pathInterpolation.ts:45-58 | progress at or below 0 yields the first waypoint |
| PathInterpolation.InterpolateFromEnd | src/components/townsquare/animation/pathInterpolation.ts:56-70 | searching for the full length from any segment onward ends at the last waypoint, including through zero-length tail segments |
| PathInterpolation.InterpolateEnd | src/components/townsquare/animation/pathInterpolation.ts:45-70 | progress at or above 1 yields the last waypoint |
| PathInterpolation.InterpolateFromLocated | src/components/townsquare/animation/pathInterpolation.ts:53-67 | the segment search (`InterpolateFrom`) returns the point a fraction t in [0,1] along the first segment whose cumulative length reaches the target; on a segment of positive length, t times its length is exactly the target minus the length before it |
| PathInterpolation.InterpolateOnSegment | src/components/townsquare/animation/pathInterpolation.ts:53-66 | for two or more waypoints, the position is a fraction t in [0,1] along the first segment whose cumulative length reaches progress × total length, with t proportional to the arc length still needed on that segment |
| PathInterpolation.LocatedMidpoint | src/components/townsquare/animation/pathInterpolation.ts:53-64 | halfway along a straight segment of length 2, the only located point is the midpoint, at fraction exactly 1/2 |
| PathInterpolation.AdvanceAlongPath | src/components/townsquare/animation/pathInterpolation.ts:82-116 | a zero-length path does not move; a loop never changes direction; an open path keeps progress in [0,1] |
| PathInterpolation.BounceSemantics | src/components/townsquare/animation/pathInterpolation.ts:104-113 | on an open path the direction flips exactly when the step reaches the end it is heading for; reaching 1 gives (1, -1), reaching 0 gives (0, 1), a step strictly inside is taken as is |
| PathInterpolation.LoopWrapSemantics | src/components/townsquare/animation/pathInterpolation.ts:100-103 | on a loop the direction is kept, and the new progress is the next value less 1 above 1, plus 1 below 0, and unchanged in [0,1] |
| PathInterpolation.LoopWrapInRange | src/components/townsquare/animation/pathInterpolation.ts:100-103 | on a loop, one wrap keeps progress in [0,1] when the step is at most one lap |
| PathInterpolation.LoopWrapNeedsBoundedStep | src/components/townsquare/animation/pathInterpolation.ts:100-103 | a step longer than one lap leaves [0,1] after the single wrap: from 1 at double speed for 8 s the progress is 2 |
| PathInterpolation.LoopSeamless | src/components/townsquare/animation/pathInterpolation.ts:45-70 | when a path's first and last waypoints coincide, progress 0 and progress 1 give the same position |
| PathInterpolation.IsMovingLeft | src/components/townsquare/animation/pathInterpolation.ts:122-137 | true exactly when the sample a step further in the direction of travel has a smaller screen x than the current position |
| PathInterpolation.NotMovingLeftPastEnds | src/components/townsquare/animation/pathInterpolation.ts:127-136 | at an end of the path, heading outward, the figure is never moving left |
| PathInterpolation.FindNearbyFrom | src/components/townsquare/animation/pathInterpolation.ts:149-158 | from index i on, returns the first index whose point is within the threshold, or -1 exactly when none is |
| PathInterpolation.FindNearbyInteractionPoint | src/components/townsquare/animation/pathInterpolation.ts:143-159 | returns the first interaction point in list order within the threshold, not the nearest one, and -1 exactly when no point is within it |
| PathInterpolation.NearIffSquared | src/components/townsquare/animation/pathInterpolation.ts:151-154 | for a non-negative threshold, the distance test `IsNear` agrees with comparing squared distance against squared threshold |
| PathInterpolation.DefaultThresholdSquared | src/components/townsquare/animation/pathInterpolation.ts:147-154 | with the default threshold 0.3, a point is near exactly when its squared distance is below 0.09 |
| Behaviors.StartWalking | src/components/townsquare/animation/behaviors.ts:38-44 | behaviour becomes walking with no pause left; position, motion and idle pose are kept |
| Behaviors.StartSitting | src/components/townsquare/animation/behaviors.ts:49-55 | behaviour becomes sitting for the given duration; everything else is kept |
| Behaviors.StartIdle | src/components/townsquare/animation/behaviors.ts:60-68 | behaviour becomes idle for the given duration and the idle animation restarts from standing with a zero timer; motion is kept |
| Behaviors.EnterBuilding | src/components/townsquare/animation/behaviors.ts:73-79 | behaviour becomes entering-building for the given duration; everything else is kept |
| Behaviors.ExitBuilding | src/components/townsquare/animation/behaviors.ts:84-90 | goes straight to walking with no pause left; everything else is kept |
| Behaviors.ExitBuildingIsStartWalking | src/components/townsquare/animation/behaviors.ts:38-90 | leaving a building is the same transition as resuming walking |
| Behaviors.NeverExitingBuilding | src/components/townsquare/animation/behaviors.ts:81-90 | no transition produces the exiting-building behaviour, and the idle animation never changes the behaviour |
| Behaviors.PauseThenWalk | src/components/townsquare/animation/behaviors.ts:38-79 | sitting or entering a building and then walking equals walking directly; after an idle pause only the pose is reset |
| Behaviors.TransitionsIdempotent | src/components/townsquare/animation/behaviors.ts:38-79 | applying any transition twice equals applying it once |
| Behaviors.CycleVariant | src/components/townsquare/animation/behaviors.ts:105-111 | looking up the pose's index and taking the next index modulo 3 gives the successor pose: standing, then looking left, then looking right, then standing |
| Behaviors.VariantCycle | src/components/townsquare/animation/behaviors.ts:104-116 | the pose cycle has length exactly 3 |
| Behaviors.UpdateIdleAnimation | src/components/townsquare/animation/behaviors.ts:96-123 | figures neither idle nor sitting are unchanged; otherwise only the timer and pose change: the timer advances below 1500 ms, and at 1500 ms or more it resets to 0 and the pose moves on |
| Behaviors.IdleTimerInRange | src/components/townsquare/animation/behaviors.ts:101-122 | for non-negative frame times the timer stays in [0, 1500) |
| Behaviors.IdlePosePeriod | src/components/townsquare/animation/behaviors.ts:104-116 | three frames of at least 1500 ms each bring a paused figure back to its starting pose with a zero timer |
| Behaviors.RunIdleWalking | src/components/townsquare/animation/behaviors.ts:97-99 | any number of idle-animation frames leave a figure that is neither idle nor sitting unchanged |
| StableSort.Insert | src/components/townsquare/animation/StickFigureManager.tsx:31 | inserting into a sorted sequence keeps it sorted, adds exactly the one element, and places it after the elements with equal key |
| StableSort.SortBy | src/components/townsquare/animation/StickFigureManager.tsx:31 | the result is sorted by key, is a permutation of the input, and keeps elements with equal keys in input order |
| StableSort.SortSortedIsIdentity | src/components/townsquare/TownsquareScene.tsx:116 | an already sorted sequence comes back unchanged |
| StableSort.SortIdempotent | src/components/townsquare/TownsquareScene.tsx:116 | sorting twice is sorting once |
| StickFigureManager.SortFigures | src/components/townsquare/animation/StickFigureManager.tsx:28-33 | figures come out by ascending gridY, as a permutation of the input, with ties in input order |
| StickFigureManager.PermutedProps | src/components/townsquare/animation/StickFigureManager.tsx:31-46 | mapping a permutation of the figures to props gives a props record for every figure and none for anything else |
| StickFigureManager.Render | src/components/townsquare/animation/StickFigureManager.tsx:30-49 | nothing is rendered exactly when there are no figures; otherwise the props of the stably sorted figures, one record per figure, by ascending gridY, with figures of equal gridY in input order |
| StickFigureManager.TiesDrawnInInputOrder | src/components/townsquare/animation/StickFigureManager.tsx:30-33 | two figures at the same depth are drawn in the order the hook returned them |
| StickFigureManager.PropsFaithful | src/components/townsquare/animation/StickFigureManager.tsx:39-46 | a figure is drawn with its own id, position, behaviour, walk phase and facing |
| Scene.InitialFigureCount | src/components/townsquare/TownsquareScene.tsx:55-62 | 10 without a window; otherwise one of 4, 7 or 12, with 12 exactly from 1280 px and 4 exactly below 768 px |
| Scene.ResizeFigureCount | src/components/townsquare/TownsquareScene.tsx:64-70 | the resize handler always sets one of 4, 7 or 12 |
| Scene.ResizeAgreesWithInitial | src/components/townsquare/TownsquareScene.tsx:56-70 | with a window, the initial count and the resize count agree for every width |
| Scene.FigureCountMonotone | src/components/townsquare/TownsquareScene.tsx:65-70 | a wider viewport never shows fewer figures |
| Scene.FigureCountBounds | src/components/townsquare/TownsquareScene.tsx:57 | the no-window default is none of the breakpoint counts, and no count exceeds the 13 configured figures |
| Scene.SortBuildings | src/components/townsquare/TownsquareScene.tsx:116 | buildings come out by ascending zIndex, as a permutation, with ties in table order |
| Scene.SortEnvironment | src/components/townsquare/TownsquareScene.tsx:119-121 | environment elements come out by ascending zIndex, as a permutation, with ties in table order |
| Scene.PlaceBuilding | src/components/townsquare/TownsquareScene.tsx:186-199 | a building without a component is skipped; otherwise its group, minus the component's offset, maps back to the building's grid position, and it carries the component's label position and the building's name |
| Scene.RenderBuildings | src/components/townsquare/TownsquareScene.tsx:186-224 | exactly one group per building that has a component, in table order, each the placement of that building; buildings without a component are skipped, and no other group appears |
| Scene.RenderBuildingsComplete | src/components/townsquare/TownsquareScene.tsx:186-199 | when every building has a component, the i-th group is the placement of the i-th building |
| Scene.EveryBuildingHasComponent | src/components/townsquare/TownsquareScene.tsx:21-29 | every configured building has an illustration entry |
| Scene.BuildingsAlreadyInDepthOrder | src/components/townsquare/TownsquareScene.tsx:116 | sorting the building table leaves it as it is; the newspaper stays before the art gallery, with which it ties |
| Scene.AllBuildingsRendered | src/components/townsquare/TownsquareScene.tsx:186-199 | the scene draws four building groups: town center, newspaper, art gallery, post office |
| Scene.TownCenterPlacement | src/components/townsquare/TownsquareScene.tsx:25 | the town centre's group is translated to (-60, -60), with its label at (60, 130) |
| Scene.SceneWiring | src/components/townsquare/TownsquareScene.tsx:109-113 | pan and zoom are enabled exactly when no navigation runs, and the figure layer's `isVisible` prop is `!isNavigating` (line 181) |
| BuildingConfigs.BuildingIdsDistinct | src/components/townsquare/buildings/buildingConfigs.ts:10-51 | four buildings with pairwise distinct identifiers |
| BuildingConfigs.FindOwnId | src/components/townsquare/buildings/buildingConfigs.ts:10-51 | with distinct identifiers, looking up a building's own id finds that building |
| BuildingConfigs.BuildingRoutes | src/components/townsquare/buildings/buildingConfigs.ts:14-44 | the town center leads to /about, the newspaper to /blog, the art gallery to /photography and the post office to /contact |
| BuildingConfigs.RoutesDistinct | src/components/townsquare/buildings/buildingConfigs.ts:14-44 | no two buildings share a route |
| BuildingConfigs.BuildingDepthOrder | src/components/townsquare/buildings/buildingConfigs.ts:19-49 | z-indices 10, 20, 20, 30, in table order |
| BuildingConfigs.BuildingCenters | src/components/townsquare/buildings/buildingConfigs.ts:15-45 | the town centre is centred at the screen origin and the post office at (360, -180) |
| WalkPaths.PathIdsDistinct | src/components/townsquare/animation/walkPaths.ts:15-166 | four paths, main-street, north-avenue, park-loop and side-street, with distinct identifiers |
| WalkPaths.WaypointsWellFormed | src/components/townsquare/animation/walkPaths.ts:15-166 | every path has at least two waypoints and no two consecutive waypoints coincide |
| WalkPaths.PathLengthsPositive | src/components/townsquare/animation/walkPaths.ts:15-166 | every path has positive length, so figures on it move |
| WalkPaths.ParkLoopClosed | src/components/townsquare/animation/walkPaths.ts:92-107 | only the park loop loops; it starts and ends at the town centre, so its positions at progress 0 and 1 agree |
| WalkPaths.InteractionPointsWellFormed | src/components/townsquare/animation/walkPaths.ts:28-164 | every entrance names a configured building and sits on a waypoint of its own path; benches and pauses name no building; every duration is between 1.5 and 5 s |
| FigureConfigs.FigureIdsDistinct | src/components/townsquare/animation/figureConfigs.ts:9-101 | thirteen figures with distinct identifiers |
| FigureConfigs.FiguresWellFormed | src/components/townsquare/animation/figureConfigs.ts:12-100 | every figure follows a configured path, starts at an offset in [0,1], moves at 0.7 to 1.3 times base speed and starts out walking |
| ZoomTransition.GetTransformStyle | src/components/transitions/ZoomTransition.tsx:69-90 | the transform differs from the identity, and scales by 5, exactly when active and zooming in; that transform moves the target point to the origin |
| ZoomTransition.IdentityFixesPoints | src/components/transitions/ZoomTransition.tsx:72 | `scale(1) translate(0px, 0px)` moves no point |
| ZoomTransition.ZoomInMagnifiesAboutTarget | src/components/transitions/ZoomTransition.tsx:75-80 | the zoom-in transform sends a point at offset (dx, dy) from the target to (5dx, 5dy) |
| ZoomTransition.InlineStyle | src/components/transitions/ZoomTransition.tsx:106 | there is no inline style exactly under reduced motion; otherwise it is the computed transform |
| ZoomTransition.ClassNames | src/components/transitions/ZoomTransition.tsx:93-100 | the base class always comes first; a second class is present exactly when active without reduced motion, the zooming-in class for zoom-in and the zooming-out class for zoom-out |
| ZoomTransition.Mount | src/components/transitions/ZoomTransition.tsx:38-51 | on first render `onComplete` is called exactly when active with reduced motion, and the guard records it |
| ZoomTransition.Apply | src/components/transitions/ZoomTransition.tsx:38-66 | a completion always sets the guard, needs the guard clear or a re-arming update, and the guard is only ever cleared by a re-arming update |
| ZoomTransition.AtMostOncePerActivation | src/components/transitions/ZoomTransition.tsx:36-66 | with no re-arming update, any run of events calls `onComplete` at most once, never if the guard was already set, and leaves the guard set once it has been called |
| ZoomTransition.OtherTransitionsIgnored | src/components/transitions/ZoomTransition.tsx:53-66 | a transition end completes exactly when it is a transform transition on the container, without reduced motion and with the guard clear; other transitions change nothing |
| ZoomTransition.ReducedMotionCompletesImmediately | src/components/transitions/ZoomTransition.tsx:45-51 | under reduced motion, activation calls `onComplete` at once, transition ends never do, and the container has no inline transform and only the base class |
| ZoomTransition.DirectionChangeRearms | src/components/transitions/ZoomTransition.tsx:38-43 | after a completed zoom, changing direction while active lets the next transform transition end complete exactly once more |
| ZoomTransition.ReducedMotionDirectionChange | src/components/transitions/ZoomTransition.tsx:38-51 | under reduced motion, a direction change while active clears the guard but calls nothing; a later callback change then completes |

## Left out

- `Math.sqrt` is a parameter, required to be a square root where it matters. Floating-point rounding is not modelled: all arithmetic is exact over the reals.
- The per-frame animation hook (`useStickFigures`) is not part of this model. In this repository it is a stub that returns no figures and calls nothing. Its own description is that it manages the figures' animation state. The exported functions that animation would use are modelled: advancing, interpolation, the leftward test, the nearby search, the transitions and the idle timer.
- Figures are typed as `Behaviors.FigureState`, which carries the `gridX`, `gridY`, `walkPhase` and `facingLeft` fields the figure layer reads. The hook's declared element type, `StickFigureConfig`, has none of these fields.
- The pan and zoom viewport hook is not part of this model. The scene also takes `viewBox`, `svgRef`, `transformString` and `isTouchDevice` from it, which only feed rendering. The hook in this repository is a stub that returns none of these fields, nor `setEnabled`. `Scene.SceneWiring` models the intended `setEnabled(!isNavigating)` call.
- SVG drawing is left out: the building illustrations, `StickFigure`, `BuildingWrapper`, the grid, and the walkway lines between buildings (`PATH_CONNECTIONS`). None of it has behaviour beyond drawing.
- The environment element table is left out. Its depth sort is modelled for any input by `Scene.SortEnvironment`.
- `useReducedMotion`, window resize listeners and DOM refs are glue. The window width is an input, and reduced motion is a prop.
- In the zoom transition, React effect scheduling is reduced to two things. Effects run in declaration order after a prop update. The `onComplete` callback's identity is modelled only through a flag saying whether it changed.
- In the zoom transition, the DOM event target is modelled only as whether the event came from the container.
- ZoomTransition.Mount: follows production effect semantics, where each effect runs once per commit. The app is mounted inside `React.StrictMode` (src/index.tsx:21-23). In development, StrictMode runs every effect setup a second time on mount and keeps refs. The first effect then clears the guard again, so a mount that is active under reduced motion calls `onComplete` twice there. `ZoomTransition.AtMostOncePerActivation` holds only for the production semantics.
- Scene.PlaceBuilding: looks an id up among the table's own keys. The code indexes a plain object (TownsquareScene.tsx:187), so inherited names such as `constructor` or `toString` would also be found. The entry would then be truthy without a `Component`, and rendering would fail. No id in the building table is such a name.
- Copying arrays before sorting needs no counterpart: Dafny sequences are values.
- The zoom transform is applied to points given relative to the container's transform origin. That origin comes from a stylesheet that is not part of this model (the CSS default is the element's centre).
- PathInterpolation.AdvanceAlongPath: on a loop, progress stays in [0,1] only for steps of at most one lap (`LoopWrapInRange`). The code wraps once: it subtracts 1 above 1 and adds 1 below 0. A wrap modulo 1 would keep any step in range; `LoopWrapNeedsBoundedStep` shows the difference. `LoopWrapSemantics` states the exact result.

## Notes

- `ZoomTransition.ReducedMotionDirectionChange` records a behaviour of the code. Under reduced motion, changing direction while active re-arms the guard. The reduced-motion effect does not depend on the direction, so nothing completes until `isActive`, `reducedMotion` or the callback changes. Whether any caller changes direction while active is outside this model.
- `Behaviors.ExitBuilding` goes straight to walking. The exiting-building behaviour exists in the type but is never produced (`Behaviors.NeverExitingBuilding`).
