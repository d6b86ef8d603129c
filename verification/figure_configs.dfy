/** The thirteen configured stick figures. */
module FigureConfigs {
  import opened Types
  import WalkPaths

  function Walker(id: string, pathId: string, speed: real, startOffset: real): StickFigureConfig {
    StickFigureConfig(id, pathId, speed, startOffset, Walking)
  }

  const STICK_FIGURES: seq<StickFigureConfig> := [
    Walker("figure-1", "main-street", 1.0, 0.0),
    Walker("figure-2", "park-loop", 0.8, 0.25),
    Walker("figure-3", "north-avenue", 1.2, 0.1),
    Walker("figure-4", "side-street", 0.9, 0.5),
    Walker("figure-5", "park-loop", 1.1, 0.6),
    Walker("figure-6", "main-street", 0.7, 0.7),
    Walker("figure-7", "north-avenue", 1.3, 0.4),
    Walker("figure-8", "side-street", 0.85, 0.15),
    Walker("figure-9", "park-loop", 0.95, 0.45),
    Walker("figure-10", "main-street", 1.15, 0.35),
    Walker("figure-11", "north-avenue", 0.75, 0.8),
    Walker("figure-12", "side-street", 1.05, 0.9),
    Walker("figure-13", "park-loop", 0.9, 0.12)
  ]

  function FigureIds(fs: seq<StickFigureConfig>): (ids: seq<string>)
    ensures |ids| == |fs|
    ensures forall i :: 0 <= i < |fs| ==> ids[i] == fs[i].id
  {
    seq(|fs|, i requires 0 <= i < |fs| => fs[i].id)
  }

  /** Thirteen figures with distinct identifiers. */
  lemma FigureIdsDistinct()
    ensures |STICK_FIGURES| == 13
    ensures Distinct(FigureIds(STICK_FIGURES))
  {
  }

  /** Every figure follows a configured path, starts inside it, moves at
      0.7 to 1.3 times the base speed, and starts out walking. */
  lemma FiguresWellFormed()
    ensures forall i :: 0 <= i < |STICK_FIGURES| ==>
              var f := STICK_FIGURES[i];
              && f.pathId in WalkPaths.PathIds(WalkPaths.WALK_PATHS)
              && 0.0 <= f.startOffset <= 1.0
              && 0.7 <= f.speed <= 1.3
              && f.behavior == Walking
  {
    WalkPaths.PathIdsDistinct();
  }
}
