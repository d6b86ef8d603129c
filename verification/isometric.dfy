/** The 2:1 isometric projection between grid space and screen space. */
module Isometric {
  import opened Types

  /** Horizontal span of one grid cell, in screen pixels. */
  const TILE_WIDTH: real := 120.0
  /** Vertical span of one grid cell, in screen pixels. */
  const TILE_HEIGHT: real := 60.0

  datatype ScreenPos = ScreenPos(screenX: real, screenY: real)

  /** A screen-space point with the field names the zoom transition uses. */
  datatype Point = Point(x: real, y: real)

  /** Grid to screen. Its inverse is `FromIsometric`, exactly, over the reals. */
  function ToIsometric(gridX: real, gridY: real): (s: ScreenPos)
    ensures FromIsometric(s.screenX, s.screenY) == GridPos(gridX, gridY)
  {
    ScreenPos((gridX - gridY) * (TILE_WIDTH / 2.0), (gridX + gridY) * (TILE_HEIGHT / 2.0))
  }

  /** Screen to grid. Total: it only divides by the (non-zero) tile constants. */
  function FromIsometric(screenX: real, screenY: real): (g: GridPos)
    ensures (g.gridX - g.gridY) * (TILE_WIDTH / 2.0) == screenX
    ensures (g.gridX + g.gridY) * (TILE_HEIGHT / 2.0) == screenY
  {
    var gridX := (screenX / (TILE_WIDTH / 2.0) + screenY / (TILE_HEIGHT / 2.0)) / 2.0;
    var gridY := (screenY / (TILE_HEIGHT / 2.0) - screenX / (TILE_WIDTH / 2.0)) / 2.0;
    GridPos(gridX, gridY)
  }

  /** The converse round trip: every screen point is the image of its grid point. */
  lemma ScreenRoundTrip(screenX: real, screenY: real)
    ensures var g := FromIsometric(screenX, screenY);
            ToIsometric(g.gridX, g.gridY) == ScreenPos(screenX, screenY)
  {
  }

  /** The projection of a few reference points. */
  lemma ToIsometricExamples()
    ensures ToIsometric(0.0, 0.0) == ScreenPos(0.0, 0.0)
    ensures ToIsometric(1.0, 0.0) == ScreenPos(60.0, 30.0)
    ensures ToIsometric(0.0, -6.0) == ScreenPos(360.0, -180.0)
    ensures TILE_HEIGHT == TILE_WIDTH / 2.0
  {
  }

  /** Screen x depends on gridX - gridY alone, so comparing screen x of two
      points is comparing their gridX - gridY. */
  lemma ScreenXOrder(a: GridPos, b: GridPos)
    ensures ToIsometric(a.gridX, a.gridY).screenX < ToIsometric(b.gridX, b.gridY).screenX
            <==> a.gridX - a.gridY < b.gridX - b.gridY
    ensures a.gridX - a.gridY == b.gridX - b.gridY
            ==> ToIsometric(a.gridX, a.gridY).screenX == ToIsometric(b.gridX, b.gridY).screenX
  {
  }

  /** Screen-space centre of a building: the projection of its grid position. */
  function GetBuildingCenter(config: BuildingConfig): (p: Point)
    ensures FromIsometric(p.x, p.y) == config.position
  {
    var s := ToIsometric(config.position.gridX, config.position.gridY);
    Point(s.screenX, s.screenY)
  }
}
