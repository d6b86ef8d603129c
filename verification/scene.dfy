/** Scene policy: how many figures the viewport width allows, the depth
    order of buildings and environment elements, where each building group
    is placed, and the navigation wiring. */
module Scene {
  import opened Types
  import Isometric
  import StableSort
  import BuildingConfigs
  import FigureConfigs

  // ---------------------------------------------------------------------
  // Responsive figure count

  /** Figures shown before any resize: 10 without a window, otherwise 12
      on desktops (at least 1280 px), 7 on tablets (at least 768 px) and 4
      on phones. `innerWidth` is `None` when there is no window. */
  function InitialFigureCount(innerWidth: Option<int>): (n: nat)
    ensures innerWidth.None? ==> n == 10
    ensures innerWidth.Some? ==> n in {4, 7, 12}
    ensures innerWidth.Some? ==> (n == 12 <==> innerWidth.value >= 1280)
    ensures innerWidth.Some? ==> (n == 4 <==> innerWidth.value < 768)
  {
    if innerWidth.None? then 10
    else
      var w := innerWidth.value;
      if w >= 1280 then 12
      else if w >= 768 then 7
      else 4
  }

  /** The count the resize handler sets for a new width. */
  function ResizeFigureCount(innerWidth: int): (n: nat)
    ensures n in {4, 7, 12}
  {
    if innerWidth >= 1280 then 12
    else if innerWidth >= 768 then 7
    else 4
  }

  /** The handler and the initial state use the same thresholds, so with a
      window the count depends on the current width alone. */
  lemma ResizeAgreesWithInitial(innerWidth: int)
    ensures ResizeFigureCount(innerWidth) == InitialFigureCount(Some(innerWidth))
  {
  }

  /** A wider viewport never shows fewer figures. */
  lemma FigureCountMonotone(w1: int, w2: int)
    requires w1 <= w2
    ensures ResizeFigureCount(w1) <= ResizeFigureCount(w2)
  {
  }

  /** The no-window default is not one of the breakpoint counts, and every
      count fits in the figure table. */
  lemma FigureCountBounds(innerWidth: Option<int>)
    ensures InitialFigureCount(None) !in {4, 7, 12}
    ensures InitialFigureCount(innerWidth) <= |FigureConfigs.STICK_FIGURES|
  {
    FigureConfigs.FigureIdsDistinct();
  }

  // ---------------------------------------------------------------------
  // Depth order

  function BuildingZ(b: BuildingConfig): real {
    b.zIndex
  }

  function EnvironmentZ(e: EnvironmentElement): real {
    e.zIndex
  }

  /** Buildings in drawing order: a stable sort of a copy by zIndex. */
  function SortBuildings(bs: seq<BuildingConfig>): (r: seq<BuildingConfig>)
    ensures forall i, j :: 0 <= i < j < |r| ==> r[i].zIndex <= r[j].zIndex
    ensures multiset(r) == multiset(bs)
    ensures StableSort.Stable(bs, r, BuildingZ)
  {
    StableSort.SortBy(bs, BuildingZ)
  }

  /** Environment elements in drawing order, sorted the same way. */
  function SortEnvironment(es: seq<EnvironmentElement>): (r: seq<EnvironmentElement>)
    ensures forall i, j :: 0 <= i < j < |r| ==> r[i].zIndex <= r[j].zIndex
    ensures multiset(r) == multiset(es)
    ensures StableSort.Stable(es, r, EnvironmentZ)
  {
    StableSort.SortBy(es, EnvironmentZ)
  }

  // ---------------------------------------------------------------------
  // Building placement

  /** Centering offset and label position of a building's illustration. */
  datatype ComponentEntry = ComponentEntry(offsetX: real, offsetY: real, labelX: real, labelY: real)

  const BUILDING_COMPONENTS: map<string, ComponentEntry> := map[
    "town-center" := ComponentEntry(-60.0, -60.0, 60.0, 130.0),
    "newspaper" := ComponentEntry(-50.0, -50.0, 50.0, 112.0),
    "art-gallery" := ComponentEntry(-55.0, -50.0, 55.0, 118.0),
    "post-office" := ComponentEntry(-45.0, -45.0, 45.0, 112.0)
  ]

  /** One rendered building: its group translation and its label. */
  datatype BuildingGroup = BuildingGroup(id: string, translate: Isometric.ScreenPos,
                                         labelX: real, labelY: real, name: string)

  /** The group drawn for `config`, or nothing when it has no component. */
  function PlaceBuilding(config: BuildingConfig, components: map<string, ComponentEntry>): (g: Option<BuildingGroup>)
    ensures g.None? <==> config.id !in components
    ensures g.Some? ==> g.value.id == config.id && g.value.name == config.name
    ensures g.Some? ==>
              var e := components[config.id];
              && Isometric.FromIsometric(g.value.translate.screenX - e.offsetX, g.value.translate.screenY - e.offsetY)
                 == config.position
              && g.value.labelX == e.labelX && g.value.labelY == e.labelY
  {
    if config.id !in components then None
    else
      var e := components[config.id];
      var s := Isometric.ToIsometric(config.position.gridX, config.position.gridY);
      Some(BuildingGroup(config.id, Isometric.ScreenPos(s.screenX + e.offsetX, s.screenY + e.offsetY),
                         e.labelX, e.labelY, config.name))
  }

  /** The buildings of `bs` that have a component, in their order in `bs`. */
  function WithComponent(bs: seq<BuildingConfig>, components: map<string, ComponentEntry>): (r: seq<BuildingConfig>)
    ensures |r| <= |bs|
    ensures forall b :: b in r <==> b in bs && b.id in components
    decreases |bs|
  {
    if |bs| == 0 then []
    else
      var rest := WithComponent(bs[1..], components);
      assert forall b :: b in bs <==> b == bs[0] || b in bs[1..];
      if bs[0].id in components then [bs[0]] + rest else rest
  }

  /** The groups drawn for `bs`: exactly one per building that has a
      component, in order; buildings without one are skipped. */
  function RenderBuildings(bs: seq<BuildingConfig>, components: map<string, ComponentEntry>): (gs: seq<BuildingGroup>)
    ensures |gs| == |WithComponent(bs, components)| <= |bs|
    ensures forall i :: 0 <= i < |gs| ==> PlaceBuilding(WithComponent(bs, components)[i], components) == Some(gs[i])
    ensures forall b :: b in bs && b.id in components ==> PlaceBuilding(b, components).value in gs
    ensures forall g :: g in gs ==> exists b :: b in bs && PlaceBuilding(b, components) == Some(g)
  {
    var gs := RenderFrom(bs, components);
    PlacementsOfSelection(WithComponent(bs, components), gs, components);
    gs
  }

  /** The recursion of `RenderBuildings`: each building maps to its group or
      to nothing. */
  function RenderFrom(bs: seq<BuildingConfig>, components: map<string, ComponentEntry>): (gs: seq<BuildingGroup>)
    ensures |gs| == |WithComponent(bs, components)|
    ensures forall i :: 0 <= i < |gs| ==> PlaceBuilding(WithComponent(bs, components)[i], components) == Some(gs[i])
    decreases |bs|
  {
    if |bs| == 0 then []
    else
      var rest := RenderFrom(bs[1..], components);
      var sel := WithComponent(bs, components);
      var selRest := WithComponent(bs[1..], components);
      match PlaceBuilding(bs[0], components)
      case None =>
        assert sel == selRest;
        rest
      case Some(g) =>
        assert sel == [bs[0]] + selRest;
        var gs := [g] + rest;
        assert forall i :: 1 <= i < |gs| ==> gs[i] == rest[i - 1] && sel[i] == selRest[i - 1];
        gs
  }

  /** Index-wise placements of a selection place every selected building
      and nothing else. */
  lemma PlacementsOfSelection(sel: seq<BuildingConfig>, gs: seq<BuildingGroup>, components: map<string, ComponentEntry>)
    requires |gs| == |sel|
    requires forall i :: 0 <= i < |gs| ==> PlaceBuilding(sel[i], components) == Some(gs[i])
    ensures forall b :: b in sel ==> PlaceBuilding(b, components).Some? && PlaceBuilding(b, components).value in gs
    ensures forall g :: g in gs ==> exists b :: b in sel && PlaceBuilding(b, components) == Some(g)
  {
    forall b | b in sel
      ensures PlaceBuilding(b, components).Some? && PlaceBuilding(b, components).value in gs
    {
      var i :| 0 <= i < |sel| && sel[i] == b;
      assert PlaceBuilding(sel[i], components) == Some(gs[i]);
    }
    forall g | g in gs
      ensures exists b :: b in sel && PlaceBuilding(b, components) == Some(g)
    {
      var i :| 0 <= i < |gs| && gs[i] == g;
      assert sel[i] in sel && PlaceBuilding(sel[i], components) == Some(g);
    }
  }

  /** When every building has a component, every building is drawn, each
      as its own group, in the given order. */
  lemma {:induction false} RenderBuildingsComplete(bs: seq<BuildingConfig>, components: map<string, ComponentEntry>)
    requires forall b :: b in bs ==> b.id in components
    ensures |RenderBuildings(bs, components)| == |bs|
    ensures forall i :: 0 <= i < |bs| ==> PlaceBuilding(bs[i], components) == Some(RenderBuildings(bs, components)[i])
    decreases |bs|
  {
    if |bs| > 0 {
      assert bs[0] in bs;
      assert forall b :: b in bs[1..] ==> b in bs;
      RenderBuildingsComplete(bs[1..], components);
      var g := PlaceBuilding(bs[0], components).value;
      var rest := RenderBuildings(bs[1..], components);
      var gs := RenderBuildings(bs, components);
      assert gs == [g] + rest;
      forall i | 0 <= i < |bs|
        ensures PlaceBuilding(bs[i], components) == Some(gs[i])
      {
        if i > 0 {
          assert bs[i] == bs[1..][i - 1] && gs[i] == rest[i - 1];
        }
      }
    }
  }

  /** Every configured building has a component, so none is skipped. */
  lemma EveryBuildingHasComponent()
    ensures forall b :: b in BuildingConfigs.BUILDINGS ==> b.id in BUILDING_COMPONENTS
  {
    var bs := BuildingConfigs.BUILDINGS;
    forall b | b in bs
      ensures b.id in BUILDING_COMPONENTS
    {
      var i :| 0 <= i < |bs| && bs[i] == b;
    }
  }

  /** The configured order is already the depth order, so the sorted copy
      equals the table: in particular the newspaper stays before the
      gallery, with which it ties on zIndex. */
  lemma BuildingsAlreadyInDepthOrder()
    ensures SortBuildings(BuildingConfigs.BUILDINGS) == BuildingConfigs.BUILDINGS
  {
    var bs := BuildingConfigs.BUILDINGS;
    assert StableSort.SortedBy(bs, BuildingZ);
    StableSort.SortSortedIsIdentity(bs, BuildingZ);
  }

  /** Hence all four buildings are drawn, in table order. */
  lemma AllBuildingsRendered()
    ensures var gs := RenderBuildings(SortBuildings(BuildingConfigs.BUILDINGS), BUILDING_COMPONENTS);
            |gs| == 4
            && gs[0].id == "town-center" && gs[1].id == "newspaper"
            && gs[2].id == "art-gallery" && gs[3].id == "post-office"
  {
    var bs := BuildingConfigs.BUILDINGS;
    EveryBuildingHasComponent();
    BuildingsAlreadyInDepthOrder();
    RenderBuildingsComplete(bs, BUILDING_COMPONENTS);
    var gs := RenderBuildings(bs, BUILDING_COMPONENTS);
    assert |gs| == 4;
    assert PlaceBuilding(bs[0], BUILDING_COMPONENTS) == Some(gs[0]);
    assert PlaceBuilding(bs[1], BUILDING_COMPONENTS) == Some(gs[1]);
    assert PlaceBuilding(bs[2], BUILDING_COMPONENTS) == Some(gs[2]);
    assert PlaceBuilding(bs[3], BUILDING_COMPONENTS) == Some(gs[3]);
  }

  /** The town centre's group sits at its projected centre shifted by its
      illustration offset. */
  lemma TownCenterPlacement()
    ensures PlaceBuilding(BuildingConfigs.BUILDINGS[0], BUILDING_COMPONENTS)
            == Some(BuildingGroup("town-center", Isometric.ScreenPos(-60.0, -60.0), 60.0, 130.0, "Town Center"))
  {
  }

  // ---------------------------------------------------------------------
  // Navigation wiring

  /** What the scene switches on while a zoom navigation runs. */
  datatype Wiring = Wiring(viewportEnabled: bool, figuresVisible: bool)

  /** Pan and zoom are enabled exactly when no navigation is in progress,
      and the figure layer's `isVisible` prop is set the same way. */
  function SceneWiring(isNavigating: bool): (w: Wiring)
    ensures w.viewportEnabled <==> !isNavigating
    ensures w.figuresVisible == w.viewportEnabled
  {
    Wiring(!isNavigating, !isNavigating)
  }
}
