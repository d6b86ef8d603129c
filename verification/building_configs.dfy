/** The four interactive buildings of the townsquare. */
module BuildingConfigs {
  import opened Types
  import Isometric

  const BUILDINGS: seq<BuildingConfig> := [
    BuildingConfig("town-center", "Town Center", "/about", GridPos(0.0, 0.0),
                   "#D4A574", "#D99A5B", "Town Center – Navigate to About", 10.0),
    BuildingConfig("newspaper", "Newspaper", "/blog", GridPos(-5.0, -2.0),
                   "#C4956A", "#CF8A55", "Newspaper – Navigate to Blog", 20.0),
    BuildingConfig("art-gallery", "Art Gallery", "/photography", GridPos(5.0, -2.0),
                   "#6BA3A0", "#579E9A", "Art Gallery – Navigate to Photography", 20.0),
    BuildingConfig("post-office", "Post Office", "/contact", GridPos(0.0, -6.0),
                   "#B07070", "#B85C5C", "Post Office – Navigate to Contact", 30.0)
  ]

  function BuildingIds(bs: seq<BuildingConfig>): (ids: seq<string>)
    ensures |ids| == |bs|
    ensures forall i :: 0 <= i < |bs| ==> ids[i] == bs[i].id
  {
    seq(|bs|, i requires 0 <= i < |bs| => bs[i].id)
  }

  function Routes(bs: seq<BuildingConfig>): (routes: seq<string>)
    ensures |routes| == |bs|
    ensures forall i :: 0 <= i < |bs| ==> routes[i] == bs[i].route
  {
    seq(|bs|, i requires 0 <= i < |bs| => bs[i].route)
  }

  /** The building with identifier `id`, if any. */
  function FindBuilding(bs: seq<BuildingConfig>, id: string): (r: Option<BuildingConfig>)
    ensures r.None? <==> forall i :: 0 <= i < |bs| ==> bs[i].id != id
    ensures r.Some? ==> r.value in bs && r.value.id == id
    decreases |bs|
  {
    if |bs| == 0 then None
    else if bs[0].id == id then Some(bs[0])
    else
      var r := FindBuilding(bs[1..], id);
      assert forall i :: 1 <= i < |bs| ==> bs[1..][i - 1] == bs[i];
      r
  }

  /** With distinct identifiers, looking up a building's own id finds it. */
  lemma {:induction false} FindOwnId(bs: seq<BuildingConfig>, i: nat)
    requires Distinct(BuildingIds(bs))
    requires i < |bs|
    ensures FindBuilding(bs, bs[i].id) == Some(bs[i])
    decreases |bs|
  {
    if i > 0 {
      assert bs[0].id != bs[i].id by { assert BuildingIds(bs)[0] != BuildingIds(bs)[i]; }
      assert BuildingIds(bs[1..]) == BuildingIds(bs)[1..];
      FindOwnId(bs[1..], i - 1);
    }
  }

  /** Four buildings with pairwise distinct identifiers. */
  lemma BuildingIdsDistinct()
    ensures |BUILDINGS| == 4
    ensures Distinct(BuildingIds(BUILDINGS))
  {
  }

  /** Each building leads to its own section. */
  lemma BuildingRoutes()
    ensures FindBuilding(BUILDINGS, "town-center").Some?
            && FindBuilding(BUILDINGS, "town-center").value.route == "/about"
    ensures FindBuilding(BUILDINGS, "newspaper").Some?
            && FindBuilding(BUILDINGS, "newspaper").value.route == "/blog"
    ensures FindBuilding(BUILDINGS, "art-gallery").Some?
            && FindBuilding(BUILDINGS, "art-gallery").value.route == "/photography"
    ensures FindBuilding(BUILDINGS, "post-office").Some?
            && FindBuilding(BUILDINGS, "post-office").value.route == "/contact"
  {
    BuildingIdsDistinct();
    FindOwnId(BUILDINGS, 0);
    FindOwnId(BUILDINGS, 1);
    FindOwnId(BUILDINGS, 2);
    FindOwnId(BUILDINGS, 3);
  }

  /** No two buildings share a route. */
  lemma RoutesDistinct()
    ensures Routes(BUILDINGS) == ["/about", "/blog", "/photography", "/contact"]
    ensures Distinct(Routes(BUILDINGS))
  {
  }

  /** Drawing order: town centre below the newspaper and gallery, which tie,
      below the post office. */
  lemma BuildingDepthOrder()
    ensures BUILDINGS[0].id == "town-center" && BUILDINGS[0].zIndex == 10.0
    ensures BUILDINGS[1].id == "newspaper" && BUILDINGS[1].zIndex == 20.0
    ensures BUILDINGS[2].id == "art-gallery" && BUILDINGS[2].zIndex == 20.0
    ensures BUILDINGS[3].id == "post-office" && BUILDINGS[3].zIndex == 30.0
  {
  }

  /** Screen centres of the first and last building. */
  lemma BuildingCenters()
    ensures Isometric.GetBuildingCenter(BUILDINGS[0]) == Isometric.Point(0.0, 0.0)
    ensures Isometric.GetBuildingCenter(BUILDINGS[3]) == Isometric.Point(360.0, -180.0)
  {
  }
}
