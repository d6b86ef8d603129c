/** Rendering of the stick figures: depth-sorted by gridY, nothing at all
    for an empty list, and each figure drawn from its own state. */
module StickFigureManager {
  import opened Types
  import opened Behaviors
  import StableSort

  /** The props handed to one drawn figure. */
  datatype StickFigureProps = StickFigureProps(
    key: string,
    position: GridPos,
    behavior: FigureBehavior,
    walkPhase: real,
    facingLeft: bool)

  function PropsOf(f: FigureState): StickFigureProps {
    StickFigureProps(f.id, GridPos(f.gridX, f.gridY), f.behavior, f.walkPhase, f.facingLeft)
  }

  function GridYKey(f: FigureState): real {
    f.gridY
  }

  /** The figures in drawing order: a stable sort of a copy by ascending
      gridY, so nearer figures (larger gridY) are drawn over farther ones. */
  function SortFigures(figures: seq<FigureState>): (r: seq<FigureState>)
    ensures forall i, j :: 0 <= i < j < |r| ==> r[i].gridY <= r[j].gridY
    ensures multiset(r) == multiset(figures)
    ensures StableSort.Stable(figures, r, GridYKey)
  {
    StableSort.SortBy(figures, GridYKey)
  }

  /** One props record per figure, in the same order. */
  function MapProps(s: seq<FigureState>): (ps: seq<StickFigureProps>)
    ensures |ps| == |s|
    ensures forall i :: 0 <= i < |s| ==> ps[i] == PropsOf(s[i])
  {
    seq(|s|, i requires 0 <= i < |s| => PropsOf(s[i]))
  }

  /** Mapping a permutation of `figures` yields the props of exactly the
      figures of `figures`. */
  lemma PermutedProps(figures: seq<FigureState>, sorted: seq<FigureState>)
    requires multiset(sorted) == multiset(figures)
    ensures forall f :: f in figures ==> PropsOf(f) in MapProps(sorted)
    ensures forall i :: 0 <= i < |sorted| ==> exists f :: f in figures && MapProps(sorted)[i] == PropsOf(f)
  {
    var props := MapProps(sorted);
    forall f | f in figures
      ensures PropsOf(f) in props
    {
      assert f in multiset(sorted);
      var k :| 0 <= k < |sorted| && sorted[k] == f;
      assert props[k] == PropsOf(f);
    }
    forall i | 0 <= i < |sorted|
      ensures exists f :: f in figures && props[i] == PropsOf(f)
    {
      assert sorted[i] in multiset(figures);
    }
  }

  /** What is rendered: nothing for no figures, otherwise one props record
      per figure in depth order. The records are those of the stable sort,
      so figures with equal gridY are drawn in input order. */
  function Render(figures: seq<FigureState>): (r: Option<seq<StickFigureProps>>)
    ensures r.None? <==> |figures| == 0
    ensures r.Some? ==> r.value == MapProps(SortFigures(figures))
    ensures r.Some? ==> |r.value| == |figures|
    ensures r.Some? ==> forall i, j :: 0 <= i < j < |r.value| ==> r.value[i].position.gridY <= r.value[j].position.gridY
    ensures r.Some? ==> forall f :: f in figures ==> PropsOf(f) in r.value
    ensures r.Some? ==> forall i :: 0 <= i < |r.value| ==> exists f :: f in figures && r.value[i] == PropsOf(f)
  {
    var sorted := SortFigures(figures);
    assert |sorted| == |multiset(sorted)| == |figures|;
    if |sorted| == 0 then None
    else
      PermutedProps(figures, sorted);
      Some(MapProps(sorted))
  }

  /** Two figures at the same depth are drawn in the order they were given:
      the sort does not swap ties. */
  lemma TiesDrawnInInputOrder(f1: FigureState, f2: FigureState)
    requires f1.gridY == f2.gridY
    ensures Render([f1, f2]) == Some([PropsOf(f1), PropsOf(f2)])
  {
    var s := SortFigures([f1, f2]);
    assert |s| == |multiset(s)| == 2;
    forall x | x in s
      ensures GridYKey(x) == f1.gridY
    {
      assert x in multiset([f1, f2]);
    }
    StableSort.StableSameKey([f1, f2], s, GridYKey, f1.gridY);
    var ps := MapProps([f1, f2]);
    assert ps == [ps[0], ps[1]];
  }

  /** Drawn props carry exactly the figure's own position, behaviour, walk
      phase and facing. */
  lemma PropsFaithful(f: FigureState)
    ensures PropsOf(f).key == f.id
    ensures PropsOf(f).position.gridX == f.gridX && PropsOf(f).position.gridY == f.gridY
    ensures PropsOf(f).behavior == f.behavior && PropsOf(f).walkPhase == f.walkPhase
    ensures PropsOf(f).facingLeft == f.facingLeft
  {
  }
}
