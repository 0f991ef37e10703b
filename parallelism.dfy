/**
 * ParallelismOperation (AND-split / AND-join): in the output graph, which already holds the
 * clones of the two inputs, a new place "initial" feeds a transition "AND-split" that feeds
 * the clones of both inputs' initial places; the clones of both inputs' final places feed a
 * transition "AND-join" that feeds a new place "final".
 */
module Parallelism {
  import opened Wrappers
  import opened Ids
  import opened Net
  import opened Graph

  const INITIAL: string := "initial"
  const FINAL: string := "final"
  const AND_SPLIT: string := "AND-split"
  const AND_JOIN: string := "AND-join"

  predicate IsControlId(id: string) {
    id == INITIAL || id == FINAL || id == AND_SPLIT || id == AND_JOIN
  }

  /** A vertex as insertPlace / insertTransition make it from an explicit id: the label is the id. */
  function Named(kind: Kind, id: string): Vertex {
    Vertex(kind, id, id)
  }

  /** An arc as insertArc makes it without an id: the n-th arc id, an empty label. */
  function NewArc(n: nat, source: string, target: string): Arc {
    Arc(GeneratedId(ARC_LETTER, n), "", Some(source), Some(target))
  }

  /** The cells of two vertices, in insertion order. */
  function VertexPair(u: Vertex, w: Vertex): seq<Cell> {
    [VertexCell(u), VertexCell(w)]
  }

  /** The cells of three arcs, in insertion order. */
  function ArcTriple(arcs: seq<Arc>): seq<Cell>
    requires |arcs| == 3
  {
    [ArcCell(arcs[0]), ArcCell(arcs[1]), ArcCell(arcs[2])]
  }

  function InitialControls(): seq<Vertex> {
    [Named(Place, INITIAL), Named(Transition, AND_SPLIT)]
  }

  function FinalControls(): seq<Vertex> {
    [Named(Place, FINAL), Named(Transition, AND_JOIN)]
  }

  function InitialControlCells(): seq<Cell> {
    VertexPair(Named(Place, INITIAL), Named(Transition, AND_SPLIT))
  }

  function FinalControlCells(): seq<Cell> {
    VertexPair(Named(Place, FINAL), Named(Transition, AND_JOIN))
  }

  /** The arcs of the initial part when the arc counter stands at `n`, in insertion order. */
  function InitialArcs(n: nat, e0: string, e1: string): seq<Arc> {
    [NewArc(n + 1, INITIAL, AND_SPLIT), NewArc(n + 2, AND_SPLIT, e0), NewArc(n + 3, AND_SPLIT, e1)]
  }

  /** The arcs of the final part when the arc counter stands at `n`, in insertion order. */
  function FinalArcs(n: nat, f0: string, f1: string): seq<Arc> {
    [NewArc(n + 1, AND_JOIN, FINAL), NewArc(n + 2, f0, AND_JOIN), NewArc(n + 3, f1, AND_JOIN)]
  }

  /**
   * The output after the operation: `cs` followed by the initial part (its two control
   * vertices, then its three arcs) and the final part, where `e0`, `e1` are the ids of the
   * clones of the inputs' initial places and `f0`, `f1` those of their final places.
   */
  function ParallelCells(cs: seq<Cell>, n: nat, e0: string, e1: string, f0: string, f1: string): seq<Cell> {
    cs + InitialControlCells() + ArcTriple(InitialArcs(n, e0, e1))
       + FinalControlCells() + ArcTriple(FinalArcs(n + 3, f0, f1))
  }

  /** The lookup of `id` finds a vertex and it is a Place (an arc from or to a transition must end there). */
  predicate FindsPlace(cs: seq<Cell>, id: string) {
    VertexById(cs, id).Some? && VertexById(cs, id).value.kind == Place
  }

  // ---------------------------------------------------------------------------------------
  // Structure of the added cells

  lemma VertexCellParts(v: Vertex)
    ensures Vertices([VertexCell(v)]) == [v] && Arcs([VertexCell(v)]) == []
  {
    assert [VertexCell(v)][..0] == [];
  }

  lemma ArcCellParts(a: Arc)
    ensures Vertices([ArcCell(a)]) == [] && Arcs([ArcCell(a)]) == [a]
  {
    assert [ArcCell(a)][..0] == [];
  }

  lemma VertexPairParts(u: Vertex, w: Vertex)
    ensures Vertices(VertexPair(u, w)) == [u, w] && Arcs(VertexPair(u, w)) == []
  {
    VertexCellParts(u);
    VertexCellParts(w);
    assert VertexPair(u, w) == [VertexCell(u)] + [VertexCell(w)];
    VerticesAppend([VertexCell(u)], [VertexCell(w)]);
    ArcsAppend([VertexCell(u)], [VertexCell(w)]);
  }

  lemma ArcTripleParts(arcs: seq<Arc>)
    requires |arcs| == 3
    ensures Vertices(ArcTriple(arcs)) == [] && Arcs(ArcTriple(arcs)) == arcs
  {
    var c0, c1, c2 := [ArcCell(arcs[0])], [ArcCell(arcs[1])], [ArcCell(arcs[2])];
    ArcCellParts(arcs[0]);
    ArcCellParts(arcs[1]);
    ArcCellParts(arcs[2]);
    assert ArcTriple(arcs) == c0 + c1 + c2;
    VerticesAppend(c0, c1);
    VerticesAppend(c0 + c1, c2);
    ArcsAppend(c0, c1);
    ArcsAppend(c0 + c1, c2);
    assert arcs == [arcs[0]] + [arcs[1]] + [arcs[2]];
  }

  /**
   * The operation adds exactly the four control vertices, after the existing ones, and exactly
   * the six arcs, after the existing ones.
   */
  lemma ParallelParts(cs: seq<Cell>, n: nat, e0: string, e1: string, f0: string, f1: string)
    ensures Vertices(ParallelCells(cs, n, e0, e1, f0, f1)) == Vertices(cs) + InitialControls() + FinalControls()
    ensures Arcs(ParallelCells(cs, n, e0, e1, f0, f1)) == Arcs(cs) + InitialArcs(n, e0, e1) + FinalArcs(n + 3, f0, f1)
  {
    var a, b, c, d := InitialControlCells(), ArcTriple(InitialArcs(n, e0, e1)),
                      FinalControlCells(), ArcTriple(FinalArcs(n + 3, f0, f1));
    VertexPairParts(Named(Place, INITIAL), Named(Transition, AND_SPLIT));
    VertexPairParts(Named(Place, FINAL), Named(Transition, AND_JOIN));
    ArcTripleParts(InitialArcs(n, e0, e1));
    ArcTripleParts(FinalArcs(n + 3, f0, f1));
    VerticesAppend(cs, a);
    VerticesAppend(cs + a, b);
    VerticesAppend(cs + a + b, c);
    VerticesAppend(cs + a + b + c, d);
    ArcsAppend(cs, a);
    ArcsAppend(cs + a, b);
    ArcsAppend(cs + a + b, c);
    ArcsAppend(cs + a + b + c, d);
  }

  function Indicator(b: bool): nat {
    if b then 1 else 0
  }

  lemma DegreesOfOne(a: Arc, x: string)
    ensures InDegree([a], x) == Indicator(Enters(a, x))
    ensures OutDegree([a], x) == Indicator(Leaves(a, x))
  {
    assert [a][..0] == [];
  }

  lemma DegreesOfThree(a: Arc, b: Arc, c: Arc, x: string)
    ensures InDegree([a, b, c], x) == Indicator(Enters(a, x)) + Indicator(Enters(b, x)) + Indicator(Enters(c, x))
    ensures OutDegree([a, b, c], x) == Indicator(Leaves(a, x)) + Indicator(Leaves(b, x)) + Indicator(Leaves(c, x))
  {
    DegreesOfOne(a, x);
    DegreesOfOne(b, x);
    DegreesOfOne(c, x);
    DegreesAppend([a], [b], x);
    DegreesAppend([a, b], [c], x);
    assert [a] + [b] == [a, b];
    assert [a, b] + [c] == [a, b, c];
  }

  /**
   * Degrees in the output: "initial" gains one outgoing arc, "AND-split" one incoming and two
   * outgoing, "AND-join" two incoming and one outgoing, "final" one incoming; each of e0, e1
   * (the clones of the input initial places) gains an incoming arc and each of f0, f1 (the
   * clones of the input final places) an outgoing arc; no other id gains anything. An added arc
   * that is a loop (a clone id equal to the control transition it is wired to) counts for neither.
   */
  lemma ParallelDegrees(cs: seq<Cell>, n: nat, e0: string, e1: string, f0: string, f1: string, x: string)
    ensures var arcs := Arcs(ParallelCells(cs, n, e0, e1, f0, f1));
            && InDegree(arcs, x) == InDegree(Arcs(cs), x) + Indicator(x == AND_SPLIT)
                                    + Indicator(x == e0 && e0 != AND_SPLIT) + Indicator(x == e1 && e1 != AND_SPLIT)
                                    + Indicator(x == FINAL)
                                    + Indicator(x == AND_JOIN && f0 != AND_JOIN) + Indicator(x == AND_JOIN && f1 != AND_JOIN)
            && OutDegree(arcs, x) == OutDegree(Arcs(cs), x) + Indicator(x == INITIAL)
                                     + Indicator(x == AND_SPLIT && e0 != AND_SPLIT) + Indicator(x == AND_SPLIT && e1 != AND_SPLIT)
                                     + Indicator(x == AND_JOIN)
                                     + Indicator(x == f0 && f0 != AND_JOIN) + Indicator(x == f1 && f1 != AND_JOIN)
  {
    ParallelParts(cs, n, e0, e1, f0, f1);
    var ia, fa := InitialArcs(n, e0, e1), FinalArcs(n + 3, f0, f1);
    DegreesAppend(Arcs(cs), ia, x);
    DegreesAppend(Arcs(cs) + ia, fa, x);
    InitialArcDegrees(n, e0, e1, x);
    FinalArcDegrees(n + 3, f0, f1, x);
  }

  lemma InitialArcDegrees(n: nat, e0: string, e1: string, x: string)
    ensures InDegree(InitialArcs(n, e0, e1), x)
            == Indicator(x == AND_SPLIT) + Indicator(x == e0 && e0 != AND_SPLIT) + Indicator(x == e1 && e1 != AND_SPLIT)
    ensures OutDegree(InitialArcs(n, e0, e1), x)
            == Indicator(x == INITIAL) + Indicator(x == AND_SPLIT && e0 != AND_SPLIT) + Indicator(x == AND_SPLIT && e1 != AND_SPLIT)
  {
    var ia := InitialArcs(n, e0, e1);
    DegreesOfThree(ia[0], ia[1], ia[2], x);
  }

  lemma FinalArcDegrees(n: nat, f0: string, f1: string, x: string)
    ensures InDegree(FinalArcs(n, f0, f1), x)
            == Indicator(x == FINAL) + Indicator(x == AND_JOIN && f0 != AND_JOIN) + Indicator(x == AND_JOIN && f1 != AND_JOIN)
    ensures OutDegree(FinalArcs(n, f0, f1), x)
            == Indicator(x == AND_JOIN) + Indicator(x == f0 && f0 != AND_JOIN) + Indicator(x == f1 && f1 != AND_JOIN)
  {
    var fa := FinalArcs(n, f0, f1);
    DegreesOfThree(fa[0], fa[1], fa[2], x);
  }

  /** No control id of the pattern starts with `p`. */
  predicate ControlsOutside(p: string) {
    !(p <= INITIAL) && !(p <= FINAL) && !(p <= AND_SPLIT) && !(p <= AND_JOIN)
  }

  /**
   * Every added arc has a control vertex at one end. So when no control id starts with `p` or
   * with `q` (the prefixes of the two inputs), no added arc joins an id under `p` with an id
   * under `q`, in either direction: the pattern does not join one input's body to the other's.
   */
  lemma ParallelArcEnds(n: nat, e0: string, e1: string, f0: string, f1: string, p: string, q: string)
    requires ControlsOutside(p) && ControlsOutside(q)
    ensures forall a :: a in InitialArcs(n, e0, e1) + FinalArcs(n + 3, f0, f1) && a.source.Some? && a.target.Some? ==>
              && !(p <= a.source.value && q <= a.target.value)
              && !(q <= a.source.value && p <= a.target.value)
  {
    var ia, fa := InitialArcs(n, e0, e1), FinalArcs(n + 3, f0, f1);
    assert ia + fa == [ia[0], ia[1], ia[2], fa[0], fa[1], fa[2]];
  }

  /** Arcs that carry consecutive generated arc ids have pairwise distinct ids. */
  lemma ConsecutiveIdsDistinct(arcs: seq<Arc>, n: nat)
    requires forall i :: 0 <= i < |arcs| ==> arcs[i].id == GeneratedId(ARC_LETTER, n + 1 + i)
    ensures forall i, j :: 0 <= i < j < |arcs| ==> arcs[i].id != arcs[j].id
  {
    forall i, j | 0 <= i < j < |arcs|
      ensures arcs[i].id != arcs[j].id
    {
      GeneratedIdsDistinct(ARC_LETTER, n + 1 + i, ARC_LETTER, n + 1 + j);
    }
  }

  /** The six added arcs carry the next six arc ids in insertion order, so their ids are pairwise distinct. */
  lemma ParallelArcIds(n: nat, e0: string, e1: string, f0: string, f1: string)
    ensures var arcs := InitialArcs(n, e0, e1) + FinalArcs(n + 3, f0, f1);
            && |arcs| == 6
            && (forall i :: 0 <= i < 6 ==> arcs[i].id == GeneratedId(ARC_LETTER, n + 1 + i))
            && (forall i, j :: 0 <= i < j < 6 ==> arcs[i].id != arcs[j].id)
  {
    var ia, fa := InitialArcs(n, e0, e1), FinalArcs(n + 3, f0, f1);
    var arcs := ia + fa;
    forall i | 0 <= i < 6
      ensures arcs[i].id == GeneratedId(ARC_LETTER, n + 1 + i)
    {
      if i < 3 {
        assert arcs[i] == ia[i];
      } else {
        assert arcs[i] == fa[i - 3];
      }
    }
    ConsecutiveIdsDistinct(arcs, n);
  }

  // ---------------------------------------------------------------------------------------
  // Initial and final places of the result

  /** No vertex of the store has a control id and no arc terminal names one. */
  predicate ControlFree(cs: seq<Cell>) {
    && (forall v :: v in Vertices(cs) ==> !IsControlId(v.id))
    && (forall a :: a in Arcs(cs) ==> (a.source.Some? ==> !IsControlId(a.source.value))
                                      && (a.target.Some? ==> !IsControlId(a.target.value)))
  }

  /** `x` and `y` are ids of boundary places of `cs`, and every boundary place has one of them. */
  predicate BoundaryIds(b: Boundary, cs: seq<Cell>, x: string, y: string) {
    && (exists v :: v in Vertices(cs) && v.id == x && IsBoundaryPlace(b, v, Arcs(cs)))
    && (exists v :: v in Vertices(cs) && v.id == y && IsBoundaryPlace(b, v, Arcs(cs)))
    && (forall v :: v in Vertices(cs) && IsBoundaryPlace(b, v, Arcs(cs)) ==> v.id == x || v.id == y)
  }

  lemma ControlFreeDegrees(cs: seq<Cell>, x: string)
    requires ControlFree(cs) && IsControlId(x)
    ensures InDegree(Arcs(cs), x) == 0 && OutDegree(Arcs(cs), x) == 0
  {
    DegreeZero(Arcs(cs), x);
  }

  /** The degrees of a boundary id: an initial place's id has an outgoing arc, a final place's an incoming one. */
  lemma BoundaryIdDegrees(b: Boundary, cs: seq<Cell>, x: string, y: string)
    requires BoundaryIds(b, cs, x, y)
    ensures b == Initial ==> OutDegree(Arcs(cs), x) > 0 && OutDegree(Arcs(cs), y) > 0 && InDegree(Arcs(cs), x) == 0
    ensures b == Final ==> InDegree(Arcs(cs), x) > 0 && InDegree(Arcs(cs), y) > 0 && OutDegree(Arcs(cs), x) == 0
    ensures !IsControlId(x) || !ControlFree(cs)
    ensures !IsControlId(y) || !ControlFree(cs)
  {
    var u :| u in Vertices(cs) && u.id == x && IsBoundaryPlace(b, u, Arcs(cs));
    var w :| w in Vertices(cs) && w.id == y && IsBoundaryPlace(b, w, Arcs(cs));
  }

  /** A vertex that was there before is neither an initial nor a final place of the result. */
  lemma OldVertexNotBoundary(cs: seq<Cell>, n: nat, e0: string, e1: string, f0: string, f1: string, b: Boundary, v: Vertex)
    requires ControlFree(cs)
    requires BoundaryIds(Initial, cs, e0, e1) && BoundaryIds(Final, cs, f0, f1)
    requires v in Vertices(cs)
    ensures !IsBoundaryPlace(b, v, Arcs(ParallelCells(cs, n, e0, e1, f0, f1)))
  {
    var x := v.id;
    assert !IsControlId(x);
    ParallelDegrees(cs, n, e0, e1, f0, f1, x);
    var arcs := Arcs(cs);
    if b == Initial {
      // an old initial place (e0 or e1) gains an incoming arc; any other place that gains an
      // outgoing arc is an old final place, which already had an incoming one
      BoundaryIdDegrees(Final, cs, f0, f1);
      BoundaryIdDegrees(Final, cs, f1, f0);
      if x != e0 && x != e1 && v.kind == Place && InDegree(arcs, x) == 0 {
        assert !IsBoundaryPlace(Initial, v, arcs);
        assert OutDegree(arcs, x) == 0;
      }
    } else {
      // symmetrically: an old final place gains an outgoing arc; any other place that gains
      // an incoming arc is an old initial place, which already had an outgoing one
      BoundaryIdDegrees(Initial, cs, e0, e1);
      BoundaryIdDegrees(Initial, cs, e1, e0);
      if x != f0 && x != f1 && v.kind == Place && OutDegree(arcs, x) == 0 {
        assert !IsBoundaryPlace(Final, v, arcs);
        assert InDegree(arcs, x) == 0;
      }
    }
  }

  lemma BoundaryOfTwo(b: Boundary, u: Vertex, w: Vertex, arcs: seq<Arc>)
    ensures BoundaryPlacesOf(b, [u, w], arcs)
            == (if IsBoundaryPlace(b, u, arcs) then [u] else []) + (if IsBoundaryPlace(b, w, arcs) then [w] else [])
  {
    BoundaryPlacesAppend(b, [u], [w], arcs);
    BoundaryPlacesAppend(b, [], [u], arcs);
    BoundaryPlacesAppend(b, [], [w], arcs);
    assert [u] + [w] == [u, w];
    assert [] + [u] == [u];
    assert [] + [w] == [w];
    assert [u][..0] == [] && [w][..0] == [];
  }

  /** "initial" has in-degree 0 and out-degree 1 in the result; "final" has out-degree 0 and in-degree 1. */
  lemma ControlDegrees(cs: seq<Cell>, n: nat, e0: string, e1: string, f0: string, f1: string)
    requires ControlFree(cs)
    requires BoundaryIds(Initial, cs, e0, e1) && BoundaryIds(Final, cs, f0, f1)
    ensures var arcs := Arcs(ParallelCells(cs, n, e0, e1, f0, f1));
            && InDegree(arcs, INITIAL) == 0 && OutDegree(arcs, INITIAL) == 1
            && OutDegree(arcs, FINAL) == 0 && InDegree(arcs, FINAL) == 1
  {
    BoundaryIdDegrees(Initial, cs, e0, e1);
    BoundaryIdDegrees(Initial, cs, e1, e0);
    BoundaryIdDegrees(Final, cs, f0, f1);
    BoundaryIdDegrees(Final, cs, f1, f0);
    ParallelDegrees(cs, n, e0, e1, f0, f1, INITIAL);
    ParallelDegrees(cs, n, e0, e1, f0, f1, FINAL);
    ControlFreeDegrees(cs, INITIAL);
    ControlFreeDegrees(cs, FINAL);
  }

  /**
   * Among the control vertices of the result, "initial" is the only initial place and "final"
   * the only final place.
   */
  lemma ControlsBoundary(cs: seq<Cell>, n: nat, e0: string, e1: string, f0: string, f1: string)
    requires ControlFree(cs)
    requires BoundaryIds(Initial, cs, e0, e1) && BoundaryIds(Final, cs, f0, f1)
    ensures var arcs := Arcs(ParallelCells(cs, n, e0, e1, f0, f1));
            && BoundaryPlacesOf(Initial, InitialControls() + FinalControls(), arcs) == [Named(Place, INITIAL)]
            && BoundaryPlacesOf(Final, InitialControls() + FinalControls(), arcs) == [Named(Place, FINAL)]
  {
    var arcs := Arcs(ParallelCells(cs, n, e0, e1, f0, f1));
    ControlDegrees(cs, n, e0, e1, f0, f1);
    BoundaryPlacesAppend(Initial, InitialControls(), FinalControls(), arcs);
    BoundaryPlacesAppend(Final, InitialControls(), FinalControls(), arcs);
    BoundaryOfTwo(Initial, Named(Place, INITIAL), Named(Transition, AND_SPLIT), arcs);
    BoundaryOfTwo(Initial, Named(Place, FINAL), Named(Transition, AND_JOIN), arcs);
    BoundaryOfTwo(Final, Named(Place, INITIAL), Named(Transition, AND_SPLIT), arcs);
    BoundaryOfTwo(Final, Named(Place, FINAL), Named(Transition, AND_JOIN), arcs);
  }

  /**
   * When the store is free of control ids, e0, e1 name its initial places and f0, f1 its final
   * places (and no other place is initial or final), the result has exactly one initial place,
   * "initial", and exactly one final place, "final".
   */
  lemma ParallelBoundary(cs: seq<Cell>, n: nat, e0: string, e1: string, f0: string, f1: string)
    requires ControlFree(cs)
    requires BoundaryIds(Initial, cs, e0, e1) && BoundaryIds(Final, cs, f0, f1)
    ensures InitialPlaces(ParallelCells(cs, n, e0, e1, f0, f1)) == [Named(Place, INITIAL)]
    ensures FinalPlaces(ParallelCells(cs, n, e0, e1, f0, f1)) == [Named(Place, FINAL)]
  {
    var r := ParallelCells(cs, n, e0, e1, f0, f1);
    var arcs := Arcs(r);
    ParallelParts(cs, n, e0, e1, f0, f1);
    var controls := InitialControls() + FinalControls();
    assert Vertices(r) == Vertices(cs) + controls;
    ControlsBoundary(cs, n, e0, e1, f0, f1);
    forall b: Boundary
      ensures BoundaryPlacesOf(b, Vertices(r), arcs) == BoundaryPlacesOf(b, controls, arcs)
    {
      forall v | v in Vertices(cs)
        ensures !IsBoundaryPlace(b, v, arcs)
      {
        OldVertexNotBoundary(cs, n, e0, e1, f0, f1, b, v);
      }
      NoBoundaryPlaces(b, Vertices(cs), arcs);
      BoundaryPlacesAppend(b, Vertices(cs), controls, arcs);
    }
  }

  // ---------------------------------------------------------------------------------------
  // The operation

  class ParallelismOperation {
    const operationGraph: PetriNetGraph
    const inputGraphs: seq<PetriNetGraph>
    /** The prefix of the k-th input (the base class's getPrefix). */
    const prefix: nat -> string

    /** The operation takes exactly two inputs. */
    constructor (operationGraph: PetriNetGraph, inputGraphs: seq<PetriNetGraph>, prefix: nat -> string)
      requires |inputGraphs| == 2
      ensures this.operationGraph == operationGraph && this.inputGraphs == inputGraphs && this.prefix == prefix
    {
      this.operationGraph := operationGraph;
      this.inputGraphs := inputGraphs;
      this.prefix := prefix;
    }

    /** getEquivalentVertex: the output vertex whose id is the prefixed id of `v` of input k (from 1). */
    method GetEquivalentVertex(k: nat, v: Vertex) returns (r: Option<Vertex>)
      ensures r == VertexById(operationGraph.cells, prefix(k) + v.id)
      ensures r.Some? ==> r.value.id == prefix(k) + v.id
    {
      r := operationGraph.GetVertexById(prefix(k) + v.id);
    }

    /** The prefixed id of the first initial place of input k (from 0). */
    function InitialId(k: nat): string
      reads this, inputGraphs
      requires k < |inputGraphs| && InitialPlaces(inputGraphs[k].cells) != []
    {
      prefix(k + 1) + InitialPlaces(inputGraphs[k].cells)[0].id
    }

    /** The prefixed id of the first final place of input k (from 0). */
    function FinalId(k: nat): string
      reads this, inputGraphs
      requires k < |inputGraphs| && FinalPlaces(inputGraphs[k].cells) != []
    {
      prefix(k + 1) + FinalPlaces(inputGraphs[k].cells)[0].id
    }

    /**
     * insertInitialPattern: adds the place "initial" and the transition "AND-split", looks up
     * the clones of both inputs' first initial places, then adds the arcs initial -> AND-split,
     * AND-split -> clone 0 and AND-split -> clone 1 with generated ids.
     */
    method InsertInitialPattern()
      requires |inputGraphs| == 2 && operationGraph !in inputGraphs
      requires InitialPlaces(inputGraphs[0].cells) != [] && InitialPlaces(inputGraphs[1].cells) != []
      requires FindsPlace(operationGraph.cells + InitialControlCells(), InitialId(0))
      requires FindsPlace(operationGraph.cells + InitialControlCells(), InitialId(1))
      modifies operationGraph`cells, operationGraph`indexPlaces, operationGraph`indexTransitions, operationGraph`indexArcs
      ensures operationGraph.cells == old(operationGraph.cells) + InitialControlCells()
                                      + ArcTriple(InitialArcs(old(operationGraph.indexArcs), old(InitialId(0)), old(InitialId(1))))
      ensures operationGraph.indexArcs == old(operationGraph.indexArcs) + 3
      ensures operationGraph.indexPlaces == old(operationGraph.indexPlaces)
      ensures operationGraph.indexTransitions == old(operationGraph.indexTransitions)
    {
      var n := operationGraph.indexArcs;
      ghost var x0, x1 := InitialId(0), InitialId(1);
      var pi := operationGraph.InsertPlace(Some(INITIAL));
      var andSplit := operationGraph.InsertTransition(Some(AND_SPLIT));
      ghost var mid := operationGraph.cells;
      assert mid == old(operationGraph.cells) + InitialControlCells();
      var net0 := inputGraphs[0];
      var net1 := inputGraphs[1];
      var initials0 := net0.GetInitialPlaces();
      var initials1 := net1.GetInitialPlaces();
      var initialPlaceAsN0 := GetEquivalentVertex(1, initials0[0]);
      var initialPlaceAsN1 := GetEquivalentVertex(2, initials1[0]);
      assert initialPlaceAsN0 == VertexById(mid, x0) && initialPlaceAsN1 == VertexById(mid, x1);
      ghost var v0, v1 := initialPlaceAsN0.value, initialPlaceAsN1.value;
      assert v0.kind == Place && v0.id == x0 && v1.kind == Place && v1.id == x1;
      var a1 := operationGraph.InsertArc(None, pi, andSplit);
      assert a1 == NewArc(n + 1, INITIAL, AND_SPLIT);
      var a2 := operationGraph.InsertArc(None, andSplit, initialPlaceAsN0.value);
      assert a2 == NewArc(n + 2, AND_SPLIT, x0);
      var a3 := operationGraph.InsertArc(None, andSplit, initialPlaceAsN1.value);
      assert a3 == NewArc(n + 3, AND_SPLIT, x1);
      assert operationGraph.cells == mid + [ArcCell(a1), ArcCell(a2), ArcCell(a3)];
    }

    /**
     * insertFinalPattern: adds the place "final" and the transition "AND-join", looks up the
     * clones of both inputs' first final places, then adds the arcs AND-join -> final,
     * clone 0 -> AND-join and clone 1 -> AND-join with generated ids.
     */
    method InsertFinalPattern()
      requires |inputGraphs| == 2 && operationGraph !in inputGraphs
      requires FinalPlaces(inputGraphs[0].cells) != [] && FinalPlaces(inputGraphs[1].cells) != []
      requires FindsPlace(operationGraph.cells + FinalControlCells(), FinalId(0))
      requires FindsPlace(operationGraph.cells + FinalControlCells(), FinalId(1))
      modifies operationGraph`cells, operationGraph`indexPlaces, operationGraph`indexTransitions, operationGraph`indexArcs
      ensures operationGraph.cells == old(operationGraph.cells) + FinalControlCells()
                                      + ArcTriple(FinalArcs(old(operationGraph.indexArcs), old(FinalId(0)), old(FinalId(1))))
      ensures operationGraph.indexArcs == old(operationGraph.indexArcs) + 3
      ensures operationGraph.indexPlaces == old(operationGraph.indexPlaces)
      ensures operationGraph.indexTransitions == old(operationGraph.indexTransitions)
    {
      var n := operationGraph.indexArcs;
      ghost var x0, x1 := FinalId(0), FinalId(1);
      var po := operationGraph.InsertPlace(Some(FINAL));
      var andJoin := operationGraph.InsertTransition(Some(AND_JOIN));
      ghost var mid := operationGraph.cells;
      assert mid == old(operationGraph.cells) + FinalControlCells();
      var net0 := inputGraphs[0];
      var net1 := inputGraphs[1];
      var finals0 := net0.GetFinalPlaces();
      var finals1 := net1.GetFinalPlaces();
      var finalPlaceAsN0 := GetEquivalentVertex(1, finals0[0]);
      var finalPlaceAsN1 := GetEquivalentVertex(2, finals1[0]);
      assert finalPlaceAsN0 == VertexById(mid, x0) && finalPlaceAsN1 == VertexById(mid, x1);
      ghost var v0, v1 := finalPlaceAsN0.value, finalPlaceAsN1.value;
      assert v0.kind == Place && v0.id == x0 && v1.kind == Place && v1.id == x1;
      var a1 := operationGraph.InsertArc(None, andJoin, po);
      assert a1 == NewArc(n + 1, AND_JOIN, FINAL);
      var a2 := operationGraph.InsertArc(None, finalPlaceAsN0.value, andJoin);
      assert a2 == NewArc(n + 2, x0, AND_JOIN);
      var a3 := operationGraph.InsertArc(None, finalPlaceAsN1.value, andJoin);
      assert a3 == NewArc(n + 3, x1, AND_JOIN);
      assert operationGraph.cells == mid + [ArcCell(a1), ArcCell(a2), ArcCell(a3)];
    }

    /**
     * process: the initial part, then the final part. The output gains the four control
     * vertices and six arcs, its arc counter rises by 6 and its place and transition counters
     * do not move; the inputs are only read.
     */
    method Process()
      requires |inputGraphs| == 2 && operationGraph !in inputGraphs
      requires InitialPlaces(inputGraphs[0].cells) != [] && InitialPlaces(inputGraphs[1].cells) != []
      requires FinalPlaces(inputGraphs[0].cells) != [] && FinalPlaces(inputGraphs[1].cells) != []
      requires FindsPlace(operationGraph.cells + InitialControlCells(), InitialId(0))
      requires FindsPlace(operationGraph.cells + InitialControlCells(), InitialId(1))
      requires var cs := operationGraph.cells + InitialControlCells()
                         + ArcTriple(InitialArcs(operationGraph.indexArcs, InitialId(0), InitialId(1)))
                         + FinalControlCells();
               FindsPlace(cs, FinalId(0)) && FindsPlace(cs, FinalId(1))
      modifies operationGraph`cells, operationGraph`indexPlaces, operationGraph`indexTransitions, operationGraph`indexArcs
      ensures operationGraph.cells == ParallelCells(old(operationGraph.cells), old(operationGraph.indexArcs),
                                                    InitialId(0), InitialId(1), FinalId(0), FinalId(1))
      ensures operationGraph.indexArcs == old(operationGraph.indexArcs) + 6
      ensures operationGraph.indexPlaces == old(operationGraph.indexPlaces)
      ensures operationGraph.indexTransitions == old(operationGraph.indexTransitions)
    {
      InsertInitialPattern();
      InsertFinalPattern();
    }
  }
}
