/**
 * The Petri net as a value: the cells of one graph in child order, and the structural
 * queries of PetriNetGraph (initial and final places, reachability to a target, the
 * workflow-net predicate, lookup by id) as functions over those cells.
 *
 * A vertex is identified by its id. An arc records its terminals by vertex id; a terminal is
 * `None` when the vertex it was meant to reach was not found (a `null` terminal).
 */
module Net {
  import opened Wrappers
  import opened Ids

  datatype Kind = Place | Transition | Interface

  datatype Vertex = Vertex(kind: Kind, id: string, value: string)

  datatype Arc = Arc(id: string, value: string, source: Option<string>, target: Option<string>)

  /** A child of the graph's default parent: a vertex or an edge. */
  datatype Cell = VertexCell(vertex: Vertex) | ArcCell(arc: Arc)

  /** The rule the Petri net imposes on every arc: one end a Place, the other a Transition. */
  predicate Bipartite(source: Kind, target: Kind) {
    (source == Place && target == Transition) || (source == Transition && target == Place)
  }

  // ---------------------------------------------------------------------------------------
  // Vertices and arcs of a cell sequence (getChildVertices / getChildEdges)

  function Vertices(cs: seq<Cell>): seq<Vertex> {
    if cs == [] then []
    else Vertices(cs[..|cs| - 1]) + (match cs[|cs| - 1] case VertexCell(v) => [v] case ArcCell(_) => [])
  }

  function Arcs(cs: seq<Cell>): seq<Arc> {
    if cs == [] then []
    else Arcs(cs[..|cs| - 1]) + (match cs[|cs| - 1] case ArcCell(a) => [a] case VertexCell(_) => [])
  }

  /** Appending one cell appends its vertex or its arc, and nothing else. */
  lemma AppendCell(cs: seq<Cell>, c: Cell)
    ensures Vertices(cs + [c]) == Vertices(cs) + (if c.VertexCell? then [c.vertex] else [])
    ensures Arcs(cs + [c]) == Arcs(cs) + (if c.ArcCell? then [c.arc] else [])
  {
    assert (cs + [c])[..|cs + [c]| - 1] == cs;
  }

  lemma {:induction false} VerticesAppend(cs: seq<Cell>, ds: seq<Cell>)
    ensures Vertices(cs + ds) == Vertices(cs) + Vertices(ds)
  {
    if ds == [] {
      assert cs + ds == cs;
    } else {
      assert (cs + ds)[..|cs + ds| - 1] == cs + ds[..|ds| - 1];
      VerticesAppend(cs, ds[..|ds| - 1]);
    }
  }

  lemma {:induction false} ArcsAppend(cs: seq<Cell>, ds: seq<Cell>)
    ensures Arcs(cs + ds) == Arcs(cs) + Arcs(ds)
  {
    if ds == [] {
      assert cs + ds == cs;
    } else {
      assert (cs + ds)[..|cs + ds| - 1] == cs + ds[..|ds| - 1];
      ArcsAppend(cs, ds[..|ds| - 1]);
    }
  }

  /** The vertices of a store are exactly its vertex cells, and its arcs exactly its arc cells. */
  lemma {:induction false} CellsMembership(cs: seq<Cell>)
    ensures forall v :: v in Vertices(cs) <==> VertexCell(v) in cs
    ensures forall a :: a in Arcs(cs) <==> ArcCell(a) in cs
  {
    if cs != [] {
      var init := cs[..|cs| - 1];
      CellsMembership(init);
      assert cs == init + [cs[|cs| - 1]];
    }
  }

  // ---------------------------------------------------------------------------------------
  // Degrees (getIncomingEdges(v).length, getOutgoingEdges(v).length)
  //
  // Both JGraphX queries leave out loops, so an arc whose source is its target counts toward
  // neither degree.

  predicate IsLoop(a: Arc) {
    a.source == a.target
  }

  /** The arc is counted as an incoming edge of `id`. */
  predicate Enters(a: Arc, id: string) {
    a.target == Some(id) && !IsLoop(a)
  }

  /** The arc is counted as an outgoing edge of `id`. */
  predicate Leaves(a: Arc, id: string) {
    a.source == Some(id) && !IsLoop(a)
  }

  function InDegree(arcs: seq<Arc>, id: string): nat {
    if arcs == [] then 0
    else InDegree(arcs[..|arcs| - 1], id) + (if Enters(arcs[|arcs| - 1], id) then 1 else 0)
  }

  function OutDegree(arcs: seq<Arc>, id: string): nat {
    if arcs == [] then 0
    else OutDegree(arcs[..|arcs| - 1], id) + (if Leaves(arcs[|arcs| - 1], id) then 1 else 0)
  }

  lemma {:induction false} DegreesAppend(xs: seq<Arc>, ys: seq<Arc>, id: string)
    ensures InDegree(xs + ys, id) == InDegree(xs, id) + InDegree(ys, id)
    ensures OutDegree(xs + ys, id) == OutDegree(xs, id) + OutDegree(ys, id)
  {
    if ys == [] {
      assert xs + ys == xs;
    } else {
      assert (xs + ys)[..|xs + ys| - 1] == xs + ys[..|ys| - 1];
      DegreesAppend(xs, ys[..|ys| - 1], id);
    }
  }

  /** A loop arc adds to neither degree of any id. */
  lemma LoopAddsNoDegree(arcs: seq<Arc>, a: Arc, id: string)
    requires IsLoop(a)
    ensures InDegree(arcs + [a], id) == InDegree(arcs, id)
    ensures OutDegree(arcs + [a], id) == OutDegree(arcs, id)
  {
    assert (arcs + [a])[..|arcs + [a]| - 1] == arcs;
  }

  /** A degree is zero exactly when no arc other than a loop ends (starts) at the vertex. */
  lemma {:induction false} DegreeZero(arcs: seq<Arc>, id: string)
    ensures InDegree(arcs, id) == 0 <==> forall a :: a in arcs ==> !Enters(a, id)
    ensures OutDegree(arcs, id) == 0 <==> forall a :: a in arcs ==> !Leaves(a, id)
  {
    if arcs != [] {
      var init := arcs[..|arcs| - 1];
      DegreeZero(init, id);
      assert arcs == init + [arcs[|arcs| - 1]];
    }
  }

  // ---------------------------------------------------------------------------------------
  // Initial and final places (getInitialPlaces, getFinalPlaces)

  datatype Boundary = Initial | Final

  /**
   * An initial place has no incoming and at least one outgoing arc; a final place has no
   * outgoing and at least one incoming arc (the code tests `> 0`).
   */
  predicate IsBoundaryPlace(b: Boundary, v: Vertex, arcs: seq<Arc>) {
    && v.kind == Place
    && match b
       case Initial => InDegree(arcs, v.id) == 0 && OutDegree(arcs, v.id) > 0
       case Final => OutDegree(arcs, v.id) == 0 && InDegree(arcs, v.id) > 0
  }

  /** The boundary places among `vs`, in their order. */
  function BoundaryPlacesOf(b: Boundary, vs: seq<Vertex>, arcs: seq<Arc>): seq<Vertex> {
    if vs == [] then []
    else
      BoundaryPlacesOf(b, vs[..|vs| - 1], arcs)
      + (if IsBoundaryPlace(b, vs[|vs| - 1], arcs) then [vs[|vs| - 1]] else [])
  }

  function InitialPlaces(cs: seq<Cell>): seq<Vertex> {
    BoundaryPlacesOf(Initial, Vertices(cs), Arcs(cs))
  }

  function FinalPlaces(cs: seq<Cell>): seq<Vertex> {
    BoundaryPlacesOf(Final, Vertices(cs), Arcs(cs))
  }

  /**
   * A vertex is listed exactly when it is one of the vertices and is a boundary place; so an
   * isolated place is never initial nor final, and no Transition or Interface is ever listed.
   */
  lemma {:induction false} BoundaryPlacesMembership(b: Boundary, vs: seq<Vertex>, arcs: seq<Arc>)
    ensures |BoundaryPlacesOf(b, vs, arcs)| <= |vs|
    ensures forall v :: v in BoundaryPlacesOf(b, vs, arcs) <==> v in vs && IsBoundaryPlace(b, v, arcs)
  {
    if vs != [] {
      var init := vs[..|vs| - 1];
      BoundaryPlacesMembership(b, init, arcs);
      assert vs == init + [vs[|vs| - 1]];
    }
  }

  lemma {:induction false} BoundaryPlacesAppend(b: Boundary, xs: seq<Vertex>, ys: seq<Vertex>, arcs: seq<Arc>)
    ensures BoundaryPlacesOf(b, xs + ys, arcs) == BoundaryPlacesOf(b, xs, arcs) + BoundaryPlacesOf(b, ys, arcs)
  {
    if ys == [] {
      assert xs + ys == xs;
    } else {
      assert (xs + ys)[..|xs + ys| - 1] == xs + ys[..|ys| - 1];
      BoundaryPlacesAppend(b, xs, ys[..|ys| - 1], arcs);
    }
  }

  /** With no boundary place among `vs` the list is empty. */
  lemma {:induction false} NoBoundaryPlaces(b: Boundary, vs: seq<Vertex>, arcs: seq<Arc>)
    requires forall v :: v in vs ==> !IsBoundaryPlace(b, v, arcs)
    ensures BoundaryPlacesOf(b, vs, arcs) == []
  {
    if vs != [] {
      NoBoundaryPlaces(b, vs[..|vs| - 1], arcs);
    }
  }

  /**
   * A place whose only arcs are a loop on itself and one arc out of it is an initial place:
   * the loop counts as neither an incoming nor an outgoing arc.
   */
  lemma LoopedPlaceIsInitial()
    ensures IsBoundaryPlace(Initial, Vertex(Place, "p", "p"),
                            [Arc("a1", "", Some("p"), Some("p")), Arc("a2", "", Some("p"), Some("t"))])
  {
    var loop, out := Arc("a1", "", Some("p"), Some("p")), Arc("a2", "", Some("p"), Some("t"));
    LoopAddsNoDegree([], loop, "p");
    assert [] + [loop] == [loop];
    assert [loop, out][..1] == [loop];
  }

  /** An initial place and a final place of the same arcs never share an id. */
  lemma InitialIsNotFinal(u: Vertex, w: Vertex, arcs: seq<Arc>)
    requires IsBoundaryPlace(Initial, u, arcs) && IsBoundaryPlace(Final, w, arcs)
    ensures u.id != w.id
  {
  }

  // ---------------------------------------------------------------------------------------
  // Lookup by id (getVertexById)

  /** The position of the first vertex with the given id. */
  function FirstIndexOf(vs: seq<Vertex>, id: string): (r: Option<nat>)
    ensures r.Some? ==> r.value < |vs| && vs[r.value].id == id
    ensures r.Some? ==> forall j :: 0 <= j < r.value ==> vs[j].id != id
    ensures r.None? ==> forall j :: 0 <= j < |vs| ==> vs[j].id != id
  {
    if vs == [] then None
    else if vs[0].id == id then Some(0)
    else match FirstIndexOf(vs[1..], id)
      case None => None
      case Some(k) => Some(k + 1)
  }

  /** The first vertex, in store order, whose id is `id`; `None` when there is none. */
  function VertexById(cs: seq<Cell>, id: string): Option<Vertex> {
    var vs := Vertices(cs);
    match FirstIndexOf(vs, id)
    case None => None
    case Some(k) => Some(vs[k])
  }

  predicate HasVertexId(vs: seq<Vertex>, id: string) {
    exists v :: v in vs && v.id == id
  }

  /** The lookup succeeds exactly when some vertex has the id, and it returns a vertex with that id. */
  lemma VertexByIdFound(cs: seq<Cell>, id: string)
    ensures VertexById(cs, id).Some? <==> HasVertexId(Vertices(cs), id)
    ensures VertexById(cs, id).Some? ==>
              VertexById(cs, id).value in Vertices(cs) && VertexById(cs, id).value.id == id
  {
    var vs := Vertices(cs);
    if HasVertexId(vs, id) {
      var v :| v in vs && v.id == id;
      var k :| 0 <= k < |vs| && vs[k] == v;
    }
  }

  /** Cells added after a vertex with the id do not change what the lookup returns. */
  lemma {:induction false} VertexByIdExtend(cs: seq<Cell>, ds: seq<Cell>, id: string)
    requires HasVertexId(Vertices(cs), id)
    ensures VertexById(cs + ds, id) == VertexById(cs, id)
  {
    VerticesAppend(cs, ds);
    var vs, ws := Vertices(cs), Vertices(ds);
    VertexByIdFound(cs, id);
    var k := FirstIndexOf(vs, id).value;
    var r := FirstIndexOf(vs + ws, id);
    assert (vs + ws)[k] == vs[k];
    assert r.Some? && r.value <= k;
    assert r.value == k;
  }

  // ---------------------------------------------------------------------------------------
  // Reachability (the existence test behind getShortestPath)

  /** There is a directed path of at most `k` arcs from `from` to `to`. */
  function ReachesWithin(arcs: seq<Arc>, from: string, to: string, k: nat): bool
    decreases k
  {
    from == to
    || (k > 0 && exists a :: a in arcs && a.source == Some(from) && a.target.Some?
                             && ReachesWithin(arcs, a.target.value, to, k - 1))
  }

  /** The path search is bounded by the number of vertices of the graph. */
  function Reaches(cs: seq<Cell>, from: string, to: string): bool {
    ReachesWithin(Arcs(cs), from, to, |Vertices(cs)|)
  }

  lemma {:induction false} ReachesWithinMonotone(arcs: seq<Arc>, more: seq<Arc>, from: string, to: string, k: nat, m: nat)
    requires forall a :: a in arcs ==> a in more
    requires k <= m
    requires ReachesWithin(arcs, from, to, k)
    ensures ReachesWithin(more, from, to, m)
    decreases k
  {
    if from != to {
      var a :| a in arcs && a.source == Some(from) && a.target.Some?
               && ReachesWithin(arcs, a.target.value, to, k - 1);
      ReachesWithinMonotone(arcs, more, a.target.value, to, k - 1, m - 1);
    }
  }

  lemma {:induction false} ReachesWithinTrans(arcs: seq<Arc>, x: string, y: string, z: string, k: nat, m: nat)
    requires ReachesWithin(arcs, x, y, k) && ReachesWithin(arcs, y, z, m)
    ensures ReachesWithin(arcs, x, z, k + m)
    decreases k
  {
    if x == y {
      ReachesWithinMonotone(arcs, arcs, y, z, m, k + m);
    } else {
      var a :| a in arcs && a.source == Some(x) && a.target.Some?
               && ReachesWithin(arcs, a.target.value, y, k - 1);
      ReachesWithinTrans(arcs, a.target.value, y, z, k - 1, m);
    }
  }

  /** A single arc is a path of length one. */
  lemma ReachesByArc(arcs: seq<Arc>, a: Arc, k: nat)
    requires a in arcs && a.source.Some? && a.target.Some? && k >= 1
    ensures ReachesWithin(arcs, a.source.value, a.target.value, k)
  {
    assert ReachesWithin(arcs, a.target.value, a.target.value, k - 1);
  }

  // ---------------------------------------------------------------------------------------
  // Connectivity to a target (getNotConnectedVertices) and the workflow-net predicate

  /**
   * `v` is reported as not connected to `target` when it is a Place or Transition other than
   * the target with no path to it, or when it is a Transition without incoming arcs (this second
   * test applies to the target too).
   */
  predicate Disconnected(cs: seq<Cell>, v: Vertex, target: Vertex) {
    || (v.id != target.id && v.kind != Interface && !Reaches(cs, v.id, target.id))
    || (v.kind == Transition && InDegree(Arcs(cs), v.id) == 0)
  }

  function NotConnected(cs: seq<Cell>, target: Vertex): set<Vertex> {
    set v | v in Vertices(cs) && Disconnected(cs, v, target)
  }

  /**
   * isWorkflowStronglyConnected: one initial place, one final place, and nothing not connected
   * to that final place. isWorkFlow returns the same value.
   */
  predicate WorkflowStronglyConnected(cs: seq<Cell>) {
    && |InitialPlaces(cs)| == 1
    && |FinalPlaces(cs)| == 1
    && NotConnected(cs, FinalPlaces(cs)[0]) == {}
  }

  /**
   * The workflow-net predicate in plain terms: a single initial place, a single final place f,
   * every Place and Transition other than f has a path to f, and every Transition has an
   * incoming arc.
   */
  lemma WorkflowCharacterized(cs: seq<Cell>)
    ensures WorkflowStronglyConnected(cs) <==>
              && |InitialPlaces(cs)| == 1
              && |FinalPlaces(cs)| == 1
              && (forall v :: (v in Vertices(cs) && v.kind != Interface && v.id != FinalPlaces(cs)[0].id)
                                ==> Reaches(cs, v.id, FinalPlaces(cs)[0].id))
              && (forall v :: v in Vertices(cs) && v.kind == Transition ==> InDegree(Arcs(cs), v.id) > 0)
  {
    if |InitialPlaces(cs)| == 1 && |FinalPlaces(cs)| == 1 {
      var f := FinalPlaces(cs)[0];
      if NotConnected(cs, f) == {} {
        forall v | v in Vertices(cs)
          ensures !Disconnected(cs, v, f)
        {
          assert v !in NotConnected(cs, f);
        }
      }
    }
  }

  // ---------------------------------------------------------------------------------------
  // Child order of arcs and their terminals

  /** Both terminals of the arc are set and name vertices among `vs`. */
  predicate Attached(a: Arc, vs: seq<Vertex>) {
    && a.source.Some? && a.target.Some?
    && HasVertexId(vs, a.source.value) && HasVertexId(vs, a.target.value)
  }

  /** Every arc comes after the vertices its terminals name (vertices before arcs, per graph). */
  predicate Ordered(cs: seq<Cell>) {
    cs == []
    || (&& Ordered(cs[..|cs| - 1])
        && match cs[|cs| - 1]
           case VertexCell(_) => true
           case ArcCell(a) => Attached(a, Vertices(cs[..|cs| - 1])))
  }

  // ---------------------------------------------------------------------------------------
  // Identifier discipline (what the id counters guarantee)

  predicate UniqueIds(cs: seq<Cell>) {
    var vs := Vertices(cs);
    forall i, j :: 0 <= i < j < |vs| ==> vs[i].id != vs[j].id
  }

  /**
   * Every generated-looking id in the graph is at most its counter, so the next id a
   * generator produces is not in use yet.
   */
  ghost predicate CountersAhead(cs: seq<Cell>, places: nat, transitions: nat, arcs: nat, interfaces: nat) {
    && (forall v, k: nat :: v in Vertices(cs) && v.id == GeneratedId(PLACE_LETTER, k) ==> k <= places)
    && (forall v, k: nat :: v in Vertices(cs) && v.id == GeneratedId(TRANSITION_LETTER, k) ==> k <= transitions)
    && (forall v, k: nat :: v in Vertices(cs) && v.id == GeneratedId(INTERFACE_LETTER, k) ==> k <= interfaces)
    && (forall a, k: nat :: a in Arcs(cs) && a.id == GeneratedId(ARC_LETTER, k) ==> k <= arcs)
  }
}
