/**
 * PetriNetGraph: the mutable store of one net. Its cells and its four id counters are fields
 * that the mutators update in place; the queries loop over the current vertices and are proved
 * to compute the functions of module Net.
 */
module Graph {
  import opened Wrappers
  import opened Ids
  import opened Net

  /** A child node of a pnml `net` element, reduced to what the import reads from it. */
  datatype Element =
    | PlaceElement(id: string, value: string)
    | TransitionElement(id: string, value: string)
    | ArcElement(id: string, value: string, sourceId: string, targetId: string)
    | OtherNode   // text nodes and elements of any other name: skipped

  /** A pnml `net` element: its id and type attributes and its child nodes in document order. */
  datatype NetElement = NetElement(id: string, netType: string, children: seq<Element>)

  /** The terminal an arc gets from a lookup: the found vertex, or none. */
  function TerminalOf(found: Option<Vertex>): Option<string> {
    match found
    case None => None
    case Some(v) => Some(v.id)
  }

  /**
   * The net id the import uses: the trimmed id, unless it is empty or WoPeD's "noID". So the
   * graph's id is the default, or else a non-blank slice of the attribute other than "noID"
   * that neither starts nor ends with a character the trim removes.
   */
  function NetId(rawId: string, defaultId: string): (id: string)
    ensures id != defaultId ==>
              && id != [] && id != "noID"
              && !IsTrimmed(id[0]) && !IsTrimmed(id[|id| - 1])
              && exists i, j :: 0 <= i <= j <= |rawId| && id == rawId[i..j]
  {
    TrimIsSlice(rawId);
    var id := Trim(rawId);
    if id == [] || id == "noID" then defaultId else id
  }

  /**
   * The cells the import builds from the children, in document order: one vertex per place or
   * transition element, one arc per arc element whose terminals are looked up among the cells
   * imported before it.
   */
  function ImportCells(els: seq<Element>): seq<Cell> {
    if els == [] then []
    else
      var prev := ImportCells(els[..|els| - 1]);
      prev + ImportElement(prev, els[|els| - 1])
  }

  /** The cells one child adds to a graph that already holds `prev`. */
  function ImportElement(prev: seq<Cell>, e: Element): seq<Cell> {
    match e
    case PlaceElement(id, value) => [VertexCell(Vertex(Place, id, value))]
    case TransitionElement(id, value) => [VertexCell(Vertex(Transition, id, value))]
    case ArcElement(id, value, s, t) =>
      [ArcCell(Arc(id, value, TerminalOf(VertexById(prev, s)), TerminalOf(VertexById(prev, t))))]
    case OtherNode => []
  }

  lemma ImportStep(els: seq<Element>, i: nat)
    requires i < |els|
    ensures ImportCells(els[..i + 1]) == ImportCells(els[..i]) + ImportElement(ImportCells(els[..i]), els[i])
    ensures forall k :: CountElements(els[..i + 1], k) == CountElements(els[..i], k) + (if IsVertexElement(els[i], k) then 1 else 0)
  {
    assert els[..i + 1][..i] == els[..i];
  }

  /** The vertices one child adds: one for a place or transition element, none otherwise. */
  lemma ImportElementVertices(prev: seq<Cell>, e: Element)
    ensures Vertices(ImportElement(prev, e)) ==
              match e
              case PlaceElement(id, value) => [Vertex(Place, id, value)]
              case TransitionElement(id, value) => [Vertex(Transition, id, value)]
              case _ => []
  {
    match e
    case PlaceElement(id, value) =>
      assert Vertices([VertexCell(Vertex(Place, id, value))]) == [Vertex(Place, id, value)];
    case TransitionElement(id, value) =>
      assert Vertices([VertexCell(Vertex(Transition, id, value))]) == [Vertex(Transition, id, value)];
    case ArcElement(_, _, _, _) =>
    case OtherNode =>
  }

  predicate IsVertexElement(e: Element, k: Kind) {
    (e.PlaceElement? && k == Place) || (e.TransitionElement? && k == Transition)
  }

  function CountElements(els: seq<Element>, k: Kind): nat {
    if els == [] then 0
    else CountElements(els[..|els| - 1], k) + (if IsVertexElement(els[|els| - 1], k) then 1 else 0)
  }

  function CountKind(vs: seq<Vertex>, k: Kind): nat {
    if vs == [] then 0
    else CountKind(vs[..|vs| - 1], k) + (if vs[|vs| - 1].kind == k then 1 else 0)
  }

  class PetriNetGraph {
    var id: string
    var netType: Option<string>   // None until setType, as the Java field starts null
    var cells: seq<Cell>
    var indexPlaces: nat
    var indexTransitions: nat
    var indexArcs: nat
    var indexInterfaces: nat

    constructor (id: string)
      ensures this.id == id && netType == None && cells == []
      ensures indexPlaces == 0 && indexTransitions == 0 && indexArcs == 0 && indexInterfaces == 0
    {
      this.id := id;
      netType := None;
      cells := [];
      indexPlaces, indexTransitions, indexArcs, indexInterfaces := 0, 0, 0, 0;
    }

    method SetType(netType: string)
      modifies this`netType
      ensures this.netType == Some(netType)
    {
      this.netType := Some(netType);
    }

    // ------------------------------------------------------------------------------------
    // Id generators: each raises only its own counter, by one, and returns the new value
    // behind its letter.

    method NextIndexPlaces() returns (r: string)
      modifies this`indexPlaces
      ensures indexPlaces == old(indexPlaces) + 1
      ensures r == GeneratedId(PLACE_LETTER, indexPlaces)
    {
      indexPlaces := indexPlaces + 1;
      r := GeneratedId(PLACE_LETTER, indexPlaces);
    }

    method NextIndexTransition() returns (r: string)
      modifies this`indexTransitions
      ensures indexTransitions == old(indexTransitions) + 1
      ensures r == GeneratedId(TRANSITION_LETTER, indexTransitions)
    {
      indexTransitions := indexTransitions + 1;
      r := GeneratedId(TRANSITION_LETTER, indexTransitions);
    }

    method NextIndexArcs() returns (r: string)
      modifies this`indexArcs
      ensures indexArcs == old(indexArcs) + 1
      ensures r == GeneratedId(ARC_LETTER, indexArcs)
    {
      indexArcs := indexArcs + 1;
      r := GeneratedId(ARC_LETTER, indexArcs);
    }

    method NextIndexInterfaces() returns (r: string)
      modifies this`indexInterfaces
      ensures indexInterfaces == old(indexInterfaces) + 1
      ensures r == GeneratedId(INTERFACE_LETTER, indexInterfaces)
    {
      indexInterfaces := indexInterfaces + 1;
      r := GeneratedId(INTERFACE_LETTER, indexInterfaces);
    }

    // ------------------------------------------------------------------------------------
    // Mutators

    /** Raw cell insertion (addCell): the cell becomes the last child. */
    method AddCell(c: Cell)
      modifies this`cells
      ensures cells == old(cells) + [c]
    {
      cells := cells + [c];
    }

    /** insertPlace: a missing id is taken from the place counter; the label is the id. */
    method InsertPlace(id: Option<string>) returns (place: Vertex)
      modifies this`cells, this`indexPlaces
      ensures place.kind == Place && place.value == place.id
      ensures id.Some? ==> place.id == id.value && indexPlaces == old(indexPlaces)
      ensures id.None? ==> indexPlaces == old(indexPlaces) + 1 && place.id == GeneratedId(PLACE_LETTER, indexPlaces)
      ensures cells == old(cells) + [VertexCell(place)]
    {
      var vid: string;
      if id.None? {
        vid := NextIndexPlaces();
      } else {
        vid := id.value;
      }
      place := Vertex(Place, vid, vid);
      AddCell(VertexCell(place));
    }

    /** insertTransition: a missing id is taken from the transition counter; the label is the id. */
    method InsertTransition(id: Option<string>) returns (transition: Vertex)
      modifies this`cells, this`indexTransitions
      ensures transition.kind == Transition && transition.value == transition.id
      ensures id.Some? ==> transition.id == id.value && indexTransitions == old(indexTransitions)
      ensures id.None? ==>
                indexTransitions == old(indexTransitions) + 1
                && transition.id == GeneratedId(TRANSITION_LETTER, indexTransitions)
      ensures cells == old(cells) + [VertexCell(transition)]
    {
      var vid: string;
      if id.None? {
        vid := NextIndexTransition();
      } else {
        vid := id.value;
      }
      transition := Vertex(Transition, vid, vid);
      AddCell(VertexCell(transition));
    }

    /**
     * insertArc: one arc from `source` to `target` with an empty label; a missing id is taken
     * from the arc counter. The vertices are unchanged.
     */
    method InsertArc(id: Option<string>, source: Vertex, target: Vertex) returns (arc: Arc)
      requires Bipartite(source.kind, target.kind)
      modifies this`cells, this`indexArcs
      ensures arc.value == "" && arc.source == Some(source.id) && arc.target == Some(target.id)
      ensures id.Some? ==> arc.id == id.value && indexArcs == old(indexArcs)
      ensures id.None? ==> indexArcs == old(indexArcs) + 1 && arc.id == GeneratedId(ARC_LETTER, indexArcs)
      ensures cells == old(cells) + [ArcCell(arc)]
    {
      var aid: string;
      if id.None? {
        aid := NextIndexArcs();
      } else {
        aid := id.value;
      }
      arc := Arc(aid, "", Some(source.id), Some(target.id));
      AddCell(ArcCell(arc));
    }

    // ------------------------------------------------------------------------------------
    // Queries: they change nothing.

    method CollectBoundaryPlaces(b: Boundary) returns (places: seq<Vertex>)
      ensures places == BoundaryPlacesOf(b, Vertices(cells), Arcs(cells))
    {
      var vs, arcs := Vertices(cells), Arcs(cells);
      places := [];
      for i := 0 to |vs|
        invariant places == BoundaryPlacesOf(b, vs[..i], arcs)
      {
        assert vs[..i + 1][..i] == vs[..i];
        if IsBoundaryPlace(b, vs[i], arcs) {
          places := places + [vs[i]];
        }
      }
      assert vs[..|vs|] == vs;
    }

    /** getInitialPlaces: the Places with no incoming and at least one outgoing arc, in store order. */
    method GetInitialPlaces() returns (places: seq<Vertex>)
      ensures places == InitialPlaces(cells)
    {
      places := CollectBoundaryPlaces(Initial);
    }

    /** getFinalPlaces: the Places with no outgoing and at least one incoming arc, in store order. */
    method GetFinalPlaces() returns (places: seq<Vertex>)
      ensures places == FinalPlaces(cells)
    {
      places := CollectBoundaryPlaces(Final);
    }

    method IsSingleInitialPlace() returns (single: bool)
      ensures single <==> |InitialPlaces(cells)| == 1
    {
      var places := GetInitialPlaces();
      single := |places| == 1;
    }

    method IsSingleFinalPlace() returns (single: bool)
      ensures single <==> |FinalPlaces(cells)| == 1
    {
      var places := GetFinalPlaces();
      single := |places| == 1;
    }

    /**
     * getNotConnectedVertices: every Place or Transition other than `target` without a path to
     * it, and every Transition without incoming arcs; never an Interface.
     */
    method GetNotConnectedVertices(target: Vertex) returns (notConnected: set<Vertex>)
      ensures notConnected == NotConnected(cells, target)
      ensures forall v :: v in notConnected ==> v in Vertices(cells) && v.kind != Interface
      ensures forall v :: (v in Vertices(cells) && v.kind == Transition && InDegree(Arcs(cells), v.id) == 0)
                ==> v in notConnected
      ensures forall v :: (v in Vertices(cells) && v.kind != Interface && v.id != target.id
                           && !Reaches(cells, v.id, target.id))
                ==> v in notConnected
    {
      var vs := Vertices(cells);
      notConnected := {};
      for i := 0 to |vs|
        invariant notConnected == set v | v in vs[..i] && Disconnected(cells, v, target)
      {
        var cell := vs[i];
        if cell.id != target.id {
          // the path search of the graph library, of which only the existence of a path is used
          var hasPath := Reaches(cells, cell.id, target.id);
          if !hasPath && (cell.kind == Transition || cell.kind == Place) {
            notConnected := notConnected + {cell};
          }
        }
        if cell.kind == Transition && InDegree(Arcs(cells), cell.id) == 0 {
          notConnected := notConnected + {cell};
        }
        assert vs[..i + 1] == vs[..i] + [cell];
      }
      assert vs[..|vs|] == vs;
    }

    /** isWorkflowStronglyConnected: one initial place, one final place, nothing not connected to it. */
    method IsWorkflowStronglyConnected() returns (connected: bool)
      ensures connected == WorkflowStronglyConnected(cells)
    {
      var singleInitial := IsSingleInitialPlace();
      var singleFinal := IsSingleFinalPlace();
      if !singleInitial || !singleFinal {
        return false;
      }
      var finals := GetFinalPlaces();
      var notConnected := GetNotConnectedVertices(finals[0]);
      connected := notConnected == {};
    }

    /** isWorkFlow: the same value as isWorkflowStronglyConnected. */
    method IsWorkFlow() returns (workflow: bool)
      ensures workflow == WorkflowStronglyConnected(cells)
    {
      workflow := IsWorkflowStronglyConnected();
    }

    /** getVertexById: the first vertex in store order with the id, or none. */
    method GetVertexById(id: string) returns (found: Option<Vertex>)
      ensures found == VertexById(cells, id)
      ensures found.Some? ==> found.value in Vertices(cells) && found.value.id == id
      ensures found.None? <==> !HasVertexId(Vertices(cells), id)
    {
      VertexByIdFound(cells, id);
      var vs := Vertices(cells);
      for i := 0 to |vs|
        invariant forall j :: 0 <= j < i ==> vs[j].id != id
      {
        if vs[i].id == id {
          return Some(vs[i]);
        }
      }
      return None;
    }

    // ------------------------------------------------------------------------------------
    // Import

    /** One child of the factory loop: add its cell and advance the matching counter. */
    method ImportChild(e: Element)
      modifies this`cells, this`indexPlaces, this`indexTransitions
      ensures cells == old(cells) + ImportElement(old(cells), e)
      ensures indexPlaces == old(indexPlaces) + (if IsVertexElement(e, Place) then 1 else 0)
      ensures indexTransitions == old(indexTransitions) + (if IsVertexElement(e, Transition) then 1 else 0)
    {
      match e
      case PlaceElement(pid, value) =>
        AddCell(VertexCell(Vertex(Place, pid, value)));
        var _ := NextIndexPlaces();
      case TransitionElement(tid, value) =>
        AddCell(VertexCell(Vertex(Transition, tid, value)));
        var _ := NextIndexTransition();
      case ArcElement(aid, value, s, t) =>
        var source := GetVertexById(s);
        var target := GetVertexById(t);
        AddCell(ArcCell(Arc(aid, value, TerminalOf(source), TerminalOf(target))));
      case OtherNode =>
    }

    /** The factory loop: every child in document order, on a graph that is still empty. */
    method ImportChildren(els: seq<Element>)
      requires cells == [] && indexPlaces == 0 && indexTransitions == 0
      modifies this`cells, this`indexPlaces, this`indexTransitions
      ensures cells == ImportCells(els)
      ensures indexPlaces == CountElements(els, Place)
      ensures indexTransitions == CountElements(els, Transition)
    {
      for i := 0 to |els|
        invariant cells == ImportCells(els[..i])
        invariant indexPlaces == CountElements(els[..i], Place)
        invariant indexTransitions == CountElements(els[..i], Transition)
      {
        ImportStep(els, i);
        ImportChild(els[i]);
      }
      assert els[..|els|] == els;
    }

    /**
     * factory: builds a graph from a pnml `net` element. The id falls back to `defaultId`, the
     * place and transition counters advance once per imported place and transition, and each
     * arc's terminals are looked up among the vertices imported before it.
     */
    static method Factory(dom: NetElement, defaultId: string) returns (graph: PetriNetGraph)
      ensures fresh(graph)
      ensures graph.id == NetId(dom.id, defaultId) && graph.netType == Some(Trim(dom.netType))
      ensures graph.cells == ImportCells(dom.children)
      ensures graph.indexPlaces == CountElements(dom.children, Place)
      ensures graph.indexTransitions == CountElements(dom.children, Transition)
      ensures graph.indexArcs == 0 && graph.indexInterfaces == 0
    {
      graph := new PetriNetGraph(NetId(dom.id, defaultId));
      graph.SetType(Trim(dom.netType));
      graph.ImportChildren(dom.children);
    }

    /**
     * Raises each counter to at least the largest counter value behind a generated-looking id
     * of its kind in the graph, so that the generators cannot hand out an id already in use.
     */
    method SyncCounters()
      modifies this`indexPlaces, this`indexTransitions, this`indexArcs, this`indexInterfaces
      ensures indexPlaces == MaxNat(old(indexPlaces), MaxVertexIndex(Vertices(cells), PLACE_LETTER))
      ensures indexTransitions == MaxNat(old(indexTransitions), MaxVertexIndex(Vertices(cells), TRANSITION_LETTER))
      ensures indexArcs == MaxNat(old(indexArcs), MaxArcIndex(Arcs(cells), ARC_LETTER))
      ensures indexInterfaces == MaxNat(old(indexInterfaces), MaxVertexIndex(Vertices(cells), INTERFACE_LETTER))
      ensures CountersAhead(cells, indexPlaces, indexTransitions, indexArcs, indexInterfaces)
    {
      var vs, arcs := Vertices(cells), Arcs(cells);
      indexPlaces := MaxNat(indexPlaces, MaxVertexIndex(vs, PLACE_LETTER));
      indexTransitions := MaxNat(indexTransitions, MaxVertexIndex(vs, TRANSITION_LETTER));
      indexArcs := MaxNat(indexArcs, MaxArcIndex(arcs, ARC_LETTER));
      indexInterfaces := MaxNat(indexInterfaces, MaxVertexIndex(vs, INTERFACE_LETTER));
      SyncedCountersAhead(cells, indexPlaces, indexTransitions, indexArcs, indexInterfaces);
    }

    /**
     * The factory with its counters synchronised by id rather than by count: the same graph,
     * with every counter ahead of the imported ids it could otherwise repeat.
     */
    static method SyncedFactory(dom: NetElement, defaultId: string) returns (graph: PetriNetGraph)
      ensures fresh(graph)
      ensures graph.id == NetId(dom.id, defaultId) && graph.netType == Some(Trim(dom.netType))
      ensures graph.cells == ImportCells(dom.children)
      ensures graph.indexPlaces >= CountElements(dom.children, Place)
      ensures graph.indexTransitions >= CountElements(dom.children, Transition)
      ensures CountersAhead(graph.cells, graph.indexPlaces, graph.indexTransitions, graph.indexArcs, graph.indexInterfaces)
    {
      graph := Factory(dom, defaultId);
      graph.SyncCounters();
    }
  }

  // ---------------------------------------------------------------------------------------
  // What the counters guarantee

  function MaxNat(x: nat, y: nat): (m: nat)
    ensures m >= x && m >= y && (m == x || m == y)
  {
    if x >= y then x else y
  }

  /** The largest counter value behind a generated-looking id with `letter` among the vertices. */
  function MaxVertexIndex(vs: seq<Vertex>, letter: char): (m: nat)
    ensures forall v :: v in vs ==> GeneratedIndex(letter, v.id) <= m
  {
    if vs == [] then 0 else MaxNat(GeneratedIndex(letter, vs[0].id), MaxVertexIndex(vs[1..], letter))
  }

  /** The largest counter value behind a generated-looking id with `letter` among the arcs. */
  function MaxArcIndex(arcs: seq<Arc>, letter: char): (m: nat)
    ensures forall a :: a in arcs ==> GeneratedIndex(letter, a.id) <= m
  {
    if arcs == [] then 0 else MaxNat(GeneratedIndex(letter, arcs[0].id), MaxArcIndex(arcs[1..], letter))
  }

  /** Counters at or above the largest generated-looking id of their kind are ahead of the graph. */
  lemma SyncedCountersAhead(cs: seq<Cell>, p: nat, t: nat, a: nat, i: nat)
    requires p >= MaxVertexIndex(Vertices(cs), PLACE_LETTER)
    requires t >= MaxVertexIndex(Vertices(cs), TRANSITION_LETTER)
    requires a >= MaxArcIndex(Arcs(cs), ARC_LETTER)
    requires i >= MaxVertexIndex(Vertices(cs), INTERFACE_LETTER)
    ensures CountersAhead(cs, p, t, a, i)
  {
    forall v, k: nat | v in Vertices(cs) && v.id == GeneratedId(PLACE_LETTER, k)
      ensures k <= p
    {
      GeneratedIndexOf(PLACE_LETTER, k);
    }
    forall v, k: nat | v in Vertices(cs) && v.id == GeneratedId(TRANSITION_LETTER, k)
      ensures k <= t
    {
      GeneratedIndexOf(TRANSITION_LETTER, k);
    }
    forall v, k: nat | v in Vertices(cs) && v.id == GeneratedId(INTERFACE_LETTER, k)
      ensures k <= i
    {
      GeneratedIndexOf(INTERFACE_LETTER, k);
    }
    forall c, k: nat | c in Arcs(cs) && c.id == GeneratedId(ARC_LETTER, k)
      ensures k <= a
    {
      GeneratedIndexOf(ARC_LETTER, k);
    }
  }

  /**
   * The factory synchronises the place counter with the number of imported places, not with
   * their ids: a net whose only place is "p2" leaves the counter at 1, so the next generated
   * place id is "p2" again and the counters are not ahead of the graph.
   */
  lemma FactoryCountersBehind()
    ensures var els := [PlaceElement("p2", "p2")];
            && CountElements(els, Place) == 1
            && HasVertexId(Vertices(ImportCells(els)), GeneratedId(PLACE_LETTER, CountElements(els, Place) + 1))
            && !CountersAhead(ImportCells(els), CountElements(els, Place), 0, 0, 0)
  {
    var els := [PlaceElement("p2", "p2")];
    var v := Vertex(Place, "p2", "p2");
    ImportOnePlace("p2");
    PlaceTwoIsGenerated();
    assert v in Vertices(ImportCells(els)) && v.id == GeneratedId(PLACE_LETTER, 2);
  }

  /** Importing a single place element gives that place and a place count of one. */
  lemma ImportOnePlace(id: string)
    ensures ImportCells([PlaceElement(id, id)]) == [VertexCell(Vertex(Place, id, id))]
    ensures Vertices(ImportCells([PlaceElement(id, id)])) == [Vertex(Place, id, id)]
    ensures CountElements([PlaceElement(id, id)], Place) == 1
  {
    var els := [PlaceElement(id, id)];
    assert els[..0] == [];
    var c := VertexCell(Vertex(Place, id, id));
    assert [c][..0] == [];
  }

  /** "p2" is the id the place generator produces at counter value 2. */
  lemma PlaceTwoIsGenerated()
    ensures GeneratedId(PLACE_LETTER, 2) == "p2"
  {
    assert NatToString(2) == ['2'];
  }

  /**
   * A place inserted with a generated id gets an id no vertex has yet, and the store keeps
   * unique vertex ids and counters ahead of every generated-looking id.
   */
  lemma GeneratedPlaceIsFresh(cs: seq<Cell>, p: nat, t: nat, a: nat, i: nat)
    requires UniqueIds(cs) && CountersAhead(cs, p, t, a, i)
    ensures !HasVertexId(Vertices(cs), GeneratedId(PLACE_LETTER, p + 1))
    ensures var id := GeneratedId(PLACE_LETTER, p + 1);
            var cs' := cs + [VertexCell(Vertex(Place, id, id))];
            UniqueIds(cs') && CountersAhead(cs', p + 1, t, a, i)
  {
    GeneratedVertexIsFresh(cs, Place, PLACE_LETTER, p, p, t, a, i);
  }

  /** The same for a transition inserted with a generated id. */
  lemma GeneratedTransitionIsFresh(cs: seq<Cell>, p: nat, t: nat, a: nat, i: nat)
    requires UniqueIds(cs) && CountersAhead(cs, p, t, a, i)
    ensures !HasVertexId(Vertices(cs), GeneratedId(TRANSITION_LETTER, t + 1))
    ensures var id := GeneratedId(TRANSITION_LETTER, t + 1);
            var cs' := cs + [VertexCell(Vertex(Transition, id, id))];
            UniqueIds(cs') && CountersAhead(cs', p, t + 1, a, i)
  {
    GeneratedVertexIsFresh(cs, Transition, TRANSITION_LETTER, t, p, t, a, i);
  }

  lemma GeneratedVertexIsFresh(cs: seq<Cell>, kind: Kind, letter: char, n: nat, p: nat, t: nat, a: nat, i: nat)
    requires UniqueIds(cs) && CountersAhead(cs, p, t, a, i)
    requires (kind == Place && letter == PLACE_LETTER && n == p)
             || (kind == Transition && letter == TRANSITION_LETTER && n == t)
    ensures !HasVertexId(Vertices(cs), GeneratedId(letter, n + 1))
    ensures var id := GeneratedId(letter, n + 1);
            var cs' := cs + [VertexCell(Vertex(kind, id, id))];
            UniqueIds(cs')
            && CountersAhead(cs', if kind == Place then p + 1 else p, if kind == Transition then t + 1 else t, a, i)
  {
    var id := GeneratedId(letter, n + 1);
    var nv := Vertex(kind, id, id);
    var cs' := cs + [VertexCell(nv)];
    VerticesAppend(cs, [VertexCell(nv)]);
    ArcsAppend(cs, [VertexCell(nv)]);
    assert Vertices([VertexCell(nv)]) == [nv];
    assert Arcs([VertexCell(nv)]) == [];
    var vs := Vertices(cs);
    assert Vertices(cs') == vs + [nv];
    assert !HasVertexId(vs, id);
    forall k: nat, c: char | GeneratedId(c, k) == id
      ensures c == letter && k == n + 1
    {
      GeneratedIdsDistinct(c, k, letter, n + 1);
    }
  }

  /** An arc inserted with a generated id leaves the vertices alone and keeps the counters ahead. */
  lemma GeneratedArcIsFresh(cs: seq<Cell>, p: nat, t: nat, a: nat, i: nat, source: Vertex, target: Vertex)
    requires UniqueIds(cs) && CountersAhead(cs, p, t, a, i)
    ensures forall x :: x in Arcs(cs) ==> x.id != GeneratedId(ARC_LETTER, a + 1)
    ensures var cs' := cs + [ArcCell(Arc(GeneratedId(ARC_LETTER, a + 1), "", Some(source.id), Some(target.id)))];
            UniqueIds(cs') && CountersAhead(cs', p, t, a + 1, i)
  {
    var na := Arc(GeneratedId(ARC_LETTER, a + 1), "", Some(source.id), Some(target.id));
    var cs' := cs + [ArcCell(na)];
    VerticesAppend(cs, [ArcCell(na)]);
    ArcsAppend(cs, [ArcCell(na)]);
    assert Vertices([ArcCell(na)]) == [];
    assert Arcs([ArcCell(na)]) == [na];
    assert Vertices(cs') == Vertices(cs);
    forall k: nat | GeneratedId(ARC_LETTER, k) == na.id
      ensures k == a + 1
    {
      GeneratedIdsDistinct(ARC_LETTER, k, ARC_LETTER, a + 1);
    }
  }

  // ---------------------------------------------------------------------------------------
  // What the import guarantees

  /** The place (transition) counter of an imported graph equals its number of places (transitions). */
  lemma {:induction false} ImportCountsMatch(els: seq<Element>, k: Kind)
    ensures CountElements(els, k) == CountKind(Vertices(ImportCells(els)), k)
  {
    if els != [] {
      var init := els[..|els| - 1];
      ImportCountsMatch(init, k);
      var prev := ImportCells(init);
      var last := els[|els| - 1];
      var added := ImportElement(prev, last);
      assert ImportCells(els) == prev + added;
      VerticesAppend(prev, added);
      CountKindAppend(Vertices(prev), Vertices(added), k);
      ElementCount(prev, last, k);
    }
  }

  lemma ElementCount(prev: seq<Cell>, e: Element, k: Kind)
    ensures CountKind(Vertices(ImportElement(prev, e)), k) == if IsVertexElement(e, k) then 1 else 0
  {
    ImportElementVertices(prev, e);
    if e.PlaceElement? || e.TransitionElement? {
      var v := Vertices(ImportElement(prev, e))[0];
      assert [v][..0] == [];
    }
  }

  lemma {:induction false} CountKindAppend(vs: seq<Vertex>, ws: seq<Vertex>, k: Kind)
    ensures CountKind(vs + ws, k) == CountKind(vs, k) + CountKind(ws, k)
  {
    if ws != [] {
      assert (vs + ws)[..|vs + ws| - 1] == vs + ws[..|ws| - 1];
      CountKindAppend(vs, ws[..|ws| - 1], k);
    } else {
      assert vs + ws == vs;
    }
  }

  /** Every element position at which an arc references only ids of vertices imported before it. */
  predicate ArcsReferenceEarlier(els: seq<Element>) {
    forall j :: 0 <= j < |els| && els[j].ArcElement? ==>
      && HasVertexId(Vertices(ImportCells(els[..j])), els[j].sourceId)
      && HasVertexId(Vertices(ImportCells(els[..j])), els[j].targetId)
  }

  /**
   * When every arc element comes after the vertices it references, every imported arc has
   * both terminals set to vertices imported before it.
   */
  lemma {:induction false} ImportIsOrdered(els: seq<Element>)
    requires ArcsReferenceEarlier(els)
    ensures Ordered(ImportCells(els))
  {
    if els != [] {
      var init := els[..|els| - 1];
      assert forall j :: 0 <= j < |init| ==> init[..j] == els[..j];
      ImportIsOrdered(init);
      var prev := ImportCells(init);
      var last := els[|els| - 1];
      assert els[..|els| - 1] == init;
      match last
      case ArcElement(id, value, s, t) =>
        VertexByIdFound(prev, s);
        VertexByIdFound(prev, t);
        var cs := ImportCells(els);
        assert cs[..|cs| - 1] == prev;
      case PlaceElement(_, _) =>
        var cs := ImportCells(els);
        assert cs[..|cs| - 1] == prev;
      case TransitionElement(_, _) =>
        var cs := ImportCells(els);
        assert cs[..|cs| - 1] == prev;
      case OtherNode =>
        assert ImportCells(els) == prev;
    }
  }
}
