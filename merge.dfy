/**
 * MergeGraphsOperation: clones every cell of every input graph, in list order and child order,
 * into the output graph. Input i (counting from 0) is cloned under the prefix `prefix(i + 1)`:
 * vertex and arc ids get the prefix in front, and an arc's terminals are looked up in the output
 * graph under the prefixed ids of its input terminals.
 */
module Merge {
  import opened Wrappers
  import opened Ids
  import opened Net
  import opened Graph
  import opened Renaming

  /** Every arc of the store has both terminals set; the clone reads the id of each terminal. */
  predicate Terminated(cs: seq<Cell>) {
    forall c :: c in cs && c.ArcCell? ==> c.arc.source.Some? && c.arc.target.Some?
  }

  /**
   * The clone of one input cell under prefix `p`, made when the output holds `out`: a vertex
   * keeps its kind and label under the prefixed id; an arc gets the prefixed id, its label, and
   * as terminals the output vertices found under the prefixed terminal ids (none if not found).
   */
  function CloneCell(out: seq<Cell>, p: string, c: Cell): Cell
    requires c.ArcCell? ==> c.arc.source.Some? && c.arc.target.Some?
  {
    match c
    case VertexCell(v) => VertexCell(RenameVertex(p, v))
    case ArcCell(a) =>
      ArcCell(Arc(p + a.id, a.value,
                  TerminalOf(VertexById(out, p + a.source.value)),
                  TerminalOf(VertexById(out, p + a.target.value))))
  }

  /** The cells that cloning `cs` in child order adds to an output that holds `out`: one per cell. */
  function CloneCells(out: seq<Cell>, p: string, cs: seq<Cell>): (r: seq<Cell>)
    requires Terminated(cs)
    ensures |r| == |cs|
  {
    if cs == [] then []
    else
      var prev := CloneCells(out, p, cs[..|cs| - 1]);
      prev + [CloneCell(out + prev, p, cs[|cs| - 1])]
  }

  function TotalCells(inputs: seq<seq<Cell>>): nat {
    if inputs == [] then 0 else TotalCells(inputs[..|inputs| - 1]) + |inputs[|inputs| - 1]|
  }

  predicate AllTerminated(inputs: seq<seq<Cell>>) {
    forall i :: 0 <= i < |inputs| ==> Terminated(inputs[i])
  }

  /**
   * The output after the merge: `out` followed, input by input, by the clones of its cells.
   * Exactly one cell is added per input cell and the cells already there stay in place.
   */
  function MergeAll(out: seq<Cell>, inputs: seq<seq<Cell>>, prefix: nat -> string): (r: seq<Cell>)
    requires AllTerminated(inputs)
    ensures |r| == |out| + TotalCells(inputs)
    ensures r[..|out|] == out
  {
    if inputs == [] then out
    else
      var prev := MergeAll(out, inputs[..|inputs| - 1], prefix);
      prev + CloneCells(prev, prefix(|inputs|), inputs[|inputs| - 1])
  }

  /** The cells the merge adds for input `i`. */
  function Part(out: seq<Cell>, inputs: seq<seq<Cell>>, prefix: nat -> string, i: nat): seq<Cell>
    requires AllTerminated(inputs) && i < |inputs|
  {
    CloneCells(MergeAll(out, inputs[..i], prefix), prefix(i + 1), inputs[i])
  }

  /** The current cells of the given graphs, in list order. */
  function CellsOf(gs: seq<PetriNetGraph>): seq<seq<Cell>>
    reads set g | g in gs
  {
    if gs == [] then [] else CellsOf(gs[..|gs| - 1]) + [gs[|gs| - 1].cells]
  }

  // ---------------------------------------------------------------------------------------
  // Unfolding steps used by the loops

  lemma CloneStep(out: seq<Cell>, p: string, cs: seq<Cell>, j: nat)
    requires Terminated(cs) && j < |cs|
    ensures CloneCells(out, p, cs[..j + 1])
            == CloneCells(out, p, cs[..j]) + [CloneCell(out + CloneCells(out, p, cs[..j]), p, cs[j])]
  {
    assert cs[..j + 1][..j] == cs[..j];
  }

  lemma MergeStep(out: seq<Cell>, inputs: seq<seq<Cell>>, prefix: nat -> string, i: nat)
    requires AllTerminated(inputs) && i < |inputs|
    ensures MergeAll(out, inputs[..i + 1], prefix) == MergeAll(out, inputs[..i], prefix) + Part(out, inputs, prefix, i)
  {
    assert inputs[..i + 1][..i] == inputs[..i];
  }

  lemma {:induction false} CellsOfIndex(gs: seq<PetriNetGraph>)
    ensures |CellsOf(gs)| == |gs|
    ensures forall i :: 0 <= i < |gs| ==> CellsOf(gs)[i] == gs[i].cells
  {
    if gs != [] {
      CellsOfIndex(gs[..|gs| - 1]);
    }
  }

  // ---------------------------------------------------------------------------------------
  // What one clone pass adds

  /** Cloning a prefix of the cells gives the same prefix of the clones. */
  lemma {:induction false} CloneCellsPrefix(out: seq<Cell>, p: string, cs: seq<Cell>, k: nat)
    requires Terminated(cs) && k <= |cs|
    ensures CloneCells(out, p, cs[..k]) == CloneCells(out, p, cs)[..k]
  {
    if k == |cs| {
      assert cs[..k] == cs;
    } else {
      var init := cs[..|cs| - 1];
      CloneCellsPrefix(out, p, init, k);
      assert init[..k] == cs[..k];
    }
  }

  /** The vertices the clone adds are the input's vertices renamed, whatever the output held. */
  lemma {:induction false} ClonedVertices(out: seq<Cell>, p: string, cs: seq<Cell>)
    requires Terminated(cs)
    ensures Vertices(CloneCells(out, p, cs)) == RenameVertices(p, Vertices(cs))
  {
    if cs != [] {
      var init, last := cs[..|cs| - 1], cs[|cs| - 1];
      ClonedVertices(out, p, init);
      var prev := CloneCells(out, p, init);
      var added := CloneCell(out + prev, p, last);
      assert CloneCells(out, p, cs) == prev + [added];
      AppendCell(prev, added);
      var tail := if last.VertexCell? then [last.vertex] else [];
      assert Vertices(cs) == Vertices(init) + tail;
      RenameVerticesAppend(p, Vertices(init), tail);
    }
  }

  /**
   * The clone of the arc at position `k` has the prefixed id and the same label, and each
   * terminal is set exactly when a vertex with the prefixed terminal id is in the output by then:
   * one that was there before the merge or the clone of a vertex of the input that comes
   * before the arc. A set terminal is that prefixed id.
   */
  lemma ClonedArc(out: seq<Cell>, p: string, cs: seq<Cell>, k: nat)
    requires Terminated(cs) && k < |cs| && cs[k].ArcCell?
    ensures var a, c := cs[k].arc, CloneCells(out, p, cs)[k];
            var seen := Vertices(out) + RenameVertices(p, Vertices(cs[..k]));
            && c.ArcCell? && c.arc.id == p + a.id && c.arc.value == a.value
            && ResolvesTo(c.arc.source, seen, p + a.source.value)
            && ResolvesTo(c.arc.target, seen, p + a.target.value)
  {
    var a := cs[k].arc;
    assert cs[k] in cs;
    var before := CloneCells(out, p, cs[..k]);
    var clone := CloneCell(out + before, p, cs[k]);
    var whole := CloneCells(out, p, cs);
    CloneCellsPrefix(out, p, cs, k + 1);
    CloneStep(out, p, cs, k);
    assert whole[..k + 1] == before + [clone];
    assert whole[k] == (before + [clone])[k];
    ClonedVertices(out, p, cs[..k]);
    VerticesAppend(out, before);
    LookupResolves(out + before, p + a.source.value);
    LookupResolves(out + before, p + a.target.value);
  }

  /** A terminal is set exactly when a vertex with the id is among `seen`, and then it is that id. */
  predicate ResolvesTo(t: Option<string>, seen: seq<Vertex>, id: string) {
    (t.Some? <==> HasVertexId(seen, id)) && (t.Some? ==> t.value == id)
  }

  lemma LookupResolves(cs: seq<Cell>, id: string)
    ensures ResolvesTo(TerminalOf(VertexById(cs, id)), Vertices(cs), id)
  {
    VertexByIdFound(cs, id);
  }

  lemma {:induction false} OrderedIsTerminated(cs: seq<Cell>)
    requires Ordered(cs)
    ensures Terminated(cs)
  {
    if cs != [] {
      OrderedIsTerminated(cs[..|cs| - 1]);
      assert cs == cs[..|cs| - 1] + [cs[|cs| - 1]];
    }
  }

  /**
   * When every arc of the input comes after the vertices it joins, every terminal resolves, to
   * the clone of the input terminal: the clone is the input renamed, whatever the output held.
   */
  lemma {:induction false} OrderedCloneIsRenaming(out: seq<Cell>, p: string, cs: seq<Cell>)
    requires Ordered(cs)
    ensures Terminated(cs)
    ensures CloneCells(out, p, cs) == RenameCells(p, cs)
  {
    OrderedIsTerminated(cs);
    if cs != [] {
      var init, last := cs[..|cs| - 1], cs[|cs| - 1];
      OrderedCloneIsRenaming(out, p, init);
      var prev := CloneCells(out, p, init);
      assert CloneCells(out, p, cs) == prev + [CloneCell(out + prev, p, last)];
      if last.ArcCell? {
        AttachedArcClone(out, p, init, last.arc);
      }
      assert CloneCell(out + prev, p, last) == RenameCell(p, last);
      RenameCellsAppend(p, init, [last]);
      assert init + [last] == cs;
    }
  }

  /** An arc attached to vertices cloned before it is cloned with the prefixed terminal ids. */
  lemma AttachedArcClone(out: seq<Cell>, p: string, init: seq<Cell>, a: Arc)
    requires Attached(a, Vertices(init))
    ensures CloneCell(out + RenameCells(p, init), p, ArcCell(a)) == ArcCell(RenameArc(p, a))
  {
    var prev := RenameCells(p, init);
    RenamedParts(p, init);
    VerticesAppend(out, prev);
    AttachedTerminal(out, p, init, a.source.value);
    AttachedTerminal(out, p, init, a.target.value);
  }

  /** A vertex id of the input is found, prefixed, once the input's vertices are cloned. */
  lemma AttachedTerminal(out: seq<Cell>, p: string, init: seq<Cell>, x: string)
    requires HasVertexId(Vertices(init), x)
    requires Vertices(out + RenameCells(p, init)) == Vertices(out) + RenameVertices(p, Vertices(init))
    ensures TerminalOf(VertexById(out + RenameCells(p, init), p + x)) == Some(p + x)
  {
    var vs := Vertices(init);
    var v :| v in vs && v.id == x;
    var i :| 0 <= i < |vs| && vs[i] == v;
    var all := out + RenameCells(p, init);
    assert Vertices(all)[|Vertices(out)| + i] == RenameVertex(p, v);
    VertexByIdFound(all, p + x);
  }

  /** Every id the clone produces, and every terminal it sets, starts with the prefix. */
  lemma {:induction false} ClonedIdsCarryPrefix(out: seq<Cell>, p: string, cs: seq<Cell>)
    requires Terminated(cs)
    ensures forall v :: v in Vertices(CloneCells(out, p, cs)) ==> p <= v.id
    ensures forall a :: a in Arcs(CloneCells(out, p, cs)) ==>
              && p <= a.id
              && (a.source.Some? ==> p <= a.source.value)
              && (a.target.Some? ==> p <= a.target.value)
  {
    if cs != [] {
      var init := cs[..|cs| - 1];
      ClonedIdsCarryPrefix(out, p, init);
      var prev := CloneCells(out, p, init);
      var added := CloneCell(out + prev, p, cs[|cs| - 1]);
      VerticesAppend(prev, [added]);
      ArcsAppend(prev, [added]);
      if cs[|cs| - 1].ArcCell? {
        var a := cs[|cs| - 1].arc;
        assert cs[|cs| - 1] in cs;
        VertexByIdFound(out + prev, p + a.source.value);
        VertexByIdFound(out + prev, p + a.target.value);
      }
    }
  }

  // ---------------------------------------------------------------------------------------
  // What the whole merge guarantees

  /**
   * With prefix-free prefixes, no arc the merge adds for one input has a terminal at a vertex
   * it adds for another input.
   */
  lemma NoCrossInputArcs(out: seq<Cell>, inputs: seq<seq<Cell>>, prefix: nat -> string, i: nat, j: nat)
    requires PrefixFree(prefix)
    requires AllTerminated(inputs) && i < |inputs| && j < |inputs| && i != j
    ensures forall a, v :: a in Arcs(Part(out, inputs, prefix, i)) && v in Vertices(Part(out, inputs, prefix, j))
              ==> a.source != Some(v.id) && a.target != Some(v.id)
  {
    ClonedIdsCarryPrefix(MergeAll(out, inputs[..i], prefix), prefix(i + 1), inputs[i]);
    ClonedIdsCarryPrefix(MergeAll(out, inputs[..j], prefix), prefix(j + 1), inputs[j]);
    forall a, v | a in Arcs(Part(out, inputs, prefix, i)) && v in Vertices(Part(out, inputs, prefix, j))
      ensures a.source != Some(v.id) && a.target != Some(v.id)
    {
      if a.source == Some(v.id) || a.target == Some(v.id) {
        PrefixesAreComparable(prefix(i + 1), prefix(j + 1), v.id);
        assert false;
      }
    }
  }

  /**
   * With a single input whose arcs come after their vertices, the merge appends the input with
   * every id prefixed: the same number of vertices and arcs, the same kinds and labels, the
   * same degrees and paths between the prefixed ids, and it is a workflow net exactly when
   * the input is one.
   */
  lemma SingleInputIsRenaming(cs: seq<Cell>, prefix: nat -> string)
    requires Ordered(cs)
    ensures AllTerminated([cs])
    ensures MergeAll([], [cs], prefix) == RenameCells(prefix(1), cs)
    ensures var m := MergeAll([], [cs], prefix);
            && |Vertices(m)| == |Vertices(cs)| && |Arcs(m)| == |Arcs(cs)|
            && (forall k :: 0 <= k < |Vertices(cs)| ==>
                  Vertices(m)[k].kind == Vertices(cs)[k].kind && Vertices(m)[k].value == Vertices(cs)[k].value
                  && Vertices(m)[k].id == prefix(1) + Vertices(cs)[k].id)
            && (forall x :: InDegree(Arcs(m), prefix(1) + x) == InDegree(Arcs(cs), x)
                            && OutDegree(Arcs(m), prefix(1) + x) == OutDegree(Arcs(cs), x))
            && (forall x, y, k: nat :: ReachesWithin(Arcs(m), prefix(1) + x, prefix(1) + y, k) <==> ReachesWithin(Arcs(cs), x, y, k))
            && WorkflowStronglyConnected(m) == WorkflowStronglyConnected(cs)
  {
    var p := prefix(1);
    OrderedCloneIsRenaming([], p, cs);
    assert [cs][..0] == [];
    var m := MergeAll([], [cs], prefix);
    assert m == [] + CloneCells([], p, cs);
    assert m == RenameCells(p, cs);
    RenamedParts(p, cs);
    forall x
      ensures InDegree(Arcs(m), p + x) == InDegree(Arcs(cs), x) && OutDegree(Arcs(m), p + x) == OutDegree(Arcs(cs), x)
    {
      RenamedDegrees(p, Arcs(cs), x);
    }
    forall x, y, k: nat
      ensures ReachesWithin(Arcs(m), p + x, p + y, k) <==> ReachesWithin(Arcs(cs), x, y, k)
    {
      RenamedReaches(p, Arcs(cs), x, y, k);
    }
    RenamingPreservesWorkflow(p, cs);
  }

  // ---------------------------------------------------------------------------------------
  // The operation

  class MergeGraphsOperation {
    const operationGraph: PetriNetGraph
    const inputGraphs: seq<PetriNetGraph>
    /** The prefix of the k-th input (the base class's getPrefix). */
    const prefix: nat -> string

    /**
     * Stores a copy of the input list and runs the merge at once. The output graph must not
     * be one of the inputs; every input arc must have both terminals set.
     */
    constructor (operationGraph: PetriNetGraph, inputGraphs: seq<PetriNetGraph>, prefix: nat -> string)
      requires operationGraph !in inputGraphs
      requires forall g :: g in inputGraphs ==> Terminated(g.cells)
      modifies operationGraph`cells
      ensures this.operationGraph == operationGraph && this.inputGraphs == inputGraphs && this.prefix == prefix
      ensures AllTerminated(CellsOf(inputGraphs))
      ensures operationGraph.cells == MergeAll(old(operationGraph.cells), CellsOf(inputGraphs), prefix)
    {
      this.operationGraph := operationGraph;
      this.inputGraphs := inputGraphs;
      this.prefix := prefix;
      new;
      Process();
    }

    /**
     * The body of the inner loop of process: the clone of one input cell, made against the
     * output as it stands, becomes the output's last cell.
     */
    method AddClone(p: string, c: Cell)
      requires c.ArcCell? ==> c.arc.source.Some? && c.arc.target.Some?
      modifies operationGraph`cells
      ensures operationGraph.cells == old(operationGraph.cells) + [CloneCell(old(operationGraph.cells), p, c)]
    {
      var clone: Cell;
      match c {
        case VertexCell(v) =>
          clone := VertexCell(Vertex(v.kind, p + v.id, v.value));
        case ArcCell(a) =>
          var source := operationGraph.GetVertexById(p + a.source.value);
          var target := operationGraph.GetVertexById(p + a.target.value);
          clone := ArcCell(Arc(p + a.id, a.value, TerminalOf(source), TerminalOf(target)));
      }
      operationGraph.AddCell(clone);
    }

    /**
     * process: for each input in list order and each of its cells in child order, one clone is
     * added to the output graph. Only the output's cells change: the inputs are only read and
     * the output's id counters do not move.
     */
    method Process()
      requires operationGraph !in inputGraphs
      requires forall g :: g in inputGraphs ==> Terminated(g.cells)
      modifies operationGraph`cells
      ensures AllTerminated(CellsOf(inputGraphs))
      ensures operationGraph.cells == MergeAll(old(operationGraph.cells), CellsOf(inputGraphs), prefix)
      ensures operationGraph.indexPlaces == old(operationGraph.indexPlaces)
      ensures operationGraph.indexTransitions == old(operationGraph.indexTransitions)
      ensures operationGraph.indexArcs == old(operationGraph.indexArcs)
      ensures operationGraph.indexInterfaces == old(operationGraph.indexInterfaces)
    {
      ghost var out := operationGraph.cells;
      ghost var inputs := CellsOf(inputGraphs);
      CellsOfIndex(inputGraphs);
      assert AllTerminated(inputs) by {
        forall i | 0 <= i < |inputs|
          ensures Terminated(inputs[i])
        {
          assert inputGraphs[i] in inputGraphs;
        }
      }
      for i := 0 to |inputGraphs|
        invariant operationGraph.cells == MergeAll(out, inputs[..i], prefix)
      {
        var net := inputGraphs[i];
        var p := prefix(i + 1);
        var cs := net.cells;
        assert cs == inputs[i];
        ghost var base := operationGraph.cells;
        for j := 0 to |cs|
          invariant operationGraph.cells == base + CloneCells(base, p, cs[..j])
        {
          CloneStep(base, p, cs, j);
          assert cs[j] in cs;
          AddClone(p, cs[j]);
        }
        assert cs[..|cs|] == cs;
        MergeStep(out, inputs, prefix, i);
      }
      assert inputs[..|inputs|] == inputs;
    }
  }
}
