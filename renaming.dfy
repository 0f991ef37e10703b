/**
 * Renaming a net by a prefix: every vertex id, arc id and arc terminal gets the prefix in
 * front, kinds and labels stay. It is what the merge builds from an input whose arcs come after
 * their vertices, and it keeps the shape of the net: the number and kinds of the vertices, the
 * degrees, the paths, the initial and final places and the workflow-net predicate.
 */
module Renaming {
  import opened Wrappers
  import opened Net

  function RenameVertex(p: string, v: Vertex): Vertex {
    Vertex(v.kind, p + v.id, v.value)
  }

  function RenameTerminal(p: string, t: Option<string>): Option<string> {
    match t
    case None => None
    case Some(x) => Some(p + x)
  }

  function RenameArc(p: string, a: Arc): Arc {
    Arc(p + a.id, a.value, RenameTerminal(p, a.source), RenameTerminal(p, a.target))
  }

  function RenameCell(p: string, c: Cell): Cell {
    match c
    case VertexCell(v) => VertexCell(RenameVertex(p, v))
    case ArcCell(a) => ArcCell(RenameArc(p, a))
  }

  function RenameCells(p: string, cs: seq<Cell>): seq<Cell> {
    seq(|cs|, k requires 0 <= k < |cs| => RenameCell(p, cs[k]))
  }

  function RenameVertices(p: string, vs: seq<Vertex>): seq<Vertex> {
    seq(|vs|, k requires 0 <= k < |vs| => RenameVertex(p, vs[k]))
  }

  function RenameArcs(p: string, arcs: seq<Arc>): seq<Arc> {
    seq(|arcs|, k requires 0 <= k < |arcs| => RenameArc(p, arcs[k]))
  }

  lemma RenameCellsAppend(p: string, xs: seq<Cell>, ys: seq<Cell>)
    ensures RenameCells(p, xs + ys) == RenameCells(p, xs) + RenameCells(p, ys)
  {
  }

  lemma RenameVerticesAppend(p: string, xs: seq<Vertex>, ys: seq<Vertex>)
    ensures RenameVertices(p, xs + ys) == RenameVertices(p, xs) + RenameVertices(p, ys)
  {
  }

  /** Putting the same prefix in front of two ids keeps them apart. */
  lemma PrefixCancels(p: string, x: string, y: string)
    ensures p + x == p + y <==> x == y
  {
    if p + x == p + y {
      assert x == (p + x)[|p|..];
      assert y == (p + y)[|p|..];
    }
  }

  /** The vertices and the arcs of a renamed store are the renamed vertices and arcs, in order. */
  lemma {:induction false} RenamedParts(p: string, cs: seq<Cell>)
    ensures Vertices(RenameCells(p, cs)) == RenameVertices(p, Vertices(cs))
    ensures Arcs(RenameCells(p, cs)) == RenameArcs(p, Arcs(cs))
  {
    if cs != [] {
      var init, last := cs[..|cs| - 1], cs[|cs| - 1];
      RenamedParts(p, init);
      var rcs := RenameCells(p, cs);
      assert rcs[..|rcs| - 1] == RenameCells(p, init);
      match last
      case VertexCell(v) =>
        assert RenameVertices(p, Vertices(init) + [v]) == RenameVertices(p, Vertices(init)) + [RenameVertex(p, v)];
      case ArcCell(a) =>
        assert RenameArcs(p, Arcs(init) + [a]) == RenameArcs(p, Arcs(init)) + [RenameArc(p, a)];
    }
  }

  /** A renamed id has the degrees of the original id. */
  lemma {:induction false} RenamedDegrees(p: string, arcs: seq<Arc>, x: string)
    ensures InDegree(RenameArcs(p, arcs), p + x) == InDegree(arcs, x)
    ensures OutDegree(RenameArcs(p, arcs), p + x) == OutDegree(arcs, x)
  {
    if arcs != [] {
      var init, last := arcs[..|arcs| - 1], arcs[|arcs| - 1];
      RenamedDegrees(p, init, x);
      var ras := RenameArcs(p, arcs);
      assert ras[..|ras| - 1] == RenameArcs(p, init);
      forall y | last.target == Some(y) || last.source == Some(y)
        ensures p + y == p + x <==> y == x
      {
        PrefixCancels(p, x, y);
      }
    }
  }

  /** An id that does not start with the prefix is no terminal of a renamed arc. */
  lemma {:induction false} ForeignDegrees(p: string, arcs: seq<Arc>, y: string)
    requires !(p <= y)
    ensures InDegree(RenameArcs(p, arcs), y) == 0 && OutDegree(RenameArcs(p, arcs), y) == 0
  {
    if arcs != [] {
      var init := arcs[..|arcs| - 1];
      ForeignDegrees(p, init, y);
      var ras := RenameArcs(p, arcs);
      assert ras[..|ras| - 1] == RenameArcs(p, init);
    }
  }

  /** A path between two renamed ids exists in the renamed arcs exactly when it exists in the original. */
  lemma RenamedReaches(p: string, arcs: seq<Arc>, x: string, y: string, k: nat)
    ensures ReachesWithin(RenameArcs(p, arcs), p + x, p + y, k) <==> ReachesWithin(arcs, x, y, k)
  {
    if ReachesWithin(arcs, x, y, k) {
      RenamedPathExists(p, arcs, x, y, k);
    }
    if ReachesWithin(RenameArcs(p, arcs), p + x, p + y, k) {
      OriginalPathExists(p, arcs, x, y, k);
    }
  }

  lemma {:induction false} RenamedPathExists(p: string, arcs: seq<Arc>, x: string, y: string, k: nat)
    requires ReachesWithin(arcs, x, y, k)
    ensures ReachesWithin(RenameArcs(p, arcs), p + x, p + y, k)
    decreases k
  {
    if x != y {
      var a :| a in arcs && a.source == Some(x) && a.target.Some? && ReachesWithin(arcs, a.target.value, y, k - 1);
      var j :| 0 <= j < |arcs| && arcs[j] == a;
      RenamedPathExists(p, arcs, a.target.value, y, k - 1);
      var ras := RenameArcs(p, arcs);
      assert ras[j] == RenameArc(p, a);
      assert ras[j].target == Some(p + a.target.value);
    }
  }

  lemma {:induction false} OriginalPathExists(p: string, arcs: seq<Arc>, x: string, y: string, k: nat)
    requires ReachesWithin(RenameArcs(p, arcs), p + x, p + y, k)
    ensures ReachesWithin(arcs, x, y, k)
    decreases k
  {
    PrefixCancels(p, x, y);
    if x != y {
      var ras := RenameArcs(p, arcs);
      var b :| b in ras && b.source == Some(p + x) && b.target.Some? && ReachesWithin(ras, b.target.value, p + y, k - 1);
      var j :| 0 <= j < |ras| && ras[j] == b;
      var a := arcs[j];
      assert b == RenameArc(p, a);
      PrefixCancels(p, x, a.source.value);
      OriginalPathExists(p, arcs, a.target.value, y, k - 1);
      assert a in arcs;
    }
  }

  /** A renamed vertex is a boundary place of the renamed arcs exactly when the original is one. */
  lemma RenamedBoundaryPlace(b: Boundary, p: string, v: Vertex, arcs: seq<Arc>)
    ensures IsBoundaryPlace(b, RenameVertex(p, v), RenameArcs(p, arcs)) == IsBoundaryPlace(b, v, arcs)
  {
    RenamedDegrees(p, arcs, v.id);
  }

  /** The initial (final) places of a renamed store are the renamed initial (final) places. */
  lemma {:induction false} RenamedBoundaryPlaces(b: Boundary, p: string, vs: seq<Vertex>, arcs: seq<Arc>)
    ensures BoundaryPlacesOf(b, RenameVertices(p, vs), RenameArcs(p, arcs))
            == RenameVertices(p, BoundaryPlacesOf(b, vs, arcs))
  {
    if vs != [] {
      var init, last := vs[..|vs| - 1], vs[|vs| - 1];
      RenamedBoundaryPlaces(b, p, init, arcs);
      RenamedBoundaryPlace(b, p, last, arcs);
      var rvs := RenameVertices(p, vs);
      assert rvs[..|rvs| - 1] == RenameVertices(p, init);
      var before := BoundaryPlacesOf(b, init, arcs);
      assert RenameVertices(p, before + [last]) == RenameVertices(p, before) + [RenameVertex(p, last)];
      assert RenameVertices(p, before + []) == RenameVertices(p, before);
    }
  }

  /** Renaming neither makes nor breaks the connection of a vertex to a target. */
  lemma RenamedDisconnected(p: string, cs: seq<Cell>, v: Vertex, target: Vertex)
    ensures Disconnected(RenameCells(p, cs), RenameVertex(p, v), RenameVertex(p, target)) == Disconnected(cs, v, target)
  {
    RenamedParts(p, cs);
    PrefixCancels(p, v.id, target.id);
    RenamedDegrees(p, Arcs(cs), v.id);
    RenamedReaches(p, Arcs(cs), v.id, target.id, |Vertices(cs)|);
  }

  /** A net is a workflow net exactly when its renaming is one. */
  lemma RenamingPreservesWorkflow(p: string, cs: seq<Cell>)
    ensures WorkflowStronglyConnected(RenameCells(p, cs)) == WorkflowStronglyConnected(cs)
  {
    var rcs := RenameCells(p, cs);
    RenamedParts(p, cs);
    RenamedBoundaryPlaces(Initial, p, Vertices(cs), Arcs(cs));
    RenamedBoundaryPlaces(Final, p, Vertices(cs), Arcs(cs));
    if |InitialPlaces(cs)| == 1 && |FinalPlaces(cs)| == 1 {
      var f := FinalPlaces(cs)[0];
      assert FinalPlaces(rcs)[0] == RenameVertex(p, f);
      if NotConnected(cs, f) != {} {
        var v :| v in NotConnected(cs, f);
        var j :| 0 <= j < |Vertices(cs)| && Vertices(cs)[j] == v;
        RenamedDisconnected(p, cs, v, f);
        assert Vertices(rcs)[j] == RenameVertex(p, v);
        assert RenameVertex(p, v) in NotConnected(rcs, RenameVertex(p, f));
      }
      if NotConnected(rcs, RenameVertex(p, f)) != {} {
        var w :| w in NotConnected(rcs, RenameVertex(p, f));
        var j :| 0 <= j < |Vertices(rcs)| && Vertices(rcs)[j] == w;
        var v := Vertices(cs)[j];
        RenamedDisconnected(p, cs, v, f);
        assert v in NotConnected(cs, f);
      }
    }
  }
}
