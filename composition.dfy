/**
 * The parallel composition of two nets as WoLFed builds it: the output graph first receives the
 * merge of the two inputs, each under its own prefix, and then the AND-split / AND-join pattern
 * of the parallelism operation. When both inputs are workflow nets that list their vertices
 * before their arcs, the result is again a workflow net: its only initial place is "initial",
 * its only final place is "final", and no arc joins the body of one input to the other's.
 */
module Composition {
  import opened Wrappers
  import opened Ids
  import opened Net
  import opened Renaming
  import opened Merge
  import opened Parallelism

  /** The decimal prefixes start with a digit, so no control id starts with one of them. */
  lemma DecimalPrefixOutsideControls(k: nat)
    ensures ControlsOutside(DecimalPrefix(k))
  {
    var p := DecimalPrefix(k);
    assert IsDigit(p[0]);
  }

  /** The merged inputs: input 0 renamed by prefix 1, then input 1 renamed by prefix 2. */
  function Merged(a: seq<Cell>, b: seq<Cell>, prefix: nat -> string): seq<Cell> {
    RenameCells(prefix(1), a) + RenameCells(prefix(2), b)
  }

  /** Merging two inputs whose arcs come after their vertices puts their renamings side by side. */
  lemma MergeOfTwo(a: seq<Cell>, b: seq<Cell>, prefix: nat -> string)
    requires Ordered(a) && Ordered(b)
    ensures AllTerminated([a, b])
    ensures MergeAll([], [a, b], prefix) == Merged(a, b, prefix)
  {
    OrderedCloneIsRenaming([], prefix(1), a);
    OrderedCloneIsRenaming(RenameCells(prefix(1), a), prefix(2), b);
    assert [a, b][..1] == [a];
    assert [a][..0] == [];
    assert MergeAll([], [a], prefix) == [] + CloneCells([], prefix(1), a);
    assert [] + RenameCells(prefix(1), a) == RenameCells(prefix(1), a);
  }

  /** Under a prefix-free scheme an id carrying prefix i does not start with prefix j. */
  lemma ForeignPrefix(prefix: nat -> string, i: nat, j: nat, x: string)
    requires PrefixFree(prefix) && i != j
    ensures !(prefix(j) <= prefix(i) + x)
  {
    if prefix(j) <= prefix(i) + x {
      PrefixesAreComparable(prefix(i), prefix(j), prefix(i) + x);
      assert false;
    }
  }

  lemma MergedParts(a: seq<Cell>, b: seq<Cell>, prefix: nat -> string)
    ensures Vertices(Merged(a, b, prefix))
            == RenameVertices(prefix(1), Vertices(a)) + RenameVertices(prefix(2), Vertices(b))
    ensures Arcs(Merged(a, b, prefix)) == RenameArcs(prefix(1), Arcs(a)) + RenameArcs(prefix(2), Arcs(b))
  {
    RenamedParts(prefix(1), a);
    RenamedParts(prefix(2), b);
    VerticesAppend(RenameCells(prefix(1), a), RenameCells(prefix(2), b));
    ArcsAppend(RenameCells(prefix(1), a), RenameCells(prefix(2), b));
  }

  /** In the merge, a prefixed id has exactly the degrees the id has in its own input. */
  lemma MergedDegrees(a: seq<Cell>, b: seq<Cell>, prefix: nat -> string, x: string)
    requires PrefixFree(prefix)
    ensures var arcs := Arcs(Merged(a, b, prefix));
            && InDegree(arcs, prefix(1) + x) == InDegree(Arcs(a), x)
            && OutDegree(arcs, prefix(1) + x) == OutDegree(Arcs(a), x)
            && InDegree(arcs, prefix(2) + x) == InDegree(Arcs(b), x)
            && OutDegree(arcs, prefix(2) + x) == OutDegree(Arcs(b), x)
  {
    MergedParts(a, b, prefix);
    var ra, rb := RenameArcs(prefix(1), Arcs(a)), RenameArcs(prefix(2), Arcs(b));
    DegreesAppend(ra, rb, prefix(1) + x);
    DegreesAppend(ra, rb, prefix(2) + x);
    RenamedDegrees(prefix(1), Arcs(a), x);
    RenamedDegrees(prefix(2), Arcs(b), x);
    ForeignPrefix(prefix, 1, 2, x);
    ForeignDegrees(prefix(2), Arcs(b), prefix(1) + x);
    ForeignPrefix(prefix, 2, 1, x);
    ForeignDegrees(prefix(1), Arcs(a), prefix(2) + x);
  }

  /** Which vertices are boundary places depends only on the degrees of their ids. */
  lemma {:induction false} BoundaryPlacesSameDegrees(bd: Boundary, vs: seq<Vertex>, arcs: seq<Arc>, more: seq<Arc>)
    requires forall v :: v in vs ==> InDegree(arcs, v.id) == InDegree(more, v.id)
                                      && OutDegree(arcs, v.id) == OutDegree(more, v.id)
    ensures BoundaryPlacesOf(bd, vs, arcs) == BoundaryPlacesOf(bd, vs, more)
  {
    if vs != [] {
      var init := vs[..|vs| - 1];
      assert forall v :: v in init ==> v in vs;
      BoundaryPlacesSameDegrees(bd, init, arcs, more);
      assert vs[|vs| - 1] in vs;
    }
  }

  /** The boundary places of a renamed side, seen inside the merge, are those of the side alone. */
  lemma SideBoundary(bd: Boundary, a: seq<Cell>, b: seq<Cell>, prefix: nat -> string, i: nat)
    requires PrefixFree(prefix) && (i == 1 || i == 2)
    ensures var x := if i == 1 then a else b;
            BoundaryPlacesOf(bd, RenameVertices(prefix(i), Vertices(x)), Arcs(Merged(a, b, prefix)))
            == RenameVertices(prefix(i), BoundaryPlacesOf(bd, Vertices(x), Arcs(x)))
  {
    var x := if i == 1 then a else b;
    var p := prefix(i);
    var vs := RenameVertices(p, Vertices(x));
    forall v | v in vs
      ensures InDegree(Arcs(Merged(a, b, prefix)), v.id) == InDegree(RenameArcs(p, Arcs(x)), v.id)
      ensures OutDegree(Arcs(Merged(a, b, prefix)), v.id) == OutDegree(RenameArcs(p, Arcs(x)), v.id)
    {
      var k :| 0 <= k < |vs| && vs[k] == v;
      var u := Vertices(x)[k];
      assert v.id == p + u.id;
      MergedDegrees(a, b, prefix, u.id);
      RenamedDegrees(p, Arcs(x), u.id);
    }
    BoundaryPlacesSameDegrees(bd, vs, Arcs(Merged(a, b, prefix)), RenameArcs(p, Arcs(x)));
    RenamedBoundaryPlaces(bd, p, Vertices(x), Arcs(x));
  }

  /** The initial (final) places of the merge are the renamed ones of input 0, then of input 1. */
  lemma MergedBoundary(bd: Boundary, a: seq<Cell>, b: seq<Cell>, prefix: nat -> string)
    requires PrefixFree(prefix)
    ensures var m := Merged(a, b, prefix);
            BoundaryPlacesOf(bd, Vertices(m), Arcs(m))
            == RenameVertices(prefix(1), BoundaryPlacesOf(bd, Vertices(a), Arcs(a)))
               + RenameVertices(prefix(2), BoundaryPlacesOf(bd, Vertices(b), Arcs(b)))
  {
    var m := Merged(a, b, prefix);
    MergedParts(a, b, prefix);
    BoundaryPlacesAppend(bd, RenameVertices(prefix(1), Vertices(a)), RenameVertices(prefix(2), Vertices(b)), Arcs(m));
    SideBoundary(bd, a, b, prefix, 1);
    SideBoundary(bd, a, b, prefix, 2);
  }

  /** A control id never starts with `p`, so it is neither an id nor a terminal of a renaming by `p`. */
  lemma RenamedControlFree(p: string, cs: seq<Cell>)
    requires ControlsOutside(p)
    ensures ControlFree(RenameCells(p, cs))
  {
    RenamedIdsCarryPrefix(p, cs);
  }

  lemma ControlFreeAppend(xs: seq<Cell>, ys: seq<Cell>)
    requires ControlFree(xs) && ControlFree(ys)
    ensures ControlFree(xs + ys)
  {
    VerticesAppend(xs, ys);
    ArcsAppend(xs, ys);
  }

  /** Every id and terminal of the merge carries the prefix of its input, so none is a control id. */
  lemma MergedControlFree(a: seq<Cell>, b: seq<Cell>, prefix: nat -> string)
    requires ControlsOutside(prefix(1)) && ControlsOutside(prefix(2))
    ensures ControlFree(Merged(a, b, prefix))
  {
    RenamedControlFree(prefix(1), a);
    RenamedControlFree(prefix(2), b);
    ControlFreeAppend(RenameCells(prefix(1), a), RenameCells(prefix(2), b));
  }

  /** Two boundary places, listed in that order, give the boundary ids of the store. */
  lemma BoundaryIdsOfPair(bd: Boundary, cs: seq<Cell>, u: Vertex, w: Vertex)
    requires BoundaryPlacesOf(bd, Vertices(cs), Arcs(cs)) == [u, w]
    ensures BoundaryIds(bd, cs, u.id, w.id)
  {
    BoundaryPlacesMembership(bd, Vertices(cs), Arcs(cs));
    assert u in [u, w] && w in [u, w];
  }

  /** When each input has one initial (final) place, the merge has the clones of the two. */
  lemma MergedBoundaryIdsOf(bd: Boundary, a: seq<Cell>, b: seq<Cell>, prefix: nat -> string)
    requires PrefixFree(prefix)
    requires |BoundaryPlacesOf(bd, Vertices(a), Arcs(a))| == 1 && |BoundaryPlacesOf(bd, Vertices(b), Arcs(b))| == 1
    ensures BoundaryIds(bd, Merged(a, b, prefix), prefix(1) + BoundaryPlacesOf(bd, Vertices(a), Arcs(a))[0].id,
                        prefix(2) + BoundaryPlacesOf(bd, Vertices(b), Arcs(b))[0].id)
  {
    var ba, bb := BoundaryPlacesOf(bd, Vertices(a), Arcs(a)), BoundaryPlacesOf(bd, Vertices(b), Arcs(b));
    MergedBoundary(bd, a, b, prefix);
    assert ba == [ba[0]] && bb == [bb[0]];
    assert RenameVertices(prefix(1), ba) + RenameVertices(prefix(2), bb)
           == [RenameVertex(prefix(1), ba[0]), RenameVertex(prefix(2), bb[0])];
    BoundaryIdsOfPair(bd, Merged(a, b, prefix), RenameVertex(prefix(1), ba[0]), RenameVertex(prefix(2), bb[0]));
  }

  /** The merge of two nets with one initial and one final place each has the two renamed ones. */
  lemma MergedBoundaryIds(a: seq<Cell>, b: seq<Cell>, prefix: nat -> string)
    requires PrefixFree(prefix)
    requires |InitialPlaces(a)| == 1 && |FinalPlaces(a)| == 1
    requires |InitialPlaces(b)| == 1 && |FinalPlaces(b)| == 1
    ensures BoundaryIds(Initial, Merged(a, b, prefix), InitialOf(a, prefix(1)), InitialOf(b, prefix(2)))
    ensures BoundaryIds(Final, Merged(a, b, prefix), FinalOf(a, prefix(1)), FinalOf(b, prefix(2)))
  {
    MergedBoundaryIdsOf(Initial, a, b, prefix);
    MergedBoundaryIdsOf(Final, a, b, prefix);
  }

  /** The id of the clone of the first initial place of `cs` under prefix `p`. */
  function InitialOf(cs: seq<Cell>, p: string): string
    requires InitialPlaces(cs) != []
  {
    p + InitialPlaces(cs)[0].id
  }

  /** The id of the clone of the first final place of `cs` under prefix `p`. */
  function FinalOf(cs: seq<Cell>, p: string): string
    requires FinalPlaces(cs) != []
  {
    p + FinalPlaces(cs)[0].id
  }

  /** Both inputs have an initial and a final place: what the operation reads from them. */
  predicate HasBoundaryPlaces(cs: seq<Cell>) {
    InitialPlaces(cs) != [] && FinalPlaces(cs) != []
  }

  /**
   * The parallel composition of `a` and `b`: the merge of the two, then the initial and final
   * patterns wired to the clones of their first initial and final places, arc counter at `n`.
   */
  function Composed(a: seq<Cell>, b: seq<Cell>, prefix: nat -> string, n: nat): seq<Cell>
    requires HasBoundaryPlaces(a) && HasBoundaryPlaces(b)
  {
    ParallelCells(Merged(a, b, prefix), n, InitialOf(a, prefix(1)), InitialOf(b, prefix(2)),
                  FinalOf(a, prefix(1)), FinalOf(b, prefix(2)))
  }

  /**
   * Composing two nets that each have one initial and one final place leaves exactly one
   * initial place, "initial", and exactly one final place, "final".
   */
  lemma ComposedBoundary(a: seq<Cell>, b: seq<Cell>, prefix: nat -> string, n: nat)
    requires |InitialPlaces(a)| == 1 && |FinalPlaces(a)| == 1
    requires |InitialPlaces(b)| == 1 && |FinalPlaces(b)| == 1
    requires PrefixFree(prefix) && ControlsOutside(prefix(1)) && ControlsOutside(prefix(2))
    ensures InitialPlaces(Composed(a, b, prefix, n)) == [Named(Place, INITIAL)]
    ensures FinalPlaces(Composed(a, b, prefix, n)) == [Named(Place, FINAL)]
  {
    MergedControlFree(a, b, prefix);
    MergedBoundaryIds(a, b, prefix);
    ParallelBoundary(Merged(a, b, prefix), n, InitialOf(a, prefix(1)), InitialOf(b, prefix(2)),
                     FinalOf(a, prefix(1)), FinalOf(b, prefix(2)));
  }

  // ---------------------------------------------------------------------------------------
  // Paths to "final"

  /** The paths the arcs of the initial pattern open. */
  lemma InitialPaths(cs: seq<Cell>, n: nat, e0: string, e1: string, f0: string, f1: string)
    ensures var arcs := Arcs(ParallelCells(cs, n, e0, e1, f0, f1));
            && ReachesWithin(arcs, INITIAL, e0, 2) && ReachesWithin(arcs, AND_SPLIT, e0, 1)
            && ReachesWithin(arcs, INITIAL, e1, 2)
  {
    ParallelParts(cs, n, e0, e1, f0, f1);
    var arcs := Arcs(ParallelCells(cs, n, e0, e1, f0, f1));
    var ia := InitialArcs(n, e0, e1);
    assert arcs == Arcs(cs) + ia + FinalArcs(n + 3, f0, f1);
    assert ia[0] in arcs && ia[1] in arcs && ia[2] in arcs;
    ReachesByArc(arcs, ia[0], 1);
    ReachesByArc(arcs, ia[1], 1);
    ReachesByArc(arcs, ia[2], 1);
    ReachesWithinTrans(arcs, INITIAL, AND_SPLIT, e0, 1, 1);
    ReachesWithinTrans(arcs, INITIAL, AND_SPLIT, e1, 1, 1);
  }

  /** The paths the arcs of the final pattern open. */
  lemma FinalPaths(cs: seq<Cell>, n: nat, e0: string, e1: string, f0: string, f1: string)
    ensures var arcs := Arcs(ParallelCells(cs, n, e0, e1, f0, f1));
            ReachesWithin(arcs, f0, FINAL, 2) && ReachesWithin(arcs, f1, FINAL, 2)
            && ReachesWithin(arcs, AND_JOIN, FINAL, 1)
  {
    ParallelParts(cs, n, e0, e1, f0, f1);
    var arcs := Arcs(ParallelCells(cs, n, e0, e1, f0, f1));
    var fa := FinalArcs(n + 3, f0, f1);
    assert arcs == Arcs(cs) + InitialArcs(n, e0, e1) + fa;
    assert fa[0] in arcs && fa[1] in arcs && fa[2] in arcs;
    ReachesByArc(arcs, fa[0], 1);
    ReachesByArc(arcs, fa[1], 1);
    ReachesByArc(arcs, fa[2], 1);
    ReachesWithinTrans(arcs, f0, AND_JOIN, FINAL, 1, 1);
    ReachesWithinTrans(arcs, f1, AND_JOIN, FINAL, 1, 1);
  }

  /**
   * In a net that holds the renamed arcs of a workflow net `x` and a path of two steps from the
   * clone of its final place to "final", every clone of a Place or Transition of `x` reaches "final".
   */
  lemma SideReachesFinal(r: seq<Cell>, p: string, x: seq<Cell>, u: Vertex)
    requires WorkflowStronglyConnected(x)
    requires forall c :: c in RenameArcs(p, Arcs(x)) ==> c in Arcs(r)
    requires ReachesWithin(Arcs(r), p + FinalPlaces(x)[0].id, FINAL, 2)
    requires u in Vertices(x) && u.kind != Interface
    ensures ReachesWithin(Arcs(r), p + u.id, FINAL, |Vertices(x)| + 2)
  {
    var arcs := Arcs(r);
    var f := FinalPlaces(x)[0];
    var k := |Vertices(x)|;
    WorkflowCharacterized(x);
    if u.id == f.id {
      ReachesWithinMonotone(arcs, arcs, p + u.id, FINAL, 2, k + 2);
    } else {
      RenamedReaches(p, Arcs(x), u.id, f.id, k);
      ReachesWithinMonotone(RenameArcs(p, Arcs(x)), arcs, p + u.id, p + f.id, k, k);
      ReachesWithinTrans(arcs, p + u.id, p + f.id, FINAL, k, 2);
    }
  }

  /** The vertices and arcs of the composed net, input by input. */
  lemma ComposedParts(a: seq<Cell>, b: seq<Cell>, prefix: nat -> string, n: nat)
    requires HasBoundaryPlaces(a) && HasBoundaryPlaces(b)
    ensures Vertices(Composed(a, b, prefix, n))
            == RenameVertices(prefix(1), Vertices(a)) + RenameVertices(prefix(2), Vertices(b))
               + InitialControls() + FinalControls()
    ensures forall c :: c in RenameArcs(prefix(1), Arcs(a)) ==> c in Arcs(Composed(a, b, prefix, n))
    ensures forall c :: c in RenameArcs(prefix(2), Arcs(b)) ==> c in Arcs(Composed(a, b, prefix, n))
  {
    var e0, e1, f0, f1 := InitialOf(a, prefix(1)), InitialOf(b, prefix(2)), FinalOf(a, prefix(1)), FinalOf(b, prefix(2));
    MergedParts(a, b, prefix);
    ParallelParts(Merged(a, b, prefix), n, e0, e1, f0, f1);
  }

  /** Every clone of a Place or Transition of either input reaches "final" in the composed net. */
  lemma CloneReachesFinal(a: seq<Cell>, b: seq<Cell>, prefix: nat -> string, n: nat, i: nat, u: Vertex)
    requires WorkflowStronglyConnected(a) && WorkflowStronglyConnected(b) && (i == 1 || i == 2)
    requires u in Vertices(if i == 1 then a else b) && u.kind != Interface
    ensures Reaches(Composed(a, b, prefix, n), prefix(i) + u.id, FINAL)
    ensures ReachesWithin(Arcs(Composed(a, b, prefix, n)), prefix(i) + u.id, FINAL,
                          |Vertices(if i == 1 then a else b)| + 2)
  {
    var x := if i == 1 then a else b;
    var r := Composed(a, b, prefix, n);
    ComposedParts(a, b, prefix, n);
    FinalPaths(Merged(a, b, prefix), n, InitialOf(a, prefix(1)), InitialOf(b, prefix(2)),
               FinalOf(a, prefix(1)), FinalOf(b, prefix(2)));
    SideReachesFinal(r, prefix(i), x, u);
    ReachesWithinMonotone(Arcs(r), Arcs(r), prefix(i) + u.id, FINAL, |Vertices(x)| + 2, |Vertices(r)|);
  }

  /** "AND-join" reaches "final" in the composed net, by its own arc. */
  lemma JoinReachesFinal(a: seq<Cell>, b: seq<Cell>, prefix: nat -> string, n: nat)
    requires HasBoundaryPlaces(a) && HasBoundaryPlaces(b)
    ensures Reaches(Composed(a, b, prefix, n), AND_JOIN, FINAL)
  {
    var r := Composed(a, b, prefix, n);
    var m := Merged(a, b, prefix);
    ComposedParts(a, b, prefix, n);
    FinalPaths(m, n, InitialOf(a, prefix(1)), InitialOf(b, prefix(2)), FinalOf(a, prefix(1)), FinalOf(b, prefix(2)));
    ReachesWithinMonotone(Arcs(r), Arcs(r), AND_JOIN, FINAL, 1, |Vertices(r)|);
  }

  /** Two paths whose bounds add up to at most `total` make a path within `total`. */
  lemma Via(arcs: seq<Arc>, x: string, y: string, z: string, j: nat, k: nat, total: nat)
    requires ReachesWithin(arcs, x, y, j) && ReachesWithin(arcs, y, z, k) && j + k <= total
    ensures ReachesWithin(arcs, x, z, total)
  {
    ReachesWithinTrans(arcs, x, y, z, j, k);
    ReachesWithinMonotone(arcs, arcs, x, z, j + k, total);
  }

  /** The composed net has the vertices of both inputs and four more. */
  lemma ComposedSize(a: seq<Cell>, b: seq<Cell>, prefix: nat -> string, n: nat)
    requires HasBoundaryPlaces(a) && HasBoundaryPlaces(b)
    ensures |Vertices(Composed(a, b, prefix, n))| == |Vertices(a)| + |Vertices(b)| + 4
  {
    ComposedParts(a, b, prefix, n);
  }

  /**
   * "initial" and "AND-split" reach "final" in the composed net when the clone of input 0's
   * initial place reaches it within the size of input 0 and two more steps.
   */
  lemma SplitReachesFinal(a: seq<Cell>, b: seq<Cell>, prefix: nat -> string, n: nat, id: string)
    requires HasBoundaryPlaces(a) && HasBoundaryPlaces(b)
    requires ReachesWithin(Arcs(Composed(a, b, prefix, n)), InitialOf(a, prefix(1)), FINAL, |Vertices(a)| + 2)
    requires id == INITIAL || id == AND_SPLIT
    ensures Reaches(Composed(a, b, prefix, n), id, FINAL)
  {
    var r := Composed(a, b, prefix, n);
    var e0 := InitialOf(a, prefix(1));
    ComposedSize(a, b, prefix, n);
    InitialPaths(Merged(a, b, prefix), n, e0, InitialOf(b, prefix(2)), FinalOf(a, prefix(1)), FinalOf(b, prefix(2)));
    if id == INITIAL {
      Via(Arcs(r), INITIAL, e0, FINAL, 2, |Vertices(a)| + 2, |Vertices(r)|);
    } else {
      Via(Arcs(r), AND_SPLIT, e0, FINAL, 1, |Vertices(a)| + 2, |Vertices(r)|);
    }
  }

  /** "initial", "AND-split" and "AND-join" reach "final" in the composed net. */
  lemma ControlReachesFinal(a: seq<Cell>, b: seq<Cell>, prefix: nat -> string, n: nat, id: string)
    requires WorkflowStronglyConnected(a) && WorkflowStronglyConnected(b)
    requires id == INITIAL || id == AND_SPLIT || id == AND_JOIN
    ensures Reaches(Composed(a, b, prefix, n), id, FINAL)
  {
    if id == AND_JOIN {
      JoinReachesFinal(a, b, prefix, n);
    } else {
      // through AND-split and the clone of input 0's initial place
      BoundaryPlacesMembership(Initial, Vertices(a), Arcs(a));
      CloneReachesFinal(a, b, prefix, n, 1, InitialPlaces(a)[0]);
      SplitReachesFinal(a, b, prefix, n, id);
    }
  }

  /**
   * In a net that holds the renamed arcs of `x` and a path of two steps from "initial" to the
   * clone of its initial place, every vertex `x` reaches from its initial place within `k` steps
   * has its clone reached from "initial" within `k + 2` steps.
   */
  lemma SideReachedFromInitial(r: seq<Cell>, p: string, x: seq<Cell>, y: string, k: nat)
    requires InitialPlaces(x) != []
    requires forall c :: c in RenameArcs(p, Arcs(x)) ==> c in Arcs(r)
    requires ReachesWithin(Arcs(r), INITIAL, p + InitialPlaces(x)[0].id, 2)
    requires ReachesWithin(Arcs(x), InitialPlaces(x)[0].id, y, k)
    ensures ReachesWithin(Arcs(r), INITIAL, p + y, k + 2)
  {
    var start := InitialPlaces(x)[0].id;
    RenamedReaches(p, Arcs(x), start, y, k);
    ReachesWithinMonotone(RenameArcs(p, Arcs(x)), Arcs(r), p + start, p + y, k, k);
    ReachesWithinTrans(Arcs(r), INITIAL, p + start, p + y, 2, k);
  }

  /**
   * Both bodies hang off the new initial place: whatever input `i` reaches from its initial
   * place within `k` steps, the composed net reaches from "initial" through "AND-split" and the
   * clone of that initial place, within two more steps.
   */
  lemma ComposedReachesBodies(a: seq<Cell>, b: seq<Cell>, prefix: nat -> string, n: nat, i: nat, y: string, k: nat)
    requires HasBoundaryPlaces(a) && HasBoundaryPlaces(b) && (i == 1 || i == 2)
    requires var x := if i == 1 then a else b;
             ReachesWithin(Arcs(x), InitialPlaces(x)[0].id, y, k)
    ensures ReachesWithin(Arcs(Composed(a, b, prefix, n)), INITIAL, prefix(i) + y, k + 2)
  {
    var r := Composed(a, b, prefix, n);
    ComposedParts(a, b, prefix, n);
    InitialPaths(Merged(a, b, prefix), n, InitialOf(a, prefix(1)), InitialOf(b, prefix(2)),
                 FinalOf(a, prefix(1)), FinalOf(b, prefix(2)));
    if i == 1 {
      SideReachedFromInitial(r, prefix(1), a, y, k);
    } else {
      SideReachedFromInitial(r, prefix(2), b, y, k);
    }
  }

  /**
   * The same within the composed net's own search bound: every vertex the path search of input
   * `i` finds from its initial place, the path search of the composed net finds from "initial".
   */
  lemma ComposedReachesBodiesFromInitial(a: seq<Cell>, b: seq<Cell>, prefix: nat -> string, n: nat, i: nat, y: string)
    requires HasBoundaryPlaces(a) && HasBoundaryPlaces(b) && (i == 1 || i == 2)
    requires var s := if i == 1 then a else b;
             Reaches(s, InitialPlaces(s)[0].id, y)
    ensures Reaches(Composed(a, b, prefix, n), INITIAL, prefix(i) + y)
  {
    var s := if i == 1 then a else b;
    var r := Composed(a, b, prefix, n);
    ComposedReachesBodies(a, b, prefix, n, i, y, |Vertices(s)|);
    ComposedSize(a, b, prefix, n);
    ReachesWithinMonotone(Arcs(r), Arcs(r), INITIAL, prefix(i) + y, |Vertices(s)| + 2, |Vertices(r)|);
  }

  // ---------------------------------------------------------------------------------------
  // Incoming arcs of the transitions

  /** The pattern only adds arcs: no id loses an incoming arc. */
  lemma ParallelKeepsInDegree(cs: seq<Cell>, n: nat, e0: string, e1: string, f0: string, f1: string, x: string)
    ensures InDegree(Arcs(ParallelCells(cs, n, e0, e1, f0, f1)), x) >= InDegree(Arcs(cs), x)
  {
    ParallelDegrees(cs, n, e0, e1, f0, f1, x);
  }

  /** The clone of a Transition of either input keeps its incoming arcs in the composed net. */
  lemma CloneTransitionFed(a: seq<Cell>, b: seq<Cell>, prefix: nat -> string, n: nat, i: nat, u: Vertex)
    requires WorkflowStronglyConnected(a) && WorkflowStronglyConnected(b) && PrefixFree(prefix) && (i == 1 || i == 2)
    requires u in Vertices(if i == 1 then a else b) && u.kind == Transition
    ensures InDegree(Arcs(Composed(a, b, prefix, n)), prefix(i) + u.id) > 0
  {
    WorkflowCharacterized(if i == 1 then a else b);
    MergedDegrees(a, b, prefix, u.id);
    ParallelKeepsInDegree(Merged(a, b, prefix), n, InitialOf(a, prefix(1)), InitialOf(b, prefix(2)),
                          FinalOf(a, prefix(1)), FinalOf(b, prefix(2)), prefix(i) + u.id);
  }

  /** "AND-split" and "AND-join" have incoming arcs in the composed net. */
  lemma ControlTransitionFed(a: seq<Cell>, b: seq<Cell>, prefix: nat -> string, n: nat, id: string)
    requires HasBoundaryPlaces(a) && HasBoundaryPlaces(b) && PrefixFree(prefix)
    requires id == AND_SPLIT || id == AND_JOIN
    ensures InDegree(Arcs(Composed(a, b, prefix, n)), id) > 0
  {
    // the two final-place clones differ, so at most one of the arcs into "AND-join" is a loop
    ForeignPrefix(prefix, 1, 2, FinalPlaces(a)[0].id);
    assert prefix(2) <= FinalOf(b, prefix(2));
    ParallelDegrees(Merged(a, b, prefix), n, InitialOf(a, prefix(1)), InitialOf(b, prefix(2)),
                    FinalOf(a, prefix(1)), FinalOf(b, prefix(2)), id);
  }

  // ---------------------------------------------------------------------------------------
  // The composition theorem

  /** Every Place or Transition of the composed net other than "final" has a path to "final". */
  lemma ComposedReachesFinal(a: seq<Cell>, b: seq<Cell>, prefix: nat -> string, n: nat, v: Vertex)
    requires WorkflowStronglyConnected(a) && WorkflowStronglyConnected(b)
    requires v in Vertices(Composed(a, b, prefix, n)) && v.kind != Interface && v.id != FINAL
    ensures Reaches(Composed(a, b, prefix, n), v.id, FINAL)
  {
    ComposedParts(a, b, prefix, n);
    var va, vb := RenameVertices(prefix(1), Vertices(a)), RenameVertices(prefix(2), Vertices(b));
    if v in va {
      var k :| 0 <= k < |va| && va[k] == v;
      CloneReachesFinal(a, b, prefix, n, 1, Vertices(a)[k]);
    } else if v in vb {
      var k :| 0 <= k < |vb| && vb[k] == v;
      CloneReachesFinal(a, b, prefix, n, 2, Vertices(b)[k]);
    } else {
      ControlReachesFinal(a, b, prefix, n, v.id);
    }
  }

  /** Every Transition of the composed net has an incoming arc. */
  lemma ComposedTransitionFed(a: seq<Cell>, b: seq<Cell>, prefix: nat -> string, n: nat, v: Vertex)
    requires WorkflowStronglyConnected(a) && WorkflowStronglyConnected(b) && PrefixFree(prefix)
    requires v in Vertices(Composed(a, b, prefix, n)) && v.kind == Transition
    ensures InDegree(Arcs(Composed(a, b, prefix, n)), v.id) > 0
  {
    ComposedParts(a, b, prefix, n);
    var va, vb := RenameVertices(prefix(1), Vertices(a)), RenameVertices(prefix(2), Vertices(b));
    if v in va {
      var k :| 0 <= k < |va| && va[k] == v;
      CloneTransitionFed(a, b, prefix, n, 1, Vertices(a)[k]);
    } else if v in vb {
      var k :| 0 <= k < |vb| && vb[k] == v;
      CloneTransitionFed(a, b, prefix, n, 2, Vertices(b)[k]);
    } else {
      ControlTransitionFed(a, b, prefix, n, v.id);
    }
  }

  /**
   * The parallel composition of two workflow nets, merged under a prefix-free scheme whose
   * prefixes start no control id, is a workflow net whose initial place is "initial" and whose
   * final place is "final".
   */
  lemma ComposedIsWorkflow(a: seq<Cell>, b: seq<Cell>, prefix: nat -> string, n: nat)
    requires WorkflowStronglyConnected(a) && WorkflowStronglyConnected(b)
    requires PrefixFree(prefix) && ControlsOutside(prefix(1)) && ControlsOutside(prefix(2))
    ensures WorkflowStronglyConnected(Composed(a, b, prefix, n))
    ensures InitialPlaces(Composed(a, b, prefix, n)) == [Named(Place, INITIAL)]
    ensures FinalPlaces(Composed(a, b, prefix, n)) == [Named(Place, FINAL)]
  {
    var r := Composed(a, b, prefix, n);
    ComposedBoundary(a, b, prefix, n);
    forall v | v in Vertices(r) && v.kind != Interface && v.id != FINAL
      ensures Reaches(r, v.id, FINAL)
    {
      ComposedReachesFinal(a, b, prefix, n, v);
    }
    forall v | v in Vertices(r) && v.kind == Transition
      ensures InDegree(Arcs(r), v.id) > 0
    {
      ComposedTransitionFed(a, b, prefix, n, v);
    }
    WorkflowCharacterized(r);
  }

  // ---------------------------------------------------------------------------------------
  // The two bodies stay apart

  /** Every id and every set terminal of a renaming by `p` starts with `p`. */
  lemma RenamedIdsCarryPrefix(p: string, cs: seq<Cell>)
    ensures forall v :: v in Vertices(RenameCells(p, cs)) ==> p <= v.id
    ensures forall c :: c in Arcs(RenameCells(p, cs)) ==>
              (c.source.Some? ==> p <= c.source.value) && (c.target.Some? ==> p <= c.target.value)
  {
    RenamedParts(p, cs);
    var vs, arcs := RenameVertices(p, Vertices(cs)), RenameArcs(p, Arcs(cs));
    forall v | v in vs
      ensures p <= v.id
    {
      var k :| 0 <= k < |vs| && vs[k] == v;
      assert v == RenameVertex(p, Vertices(cs)[k]);
    }
    forall c | c in arcs
      ensures (c.source.Some? ==> p <= c.source.value) && (c.target.Some? ==> p <= c.target.value)
    {
      var k :| 0 <= k < |arcs| && arcs[k] == c;
      assert c == RenameArc(p, Arcs(cs)[k]);
    }
  }

  /** Each end of the arc, where set, is under the prefix `p` or is a control id. */
  predicate ArcOnSide(p: string, c: Arc) {
    && (c.source.Some? ==> p <= c.source.value || IsControlId(c.source.value))
    && (c.target.Some? ==> p <= c.target.value || IsControlId(c.target.value))
  }

  /** The arcs of a renaming by `p` stay on the side of `p`. */
  lemma RenamedArcsOnSide(p: string, cs: seq<Cell>)
    ensures forall c :: c in RenameArcs(p, Arcs(cs)) ==> ArcOnSide(p, c)
  {
    var arcs := RenameArcs(p, Arcs(cs));
    forall c | c in arcs
      ensures ArcOnSide(p, c)
    {
      var k :| 0 <= k < |arcs| && arcs[k] == c;
      assert c == RenameArc(p, Arcs(cs)[k]);
    }
  }

  /** The six arcs of the pattern each join a control vertex with a clone on one side. */
  lemma PatternArcsOnSide(p: string, q: string, n: nat, e0: string, e1: string, f0: string, f1: string)
    requires p <= e0 && p <= f0 && q <= e1 && q <= f1
    ensures forall c :: c in InitialArcs(n, e0, e1) + FinalArcs(n + 3, f0, f1) ==> ArcOnSide(p, c) || ArcOnSide(q, c)
  {
    var ia, fa := InitialArcs(n, e0, e1), FinalArcs(n + 3, f0, f1);
    assert ArcOnSide(p, ia[0]) && ArcOnSide(p, ia[1]) && ArcOnSide(q, ia[2]);
    assert ArcOnSide(p, fa[0]) && ArcOnSide(p, fa[1]) && ArcOnSide(q, fa[2]);
    assert ia + fa == [ia[0], ia[1], ia[2], fa[0], fa[1], fa[2]];
  }

  /** Every arc of the composed net stays on the side of input 0 or on the side of input 1. */
  lemma ComposedArcSides(a: seq<Cell>, b: seq<Cell>, prefix: nat -> string, n: nat)
    requires HasBoundaryPlaces(a) && HasBoundaryPlaces(b)
    ensures forall c :: c in Arcs(Composed(a, b, prefix, n)) ==> ArcOnSide(prefix(1), c) || ArcOnSide(prefix(2), c)
  {
    var p1, p2 := prefix(1), prefix(2);
    var e0, e1, f0, f1 := InitialOf(a, p1), InitialOf(b, p2), FinalOf(a, p1), FinalOf(b, p2);
    var ra, rb := RenameArcs(p1, Arcs(a)), RenameArcs(p2, Arcs(b));
    var added := InitialArcs(n, e0, e1) + FinalArcs(n + 3, f0, f1);
    MergedParts(a, b, prefix);
    ParallelParts(Merged(a, b, prefix), n, e0, e1, f0, f1);
    assert Arcs(Composed(a, b, prefix, n)) == ra + rb + added;
    RenamedArcsOnSide(p1, a);
    RenamedArcsOnSide(p2, b);
    PatternArcsOnSide(p1, p2, n, e0, e1, f0, f1);
  }

  /** Under a prefix-free scheme no id starts with both prefix 1 and prefix 2. */
  lemma OneSide(prefix: nat -> string, id: string)
    requires PrefixFree(prefix)
    ensures !(prefix(1) <= id && prefix(2) <= id)
  {
    if prefix(1) <= id && prefix(2) <= id {
      PrefixesAreComparable(prefix(1), prefix(2), id);
    }
  }

  /** An arc that stays on one side joins no id under prefix 1 with an id under prefix 2. */
  lemma SidedArcNotAcross(prefix: nat -> string, c: Arc, x: string, y: string)
    requires PrefixFree(prefix) && ControlsOutside(prefix(1)) && ControlsOutside(prefix(2))
    requires ArcOnSide(prefix(1), c) || ArcOnSide(prefix(2), c)
    requires prefix(1) <= x && prefix(2) <= y
    ensures !(c.source == Some(x) && c.target == Some(y)) && !(c.source == Some(y) && c.target == Some(x))
  {
    OneSide(prefix, x);
    OneSide(prefix, y);
    assert !IsControlId(x) && !IsControlId(y);
  }

  /** No arc joins a vertex of `vs` with a vertex of `ws`, in either direction. */
  predicate Apart(arcs: seq<Arc>, vs: seq<Vertex>, ws: seq<Vertex>) {
    forall c, v, w :: c in arcs && v in vs && w in ws
      ==> !(c.source == Some(v.id) && c.target == Some(w.id)) && !(c.source == Some(w.id) && c.target == Some(v.id))
  }

  /** Arcs that stay on one side join no vertex under prefix 1 with one under prefix 2. */
  lemma NoArcAcross(prefix: nat -> string, arcs: seq<Arc>, vs: seq<Vertex>, ws: seq<Vertex>)
    requires PrefixFree(prefix) && ControlsOutside(prefix(1)) && ControlsOutside(prefix(2))
    requires forall c :: c in arcs ==> ArcOnSide(prefix(1), c) || ArcOnSide(prefix(2), c)
    requires forall v :: v in vs ==> prefix(1) <= v.id
    requires forall w :: w in ws ==> prefix(2) <= w.id
    ensures Apart(arcs, vs, ws)
  {
    forall c, v, w | c in arcs && v in vs && w in ws
      ensures !(c.source == Some(v.id) && c.target == Some(w.id)) && !(c.source == Some(w.id) && c.target == Some(v.id))
    {
      SidedArcNotAcross(prefix, c, v.id, w.id);
    }
  }

  /**
   * No arc of the composed net joins a clone of a vertex of input 0 and a clone of a vertex of
   * input 1, in either direction.
   */
  lemma BodiesNotJoined(a: seq<Cell>, b: seq<Cell>, prefix: nat -> string, n: nat)
    requires HasBoundaryPlaces(a) && HasBoundaryPlaces(b)
    requires PrefixFree(prefix) && ControlsOutside(prefix(1)) && ControlsOutside(prefix(2))
    ensures Apart(Arcs(Composed(a, b, prefix, n)), Vertices(RenameCells(prefix(1), a)), Vertices(RenameCells(prefix(2), b)))
  {
    ComposedArcSides(a, b, prefix, n);
    RenamedIdsCarryPrefix(prefix(1), a);
    RenamedIdsCarryPrefix(prefix(2), b);
    NoArcAcross(prefix, Arcs(Composed(a, b, prefix, n)), Vertices(RenameCells(prefix(1), a)), Vertices(RenameCells(prefix(2), b)));
  }


  // ---------------------------------------------------------------------------------------
  // The lookups of the operation

  /**
   * In a store whose vertices under prefix `p` are all clones of vertices of `x`, the lookup of
   * the clone of a vertex of `x` finds that clone when the ids of `x` are unique, whatever follows.
   */
  lemma RenamedLookup(m: seq<Cell>, ds: seq<Cell>, p: string, x: seq<Cell>, u: Vertex)
    requires UniqueIds(x) && u in Vertices(x)
    requires RenameVertex(p, u) in Vertices(m)
    requires forall w :: w in Vertices(m) && p <= w.id ==> w in RenameVertices(p, Vertices(x))
    ensures VertexById(m + ds, p + u.id) == Some(RenameVertex(p, u))
  {
    var id := p + u.id;
    VertexByIdFound(m, id);
    VertexByIdExtend(m, ds, id);
    var w := VertexById(m, id).value;
    var vs := RenameVertices(p, Vertices(x));
    var k :| 0 <= k < |vs| && vs[k] == w;
    var j :| 0 <= j < |Vertices(x)| && Vertices(x)[j] == u;
    PrefixCancels(p, Vertices(x)[k].id, u.id);
    assert k == j;
  }

  /** The vertices of the merge under prefix i are the clones of the vertices of input i - 1. */
  lemma MergedSides(a: seq<Cell>, b: seq<Cell>, prefix: nat -> string)
    requires PrefixFree(prefix)
    ensures forall w :: w in Vertices(Merged(a, b, prefix)) && prefix(1) <= w.id
              ==> w in RenameVertices(prefix(1), Vertices(a))
    ensures forall w :: w in Vertices(Merged(a, b, prefix)) && prefix(2) <= w.id
              ==> w in RenameVertices(prefix(2), Vertices(b))
  {
    MergedParts(a, b, prefix);
    RenamedParts(prefix(1), a);
    RenamedParts(prefix(2), b);
    RenamedIdsCarryPrefix(prefix(1), a);
    RenamedIdsCarryPrefix(prefix(2), b);
    forall w | w in Vertices(Merged(a, b, prefix)) && (prefix(1) <= w.id || prefix(2) <= w.id)
      ensures prefix(1) <= w.id ==> w in RenameVertices(prefix(1), Vertices(a))
      ensures prefix(2) <= w.id ==> w in RenameVertices(prefix(2), Vertices(b))
    {
      if prefix(1) <= w.id && prefix(2) <= w.id {
        PrefixesAreComparable(prefix(1), prefix(2), w.id);
      }
    }
  }

  /** The lookup of the clone of a boundary place of either input finds a Place, whatever follows the merge. */
  lemma CloneLookup(bd: Boundary, a: seq<Cell>, b: seq<Cell>, prefix: nat -> string, i: nat, ds: seq<Cell>)
    requires UniqueIds(a) && UniqueIds(b) && PrefixFree(prefix) && (i == 1 || i == 2)
    requires BoundaryPlacesOf(bd, Vertices(if i == 1 then a else b), Arcs(if i == 1 then a else b)) != []
    ensures var x := if i == 1 then a else b;
            FindsPlace(Merged(a, b, prefix) + ds,
                       prefix(i) + BoundaryPlacesOf(bd, Vertices(x), Arcs(x))[0].id)
  {
    var x := if i == 1 then a else b;
    var u := BoundaryPlacesOf(bd, Vertices(x), Arcs(x))[0];
    BoundaryPlacesMembership(bd, Vertices(x), Arcs(x));
    assert u in BoundaryPlacesOf(bd, Vertices(x), Arcs(x));
    MergedParts(a, b, prefix);
    MergedSides(a, b, prefix);
    var j :| 0 <= j < |Vertices(x)| && Vertices(x)[j] == u;
    assert RenameVertices(prefix(i), Vertices(x))[j] == RenameVertex(prefix(i), u);
    RenamedLookup(Merged(a, b, prefix), ds, prefix(i), x, u);
  }

  /**
   * When each input's ids are unique, every lookup of the parallelism finds a Place on the
   * merged output: the preconditions of its process hold.
   */
  lemma ComposedLookups(a: seq<Cell>, b: seq<Cell>, prefix: nat -> string, n: nat)
    requires UniqueIds(a) && UniqueIds(b) && HasBoundaryPlaces(a) && HasBoundaryPlaces(b) && PrefixFree(prefix)
    ensures var m := Merged(a, b, prefix);
            var e0, e1 := InitialOf(a, prefix(1)), InitialOf(b, prefix(2));
            && FindsPlace(m + InitialControlCells(), e0)
            && FindsPlace(m + InitialControlCells(), e1)
            && FindsPlace(m + InitialControlCells() + ArcTriple(InitialArcs(n, e0, e1)) + FinalControlCells(), FinalOf(a, prefix(1)))
            && FindsPlace(m + InitialControlCells() + ArcTriple(InitialArcs(n, e0, e1)) + FinalControlCells(), FinalOf(b, prefix(2)))
  {
    var m := Merged(a, b, prefix);
    var e0, e1 := InitialOf(a, prefix(1)), InitialOf(b, prefix(2));
    var rest := InitialControlCells() + ArcTriple(InitialArcs(n, e0, e1)) + FinalControlCells();
    assert m + InitialControlCells() + ArcTriple(InitialArcs(n, e0, e1)) + FinalControlCells() == m + rest;
    CloneLookup(Initial, a, b, prefix, 1, InitialControlCells());
    CloneLookup(Initial, a, b, prefix, 2, InitialControlCells());
    CloneLookup(Final, a, b, prefix, 1, rest);
    CloneLookup(Final, a, b, prefix, 2, rest);
  }
}
