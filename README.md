# WoLFed Petri-net core in Dafny

WoLFed edits workflow nets (Petri nets with one initial and one final place) and composes them
with operations. This project models three parts of it and how two of them compose:

- **`PetriNetGraph`** (module `Graph`, over the value model in module `Net`). A graph holds its
  cells and four id counters:
  - the cells are vertices (Place, Transition, Interface) and arcs, kept in child order;
  - the counters produce the ids `p<n>`, `t<n>`, `a<n>` and `i<n>`.

  The mutators `insertPlace`, `insertTransition` and `insertArc` are methods that change the
  graph in place. The queries loop over the vertices and are proved to compute functions of
  the cells:
  - initial and final places;
  - the single-place tests;
  - lookup by id;
  - the "not connected to the final place" set;
  - the workflow-net test.

  The pnml import `factory` is modelled over abstract element records. Its counters follow
  the element counts, which can hand out an imported id again (see "## Findings");
  `SyncedFactory` is the variant whose counters are proved to stay ahead of the imported ids.
- **`MergeGraphsOperation`** (module `Merge`). It clones every cell of every input graph into
  the output graph, in list order and child order. Input `i` is cloned under the prefix
  `getPrefix(i + 1)`, and each arc's terminals are looked up in the output under the prefixed
  ids. Module `Renaming` holds the pure prefix renaming that such a clone amounts to when an
  input lists its vertices before its arcs.
- **`ParallelismOperation`** (module `Parallelism`). It adds the AND-split / AND-join pattern:
  - a new place "initial" feeds a transition "AND-split", which feeds the clones of both
    inputs' initial places;
  - the clones of both inputs' final places feed a transition "AND-join", which feeds a new
    place "final".

  It is proved that the result has exactly one initial place, "initial", and exactly one final
  place, "final".
- **Composition** (module `Composition`) joins the two operations as the parallel pattern uses
  them. The output holds the merge of two inputs, and then the parallelism adds its pattern.
  For that case it proves:
  - when both inputs are workflow nets, the result is a workflow net, whose initial place is
    "initial" and whose final place is "final";
  - everything either input reaches from its initial place, the result reaches from "initial";
  - no arc joins a clone from one input to a clone from the other;
  - when each input's vertex ids are unique, every lookup of the operation finds a Place.

  These results hold under two conditions. The prefix scheme must be prefix-free, and no
  control id may start with a prefix (the decimal scheme meets both). Each input must also list
  every arc after the vertices it joins, which is how `MergeAll` reduces to the two renamings.

Modules `Wrappers` (an `Option` type) and `Ids` support the rest. `Ids` holds:
- the decimal rendering behind the generated ids;
- `String.trim`;
- prefix-free prefix schemes.

How the model stands in for the code:

- A vertex is identified by its id.
- An arc records its source and target by vertex id. A terminal is `None` where the code
  would hold `null`, that is, where a lookup found no vertex.
- The degree of an id is the number of arcs ending (or starting) at it, loops left out: an
  arc whose source is its target counts toward neither degree. This is what JGraphX's
  `getIncomingEdges(v).length` and `getOutgoingEdges(v).length` return, since both leave
  loops out. The import and the merge can produce such arcs; `insertArc` cannot.
- The path search `getShortestPath` is used only to test whether a path exists, so it is
  modelled as directed reachability within as many steps as there are vertices.
- The `Operation` base class is not part of this model:
  - `getPrefix` is a parameter `prefix: nat -> string`;
  - properties that need distinct inputs to get distinct ids assume `PrefixFree(prefix)`;
  - `DecimalPrefixIsPrefixFree` shows that the scheme "1.", "2.", … satisfies that
    assumption;
  - `getEquivalentVertex(net_k, v)` is the output vertex whose id is `prefix(k) + v.id`.

Where the doc comments and the code disagree, the model follows the code. The doc comments of
`getInitialPlaces` and `getFinalPlaces` say "> 1" outgoing (incoming) arcs, but the code tests
`> 0` (`src/it/wolfed/model/PetriNetGraph.java:411-412`, `:440-441`), and the model uses `> 0`.

## Model

| member | source | states |
|---|---|---|
| `Ids.GeneratedIdsDistinct` | src/it/wolfed/model/PetriNetGraph.java:201-235 | two generated ids are equal exactly when they come from the same counter letter and the same counter value, so one generator never repeats an id and two generators never collide |
| `Ids.NatToStringInjective` | src/it/wolfed/model/PetriNetGraph.java:203 | different counter values render as different decimal strings |
| `Ids.TrimIsSlice` | src/it/wolfed/model/PetriNetGraph.java:113-114 | the trimmed attribute is a slice of the raw one; everything cut off is at most U+0020; a non-empty result starts and ends above U+0020 |
| `Ids.DecimalPrefixIsPrefixFree` | src/it/wolfed/operations/MergeGraphsOperation.java:53 | the decimal prefix scheme "1.", "2.", … is prefix-free |
| `Ids.PrefixedIdsDistinct` | src/it/wolfed/operations/MergeGraphsOperation.java:53-76 | under a prefix-free scheme, a prefixed id determines both the input position and the original id |
| `Net.AppendCell` | src/it/wolfed/model/PetriNetGraph.java:488-538 | adding a vertex cell adds that vertex and no arc; adding an arc cell adds that arc and leaves the vertices unchanged |
| `Net.BoundaryPlacesMembership` | src/it/wolfed/model/PetriNetGraph.java:403-449 | a vertex is listed as initial (final) exactly when it is a Place of the graph with no incoming (outgoing) and at least one outgoing (incoming) arc, loops not counted; so an isolated place and every Transition or Interface are never listed |
| `Net.LoopAddsNoDegree` | src/it/wolfed/model/PetriNetGraph.java:411-412 | an arc from an id to itself adds to neither degree of any id, as the JGraphX edge queries leave loops out |
| `Net.LoopedPlaceIsInitial` | src/it/wolfed/model/PetriNetGraph.java:409-415 | a place with a loop on itself and one arc out of it is an initial place |
| `Net.InitialIsNotFinal` | src/it/wolfed/model/PetriNetGraph.java:403-449 | an initial place and a final place of the same arcs never share an id |
| `Net.VertexByIdFound` | src/it/wolfed/model/PetriNetGraph.java:375-391 | the lookup finds a vertex exactly when some vertex has the id, and what it finds is a vertex of the graph with that id |
| `Net.VertexByIdExtend` | src/it/wolfed/model/PetriNetGraph.java:375-391 | cells added after a vertex with the id do not change what the lookup returns |
| `Net.WorkflowCharacterized` | src/it/wolfed/model/PetriNetGraph.java:287-367 | a graph is a workflow net exactly when it has one initial place and one final place f, every Place or Transition other than f has a path to f, and every Transition has an incoming arc that is not a loop |
| `Net.ReachesWithinMonotone` | src/it/wolfed/model/PetriNetGraph.java:336-344 | a path stays a path when arcs are added or the step bound grows |
| `Net.ReachesWithinTrans` | src/it/wolfed/model/PetriNetGraph.java:336-344 | paths compose, with the bounds adding up |
| `Graph.NetId` | src/it/wolfed/model/PetriNetGraph.java:113-120 | the net id is the default id, or else a non-empty slice of the id attribute, other than "noID", that neither starts nor ends with a character the trim removes |
| `Graph.PetriNetGraph.constructor` | src/it/wolfed/model/PetriNetGraph.java:83-92 | a new graph has the given id, no type yet, no cells and all counters at 0 |
| `Graph.PetriNetGraph.SetType` | src/it/wolfed/model/PetriNetGraph.java:191-194 | only the type changes, to the given value |
| `Graph.PetriNetGraph.AddCell` | src/it/wolfed/model/PetriNetGraph.java:139 | the given cell becomes the graph's last cell and nothing else changes, as the library insertion the import and the merge call |
| `Graph.PetriNetGraph.NextIndexPlaces` | src/it/wolfed/model/PetriNetGraph.java:201-204 | only the place counter changes, by exactly one, and the result is "p" followed by its new value |
| `Graph.PetriNetGraph.NextIndexTransition` | src/it/wolfed/model/PetriNetGraph.java:211-214 | only the transition counter changes, by exactly one, and the result is "t" followed by its new value |
| `Graph.PetriNetGraph.NextIndexArcs` | src/it/wolfed/model/PetriNetGraph.java:222-225 | only the arc counter changes, by exactly one, and the result is "a" followed by its new value |
| `Graph.PetriNetGraph.NextIndexInterfaces` | src/it/wolfed/model/PetriNetGraph.java:232-235 | only the interface counter changes, by exactly one, and the result is "i" followed by its new value |
| `Graph.PetriNetGraph.InsertPlace` | src/it/wolfed/model/PetriNetGraph.java:488-496 | one Place is appended whose id and label are equal; a missing id consumes exactly one place index and is "p" plus the new counter; a given id is used as is and leaves the counter alone |
| `Graph.PetriNetGraph.InsertTransition` | src/it/wolfed/model/PetriNetGraph.java:506-514 | the same for a Transition and the transition counter |
| `Graph.PetriNetGraph.InsertArc` | src/it/wolfed/model/PetriNetGraph.java:526-538 | exactly one arc is appended, with an empty label, from the source's id to the target's id; a missing id consumes exactly one arc index |
| `Graph.PetriNetGraph.GetInitialPlaces` | src/it/wolfed/model/PetriNetGraph.java:403-424 | the loop returns the initial places in store order |
| `Graph.PetriNetGraph.GetFinalPlaces` | src/it/wolfed/model/PetriNetGraph.java:432-449 | the loop returns the final places in store order |
| `Graph.PetriNetGraph.IsSingleInitialPlace` | src/it/wolfed/model/PetriNetGraph.java:267-270 | true exactly when there is one initial place |
| `Graph.PetriNetGraph.IsSingleFinalPlace` | src/it/wolfed/model/PetriNetGraph.java:277-280 | true exactly when there is one final place |
| `Graph.PetriNetGraph.GetNotConnectedVertices` | src/it/wolfed/model/PetriNetGraph.java:323-367 | the set holds only vertices of the graph and never an Interface; it holds every Transition without incoming arcs other than loops (the target included) and every Place or Transition other than the target with no path to it |
| `Graph.PetriNetGraph.IsWorkflowStronglyConnected` | src/it/wolfed/model/PetriNetGraph.java:287-298 | false unless there is exactly one initial and one final place; otherwise true exactly when nothing is not connected to that final place |
| `Graph.PetriNetGraph.IsWorkFlow` | src/it/wolfed/model/PetriNetGraph.java:311-315 | the same value as the strong-connection test |
| `Graph.PetriNetGraph.GetVertexById` | src/it/wolfed/model/PetriNetGraph.java:375-391 | the first vertex in store order with the id, or none exactly when no vertex has it; nothing changes |
| `Graph.PetriNetGraph.ImportChild` | src/it/wolfed/model/PetriNetGraph.java:134-154 | a place or transition element adds its vertex and advances its own counter by one; an arc element adds an arc whose terminals are looked up among the cells already there; any other node adds nothing |
| `Graph.PetriNetGraph.ImportChildren` | src/it/wolfed/model/PetriNetGraph.java:132-156 | after the loop the cells are the imported cells of all children in document order, and the place and transition counters equal the numbers of place and transition elements |
| `Graph.PetriNetGraph.Factory` | src/it/wolfed/model/PetriNetGraph.java:110-163 | a fresh graph with the fallback id, the trimmed type, the imported cells, counters synchronised with the imported places and transitions, and arc and interface counters at 0 |
| `Graph.GeneratedPlaceIsFresh` | src/it/wolfed/model/PetriNetGraph.java:488-496 | when the counters are ahead of every generated-looking id, a place inserted without an id gets an id no vertex has, and ids stay unique and counters ahead |
| `Graph.GeneratedTransitionIsFresh` | src/it/wolfed/model/PetriNetGraph.java:506-514 | the same for a transition inserted without an id |
| `Graph.GeneratedArcIsFresh` | src/it/wolfed/model/PetriNetGraph.java:526-538 | an arc inserted without an id gets an id no arc has, and ids stay unique and counters ahead |
| `Graph.ImportCountsMatch` | src/it/wolfed/model/PetriNetGraph.java:138-146 | after the import the place (transition) counter equals the number of Places (Transitions) in the graph |
| `Ids.DecimalValueOfNatToString` | src/it/wolfed/model/PetriNetGraph.java:203 | reading the decimal rendering of a counter value back gives the value |
| `Ids.GeneratedIndexOf` | src/it/wolfed/model/PetriNetGraph.java:201-235 | the counter value behind a generated id is the value it was generated from |
| `Graph.FactoryCountersBehind` | src/it/wolfed/model/PetriNetGraph.java:138-141 | as written, a net whose only place is "p2" imports with the place counter at 1, so the next generated place id "p2" is already in use and the counters are not ahead of the graph |
| `Graph.MaxVertexIndex` | src/it/wolfed/model/PetriNetGraph.java:138-146 | no vertex carries a generated-looking id with a larger counter value than the result |
| `Graph.MaxArcIndex` | src/it/wolfed/model/PetriNetGraph.java:148-153 | no arc carries a generated-looking id with a larger counter value than the result |
| `Graph.SyncedCountersAhead` | src/it/wolfed/model/PetriNetGraph.java:138-146 | counters at or above the largest generated-looking id of their kind are ahead of the graph, so the generators hand out unused ids |
| `Graph.PetriNetGraph.SyncCounters` | src/it/wolfed/model/PetriNetGraph.java:138-146 | each counter becomes the larger of its value and the largest generated-looking id of its kind, and the counters end ahead of the graph |
| `Graph.PetriNetGraph.SyncedFactory` | src/it/wolfed/model/PetriNetGraph.java:110-163 | the factory's graph, with counters no lower than the element counts and ahead of every imported generated-looking id |
| `Graph.ImportIsOrdered` | src/it/wolfed/model/PetriNetGraph.java:148-153 | when every arc element comes after the vertices it names, every imported arc has both terminals set to vertices imported before it |
| `Renaming.PrefixCancels` | src/it/wolfed/operations/MergeGraphsOperation.java:53-76 | prefixing two ids with the same prefix keeps them equal or apart exactly as before |
| `Renaming.RenamedParts` | src/it/wolfed/operations/MergeGraphsOperation.java:51-77 | the vertices (arcs) of a renamed store are the renamed vertices (arcs), in order |
| `Renaming.RenamedDegrees` | src/it/wolfed/operations/MergeGraphsOperation.java:65-77 | a renamed id has exactly the in- and out-degree the original id had |
| `Renaming.ForeignDegrees` | src/it/wolfed/operations/MergeGraphsOperation.java:65-77 | an id that does not start with the prefix has no renamed arc at either end |
| `Renaming.RenamedReaches` | src/it/wolfed/operations/MergeGraphsOperation.java:65-77 | a path between two renamed ids exists exactly when one exists between the original ids, with the same bound |
| `Renaming.RenamedBoundaryPlaces` | src/it/wolfed/operations/MergeGraphsOperation.java:51-77 | the initial (final) places of a renamed store are the renamed initial (final) places |
| `Renaming.RenamedDisconnected` | src/it/wolfed/operations/MergeGraphsOperation.java:51-77 | renaming neither makes nor breaks the connection of a vertex to a target |
| `Renaming.RenamingPreservesWorkflow` | src/it/wolfed/operations/MergeGraphsOperation.java:51-77 | a renamed net is a workflow net exactly when the original is one |
| `Merge.CloneCells` | src/it/wolfed/operations/MergeGraphsOperation.java:47-84 | cloning one input adds exactly one cell per input cell |
| `Merge.MergeAll` | src/it/wolfed/operations/MergeGraphsOperation.java:43-85 | the merge adds exactly one cell per input cell over all inputs, and the cells already in the output stay in place |
| `Merge.ClonedVertices` | src/it/wolfed/operations/MergeGraphsOperation.java:51-62 | the vertices a clone adds are the input's vertices with the same kinds and labels and prefixed ids, in child order, whatever the output already held |
| `Merge.ClonedArc` | src/it/wolfed/operations/MergeGraphsOperation.java:65-77 | the clone of an arc has the prefixed id and the same label; each terminal is set exactly when a vertex with the prefixed terminal id is in the output by then (already there or cloned earlier from the same input), and then it is that id |
| `Merge.OrderedCloneIsRenaming` | src/it/wolfed/operations/MergeGraphsOperation.java:47-83 | when every arc of the input comes after the vertices it joins, every terminal resolves and the clone is the prefix renaming of the input |
| `Merge.ClonedIdsCarryPrefix` | src/it/wolfed/operations/MergeGraphsOperation.java:68-76 | every id a clone produces, and every terminal it sets, starts with the input's prefix |
| `Merge.NoCrossInputArcs` | src/it/wolfed/operations/MergeGraphsOperation.java:68-72 | with a prefix-free scheme, no arc cloned from one input ends at a vertex cloned from another input |
| `Merge.SingleInputIsRenaming` | src/it/wolfed/operations/MergeGraphsOperation.java:43-84 | one input with its vertices before its arcs merges into the input with every id prefixed: same vertex and arc counts, kinds and labels, same degrees and paths between prefixed ids, workflow net exactly when the input is one |
| `Merge.MergeGraphsOperation.constructor` | src/it/wolfed/operations/MergeGraphsOperation.java:29-35 | stores the output and the input list and runs the merge at once |
| `Merge.MergeGraphsOperation.AddClone` | src/it/wolfed/operations/MergeGraphsOperation.java:49-83 | the clone of one input cell, made against the output as it stands, becomes the output's last cell |
| `Merge.MergeGraphsOperation.Process` | src/it/wolfed/operations/MergeGraphsOperation.java:37-86 | the output becomes the merge of its old cells with the inputs' cells; the inputs are only read and the output's id counters do not move |
| `Parallelism.ParallelParts` | src/it/wolfed/operations/ParallelismOperation.java:57-92 | the operation adds exactly the four control vertices after the existing vertices, and exactly the six arcs after the existing arcs |
| `Parallelism.InitialArcDegrees` | src/it/wolfed/operations/ParallelismOperation.java:69-71 | the initial arcs give "initial" one outgoing arc, "AND-split" one incoming and two outgoing arcs, and each cloned initial place one incoming arc; an arc whose clone id is "AND-split" is a loop and counts for neither end |
| `Parallelism.FinalArcDegrees` | src/it/wolfed/operations/ParallelismOperation.java:88-90 | the final arcs give "final" one incoming arc, "AND-join" two incoming and one outgoing arcs, and each cloned final place one outgoing arc; an arc whose clone id is "AND-join" is a loop and counts for neither end |
| `Parallelism.ParallelDegrees` | src/it/wolfed/operations/ParallelismOperation.java:57-92 | the degree of every id in the result is its old degree plus what the six arcs add, loops not counted, and ids other than the controls and the four clones gain nothing |
| `Parallelism.ParallelArcEnds` | src/it/wolfed/operations/ParallelismOperation.java:57-92 | when no control id starts with either input's prefix, no added arc joins an id under one prefix with an id under the other, in either direction |
| `Parallelism.ConsecutiveIdsDistinct` | src/it/wolfed/model/PetriNetGraph.java:222-225 | arcs with consecutive generated arc ids have pairwise distinct ids |
| `Parallelism.ParallelArcIds` | src/it/wolfed/operations/ParallelismOperation.java:57-92 | the six added arcs carry the next six arc ids in insertion order, pairwise distinct |
| `Parallelism.OldVertexNotBoundary` | src/it/wolfed/operations/ParallelismOperation.java:57-92 | when the inputs' clones were the only boundary places, no vertex that was there before is an initial or final place of the result |
| `Parallelism.ControlDegrees` | src/it/wolfed/operations/ParallelismOperation.java:57-92 | "initial" ends with in-degree 0 and out-degree 1, "final" with out-degree 0 and in-degree 1 |
| `Parallelism.ControlsBoundary` | src/it/wolfed/operations/ParallelismOperation.java:57-92 | among the four control vertices, "initial" is the only initial place and "final" the only final place |
| `Parallelism.ParallelBoundary` | src/it/wolfed/operations/ParallelismOperation.java:27-92 | when the clones of the inputs' initial and final places were the only boundary places and no control id was in use, the result has exactly one initial place, "initial", and exactly one final place, "final" |
| `Parallelism.ParallelismOperation.constructor` | src/it/wolfed/operations/ParallelismOperation.java:11-13 | the operation takes exactly two inputs and stores them with the output graph and the prefix scheme |
| `Parallelism.ParallelismOperation.GetEquivalentVertex` | src/it/wolfed/operations/ParallelismOperation.java:65-66 | the output vertex found under the prefixed id of the input vertex, or none |
| `Parallelism.ParallelismOperation.InsertInitialPattern` | src/it/wolfed/operations/ParallelismOperation.java:57-72 | appends "initial", "AND-split" and then the arcs initial → AND-split, AND-split → clone of input 0's initial place, AND-split → clone of input 1's initial place; the arc counter rises by 3, the others stay |
| `Parallelism.ParallelismOperation.InsertFinalPattern` | src/it/wolfed/operations/ParallelismOperation.java:78-92 | appends "final", "AND-join" and then the arcs AND-join → final, clone of input 0's final place → AND-join, clone of input 1's final place → AND-join; the arc counter rises by 3, the others stay |
| `Parallelism.ParallelismOperation.Process` | src/it/wolfed/operations/ParallelismOperation.java:27-49 | the initial part, then the final part: the output gains the four control vertices and six arcs in that order, the arc counter rises by 6 and the place and transition counters do not move |
| `Composition.DecimalPrefixOutsideControls` | src/it/wolfed/operations/MergeGraphsOperation.java:53 | no decimal prefix starts a control id ("initial", "final", "AND-split", "AND-join") |
| `Composition.MergeOfTwo` | src/it/wolfed/operations/MergeGraphsOperation.java:43-84 | merging two inputs whose arcs come after their vertices into an empty output gives input 0 renamed by prefix 1, then input 1 renamed by prefix 2 |
| `Composition.MergedDegrees` | src/it/wolfed/operations/MergeGraphsOperation.java:65-77 | in the merge of two inputs, a prefixed id has exactly the in- and out-degree the id has in its own input |
| `Composition.MergedBoundary` | src/it/wolfed/operations/MergeGraphsOperation.java:43-84 | the initial (final) places of the merge are the clones of input 0's, then the clones of input 1's |
| `Composition.MergedControlFree` | src/it/wolfed/operations/MergeGraphsOperation.java:51-77 | no vertex id or arc terminal of the merge is a control id |
| `Composition.ComposedBoundary` | src/it/wolfed/operations/ParallelismOperation.java:27-92 | on the merge of two nets with one initial and one final place each, the parallelism leaves "initial" as the only initial place and "final" as the only final place |
| `Composition.ComposedReachesFinal` | src/it/wolfed/operations/ParallelismOperation.java:57-92 | in the composition of two workflow nets, every Place or Transition other than "final" has a path to "final" |
| `Composition.ComposedTransitionFed` | src/it/wolfed/operations/ParallelismOperation.java:57-92 | in the composition of two workflow nets, every Transition has an incoming arc that is not a loop |
| `Composition.ComposedIsWorkflow` | src/it/wolfed/operations/ParallelismOperation.java:27-92 | the parallel composition of two workflow nets is a workflow net whose initial place is "initial" and whose final place is "final" |
| `Composition.ComposedReachesBodies` | src/it/wolfed/operations/ParallelismOperation.java:57-72 | whatever either input reaches from its initial place within k steps, the composition reaches from "initial" under that input's prefix within k + 2 steps |
| `Composition.ComposedReachesBodiesFromInitial` | src/it/wolfed/operations/ParallelismOperation.java:57-72 | every vertex the path search of either input finds from its initial place, the path search of the composition finds from "initial", so both bodies hang off the new initial place |
| `Composition.ComposedArcSides` | src/it/wolfed/operations/ParallelismOperation.java:57-92 | every arc of the composition has both ends under one input's prefix or at control vertices |
| `Composition.BodiesNotJoined` | src/it/wolfed/operations/ParallelismOperation.java:27-92 | no arc of the composition joins a clone of a vertex of input 0 with a clone of a vertex of input 1, in either direction |
| `Composition.ComposedLookups` | src/it/wolfed/operations/ParallelismOperation.java:57-92 | when each input's vertex ids are unique, the four lookups of the operation on the merged output find Places, so the operation's preconditions hold |

## Left out

- The Swing editor, tooltips and cell selection are not part of this model. They are
  presentation only. File I/O and layout are left out for the same reason.
- JGraphX plumbing is left out: the graph's configuration flags, model update brackets and
  default parent. The cost function of `getShortestPath` is also left out, because only the
  existence of a path is used.
- The pnml DOM is left out. Each child node is an `Element` record holding a kind, an id, a
  label and the arc terminal ids. `PlaceVertex.factory`, `TransitionVertex.factory` and
  `ArcEdge.factory` are not part of this model.
- The `Operation` base class is not part of this model:
  - `getPrefix` is a parameter;
  - `getEquivalentVertex` is the lookup of the prefixed id;
  - `execute` and `validate` are left out;
  - the arity check of `super("par", inputGraphs, 2, true)` is the constructor's
    `|inputGraphs| == 2` precondition;
  - how the base builds the parallelism's output graph is not modelled: the output graph is
    given. The composition results assume that it holds the merge of the two inputs.
- The counters are unbounded naturals. The 32-bit overflow of Java `int` after 2^31 − 1 ids is
  not modelled.
- Vertex positions and the `ArcEdge` source and target id fields are left out. The
  positions are cosmetic. The modelled code reads the id fields only for the import's
  lookups, and `Element` carries those ids. The model records only the terminals. The fields
  and the terminals can differ: a merge clone is made without id fields but gets its terminals
  set, and an imported arc whose lookup fails keeps its pnml ids while its terminal is `null`.
- Vertices are compared by id. `getNotConnectedVertices` compares cells by object identity
  (`cell != target`), and that differs only when two vertices share an id.
- `Graph.PetriNetGraph.InsertArc`: requires a Place–Transition arc. The code does not check
  this rule itself, and the model states it as a precondition.
- `Merge.MergeGraphsOperation.Process`: these preconditions stand in for behaviour the model
  does not reproduce:
  - the output graph must not be one of the inputs, because the code's loop over a graph it
    is also growing is not modelled;
  - every input arc must have both terminals set, because the code reads `getSource().getId()`
    and would throw on a dangling arc.
- The `else` branch of the merge loop is unreachable with the closed cell datatype.
- Vertex ids may repeat in the model: an explicit id passed to `insertPlace` or
  `insertTransition`, a merge clone, or a control id such as "initial" can equal an id in use,
  and vertex ids and arc ids are kept apart. The lookup by id then returns the first match.
  JGraphX renames a cell whose id collides with one already in the model; that renaming is
  not part of this model.
- Place markings (token counts) are not modelled. None of the modelled operations reads or
  changes them.
- The commented-out body of `ParallelismOperation.process` is left out.
- `Parallelism.ParallelismOperation.InsertInitialPattern`: requires that both inputs have an
  initial place and that the lookups of their clones find Places. When a list is empty or a
  lookup finds nothing, the code throws: the list index is out of range, or `insertArc` reads
  the id of a `null` vertex. When a lookup finds a Transition or an Interface, the code adds a
  non-bipartite arc without complaint; the model excludes that case through `InsertArc`'s
  bipartite precondition. `InsertFinalPattern` and
  `Process` carry the same requirements for final places.

## Findings

| source | as written | input that shows it | evidently intended | confidence | as-written member | corrected member |
|---|---|---|---|---|---|---|
| src/it/wolfed/model/PetriNetGraph.java:138-146 | the import advances the place and transition counters once per imported element and leaves the arc and interface counters at 0 | a net whose only child is a place with id "p2": the place counter ends at 1, so `insertPlace(null)` produces "p2" a second time | every counter ends ahead of the imported ids of its kind, so the generators never repeat an id | medium, not executed | `Graph.FactoryCountersBehind` | `Graph.SyncedCountersAhead` |
