# NodeData: one vertex of a directed weighted graph

This project models `NodeData`, the vertex class of a directed weighted graph
library, together with its nested edge record `EdgeNode`. A vertex carries a
key, two scratch fields (`tag`, `info`), a scratch `weight`, an optional
location, and two maps. `myNeighbors` maps a neighbour's key to the neighbour.
`edges` maps a destination key to the owned outgoing edge.

The model is functional. `Vertex` and `Edge` are immutable datatypes, and every
mutator is a pure function that returns the updated vertex. A neighbour
reference is represented by the neighbour's key, so `nbrs: map<int, int>` maps
each key to itself. The location is the opaque type `Loc`, compared by value.

Modules:
- `Options`: `Option` stands for a value that may be `null`. `Lookup` reads a map the way `HashMap.get` does.
- `EdgeNode`: the edge record, its constructor, setters and `equals`.
- `NodeData`: the vertex, its constructors, `hasNi`, `getEdge`, `addNi` and `removeNode`, the setters, and the representation invariants `KeysAgree` and `WellFormed`.
- `NodeEquality`: `NodeData.equals`, including the edge-map comparison it delegates to `HashMap.equals`. That comparison is given both as a pointwise predicate and as the loop `HashMap.equals` runs.
- `NodeProperties`: properties that relate several calls. They cover the invariant over any sequence of mutations, re-weighting, removal undoing insertion, and directedness.

The code relies on an invariant it never states. `hasNi` reads `edges`, while
`addNi` and `removeNode` read `myNeighbors`. `KeysAgree` says the two key sets
are equal. `WellFormed` adds that every edge leaves this vertex towards its map
key, is not a self-loop, and has a non-negative weight. Both constructors
establish `WellFormed`, and every mutator preserves it.

`AddNi` requires `KeysAgree`. The re-weight branch finds the target through
`myNeighbors` and then dereferences the edge it expects in `edges`. Without
the invariant that dereference would be a null dereference. Every vertex that
a constructor and a sequence of mutations can produce satisfies the invariant
(`NodeProperties.ConstructedIsWellFormed`). So the requirement excludes no
vertex that the constructors, `addNi`, `removeNode` and the setters can build.
Mutation through the live views is left out, and it can break the invariant
(see below).

## Model

| member | source | states |
|---|---|---|
| EdgeNode.NewEdge | src/api/NodeData.java:270-274 | a new edge has the given endpoints and weight; its tag is 0 and its info is empty |
| EdgeNode.SetWeight | src/api/NodeData.java:338-340 | only the weight changes, with no check of its sign; the result equals the old edge iff the weight was already the same |
| EdgeNode.SetTag | src/api/NodeData.java:329-331 | only the tag changes; the result equals the old edge iff the tag was already the same |
| EdgeNode.SetInfo | src/api/NodeData.java:311-313 | only the info changes; the result equals the old edge iff the info was already the same |
| EdgeNode.Equals | src/api/NodeData.java:361-370 | comparing the five fields is the same as the argument being exactly that edge; null or another class gives false |
| EdgeNode.EqualsIsEquivalence | src/api/NodeData.java:361-370 | edge equality is reflexive, symmetric and transitive |
| EdgeNode.SetWeightLastWins | src/api/NodeData.java:338-340 | setting the weight twice leaves only the last weight |
| NodeData.NewNode | src/api/NodeData.java:42-49 | a vertex built from a key has that key, tag 0, empty info, no location and no edge to any destination, and it is well formed |
| NodeData.CopyOf | src/api/NodeData.java:57-68 | a copy keeps key, tag, info, weight and a value-equal location; its neighbour and edge maps are empty, so it has no edge to any destination |
| NodeData.HasNi | src/api/NodeData.java:175-177 | when the key sets agree, asking `edges` gives the same answer as asking `myNeighbors` |
| NodeData.GetEdge | src/api/NodeData.java:158-162 | the result is null exactly when `hasNi` is false; otherwise it is the stored edge, which in a well-formed vertex leaves this vertex towards `d` with a non-negative weight |
| NodeData.AddNi | src/api/NodeData.java:184-192 | preserves both invariants and the scalar attributes; a self-loop or negative weight changes nothing; a valid new target gets the fresh edge (key, t, w) and the edge count grows by one; an existing target keeps both key sets and only its edge's weight becomes w; all other destinations are untouched |
| NodeData.RemoveNode | src/api/NodeData.java:199-204 | preserves both invariants; afterwards `hasNi(n)` is false; a key absent from `myNeighbors` leaves the vertex unchanged; a present key shrinks both maps by one; all other destinations are untouched |
| NodeData.SetTag | src/api/NodeData.java:147-149 | only the tag changes; well-formedness is kept |
| NodeData.SetInfo | src/api/NodeData.java:129-131 | only the info changes; well-formedness is kept |
| NodeData.SetWeight | src/api/NodeData.java:110-112 | only the scratch weight changes; the edges stay as they were; well-formedness is kept |
| NodeData.SetLocation | src/api/NodeData.java:92-94 | the stored location becomes the given value and nothing else changes |
| NodeEquality.EdgeMapsEqIsEquality | src/api/NodeData.java:234 | equal sizes plus a pointwise `equals` of every receiver entry hold exactly when the two edge maps are equal |
| NodeEquality.EdgeMapsEqual | src/api/NodeData.java:234 | the size check and per-entry loop of the map comparison return true exactly when the maps are equal |
| NodeEquality.Equals | src/api/NodeData.java:225-252 | true iff the argument is a vertex with equal tag, info, key and weight, an equal edge map, and locations that are both absent or both present and equal; `myNeighbors` is ignored |
| NodeEquality.EqualsIsEquivalence | src/api/NodeData.java:225-252 | vertex equality is reflexive, symmetric and transitive |
| NodeEquality.EqualsIgnoresNeighbours | src/api/NodeData.java:225-252 | two vertices are equal iff they become identical once their neighbour maps are cleared |
| NodeEquality.CopyEqualsIffNoEdges | src/api/NodeData.java:57-68 | a copy equals its original iff the original has no edges |
| NodeEquality.CopyRespectsEquals | src/api/NodeData.java:57-68 | equal vertices have identical copies, and copying a copy changes nothing |
| NodeEquality.SettersAndEquals | src/api/NodeData.java:225-252 | each vertex setter keeps the vertex equal to its old value iff it stores the value already held |
| NodeEquality.FreshNodesEqual | src/api/NodeData.java:240-244 | two fresh vertices with the same key are equal, and giving only one of them a location makes them unequal in both directions |
| NodeProperties.ReachableIsWellFormed | src/api/NodeData.java:184-204 | any sequence of `addNi`, `removeNode` and setter calls keeps a well-formed vertex well formed and keeps its key |
| NodeProperties.ConstructedIsWellFormed | src/api/NodeData.java:42-68 | every vertex built by either constructor and then mutated is well formed |
| NodeProperties.StoredEdgesAreOutgoing | src/api/NodeData.java:185-188 | in a well-formed vertex every stored edge has this vertex as source and its map key as destination, and there is no edge to itself |
| NodeProperties.AddNiTwiceLastWins | src/api/NodeData.java:189-190 | a second valid `addNi` to the same target gives the same vertex as the second call alone, with no extra edge |
| NodeProperties.AddNiIdempotent | src/api/NodeData.java:184-192 | repeating an `addNi` with the same arguments changes nothing |
| NodeProperties.RemoveUndoesInsert | src/api/NodeData.java:184-204 | removing a target that had no edge before an `addNi` restores the original vertex |
| NodeProperties.RemoveNodeIdempotent | src/api/NodeData.java:199-204 | removing twice is the same as removing once |
| NodeProperties.RemoveNodeNeedsInvariant | src/api/NodeData.java:199-204 | if the key sets disagree, `removeNode` can leave an edge that `hasNi` still reports |
| NodeProperties.AddNiIsDirected | src/api/NodeData.java:184-188 | after vertex 5 gets an edge of weight 3.2 to vertex 7, vertex 5 holds exactly one edge, the fresh edge from 5 to 7 with that weight, and no edge towards 5 |

## Left out

- The static `id` counter and the default constructor (src/api/NodeData.java:14, 27-35). They are unsynchronised process-wide state. Keys are passed explicitly instead.
- The live collection views `getNi` and `getEd` (src/api/NodeData.java:154-156, 167-169), and aliasing through the neighbour references. In particular, an edge returned by `getEdge` cannot be changed from outside in this model. Neighbours are represented by their keys. In the source, removing through these views (for example `getEd().clear()`) can empty one map and leave the other populated, which breaks `KeysAgree`. A later `addNi` to such a neighbour then dereferences null at src/api/NodeData.java:190.
- The internals of `geo_location` and `location`. These classes are not part of this model. A location is an opaque value, and `location.equals` is taken to be value equality. The defensive copy in `setLocation` and in the copy constructor is taken to yield an equal value.
- NodeData.SetInfo: a null info is not modelled (`info` is a `string`). In the source, `setInfo(null)` is accepted and the copy constructor copies it (src/api/NodeData.java:62). `equals` then throws a NullPointerException at src/api/NodeData.java:231 when the receiver's info is null, and returns false when only the argument's info is null. The reflexivity in `NodeEquality.EqualsIsEquivalence` therefore holds only for non-null info.
- Null node arguments to `addNi` and `removeNode` are not modelled, since targets are given by key. In the source they throw a NullPointerException at src/api/NodeData.java:185 and src/api/NodeData.java:200.
- `setLocation(null)`: what `new location(null)` does is not visible, so `SetLocation` takes a present location.
- The copy constructor's `null` argument, which leaves both maps `null`. `CopyOf` takes an existing vertex.
- `double` is modelled as `real`. NaN, `-0.0` and rounding are not modelled. So the exact `!=` and `==` comparisons in both `equals` methods behave as on reals, and equality is reflexive for every weight.
- Java `int` keys and tags are unbounded `int`s. The core does no arithmetic on them except the omitted `id++`.
- `toString`, `Serializable`, and the getters of both classes. The getters are the datatype fields.
- `hashCode`, which neither class overrides. The Java hash-based containers' contract is outside this model.
