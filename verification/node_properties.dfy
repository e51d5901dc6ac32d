/** Properties of `NodeData` that relate several operations: the key-set
    invariant over any sequence of mutations, re-weighting without
    duplication, removal undoing an insertion, and directedness. */
module NodeProperties {
  import opened Options
  import EdgeNode
  import opened NodeData

  /** A mutation a graph applies to one of its vertices. */
  datatype Op =
    | AddNiOp(t: int, w: real)
    | RemoveNodeOp(n: int)
    | SetTagOp(tag: int)
    | SetInfoOp(info: string)
    | SetWeightOp(weight: real)
    | SetLocationOp(p: Loc)

  function Apply(v: Vertex, op: Op): (r: Vertex)
    requires KeysAgree(v)
    ensures KeysAgree(r)
    ensures r.key == v.key
  {
    match op
    case AddNiOp(t, w) => AddNi(v, t, w)
    case RemoveNodeOp(n) => RemoveNode(v, n)
    case SetTagOp(t) => SetTag(v, t)
    case SetInfoOp(s) => SetInfo(v, s)
    case SetWeightOp(w) => NodeData.SetWeight(v, w)
    case SetLocationOp(p) => SetLocation(v, p)
  }

  /** Applies the mutations left to right. */
  function ApplyAll(v: Vertex, ops: seq<Op>): (r: Vertex)
    requires KeysAgree(v)
    ensures KeysAgree(r)
    decreases |ops|
  {
    if ops == [] then v else ApplyAll(Apply(v, ops[0]), ops[1..])
  }

  /** Every vertex reachable from a constructor through any sequence of
      mutations is well formed: the key sets of `myNeighbors` and `edges`
      agree, and every edge leaves this vertex towards its map key with a
      non-negative weight. */
  lemma {:induction false} ReachableIsWellFormed(v: Vertex, ops: seq<Op>)
    requires WellFormed(v)
    ensures WellFormed(ApplyAll(v, ops))
    ensures ApplyAll(v, ops).key == v.key
    decreases |ops|
  {
    if ops != [] {
      ReachableIsWellFormed(Apply(v, ops[0]), ops[1..]);
    }
  }

  /** The invariant starts at both constructors, so it holds of every vertex
      built by a constructor followed by `addNi`, `removeNode` and the setters. */
  lemma ConstructedIsWellFormed(k: int, n: Vertex, ops: seq<Op>)
    ensures WellFormed(ApplyAll(NewNode(k), ops))
    ensures WellFormed(ApplyAll(CopyOf(n), ops))
  {
    ReachableIsWellFormed(NewNode(k), ops);
    ReachableIsWellFormed(CopyOf(n), ops);
  }

  /** In a well-formed vertex every stored edge has this vertex as source and
      its map key as destination, and there is never an edge to itself. */
  lemma StoredEdgesAreOutgoing(v: Vertex, d: int)
    requires WellFormed(v)
    ensures HasNi(v, d) ==> GetEdge(v, d).value.src == v.key && GetEdge(v, d).value.dest == d
    ensures !HasNi(v, v.key)
  {
  }

  /** Re-weighting: a second `addNi` to the same target replaces the weight
      of the one edge instead of adding another; the last weight wins and the
      number of edges does not change. */
  lemma AddNiTwiceLastWins(v: Vertex, t: int, w1: real, w2: real)
    requires KeysAgree(v)
    requires t != v.key && w1 >= 0.0 && w2 >= 0.0
    ensures AddNi(AddNi(v, t, w1), t, w2) == AddNi(v, t, w2)
    ensures |AddNi(AddNi(v, t, w1), t, w2).edges| == |AddNi(v, t, w1).edges|
  {
  }

  /** Repeating a valid `addNi` with the same weight changes nothing. */
  lemma AddNiIdempotent(v: Vertex, t: int, w: real)
    requires KeysAgree(v)
    ensures AddNi(AddNi(v, t, w), t, w) == AddNi(v, t, w)
  {
  }

  /** Removing a destination that was just inserted restores the vertex. */
  lemma RemoveUndoesInsert(v: Vertex, t: int, w: real)
    requires KeysAgree(v) && !HasNi(v, t)
    ensures RemoveNode(AddNi(v, t, w), t) == v
  {
  }

  /** Removing twice is removing once. */
  lemma RemoveNodeIdempotent(v: Vertex, n: int)
    requires KeysAgree(v)
    ensures RemoveNode(RemoveNode(v, n), n) == RemoveNode(v, n)
  {
  }

  /** Without the key-set invariant `removeNode` can leave an edge behind:
      it consults `myNeighbors` while `hasNi` consults `edges`. */
  lemma RemoveNodeNeedsInvariant(e: Edge)
    ensures var v := Vertex(1, 0, "", 0.0, None, map[], map[2 := e]);
            !KeysAgree(v) && HasNi(RemoveNode(v, 2), 2)
  {
    var v := Vertex(1, 0, "", 0.0, None, map[], map[2 := e]);
    assert 2 in v.edges && 2 !in v.nbrs;
    assert RemoveNode(v, 2) == v;
  }

  /** Edges are directed: the concrete case of vertex 5 gaining an edge of
      weight 3.2 to vertex 7 stores one edge leading from 5 to 7, and none
      towards 5. The target vertex is a separate value that `AddNi` never
      touches, so it gains no edge back by construction. */
  lemma AddNiIsDirected()
    ensures var v1 := AddNi(NewNode(5), 7, 3.2);
            HasNi(v1, 7) && GetEdge(v1, 7) == Some(EdgeNode.Edge(5, 7, 3.2, 0, "")) &&
            !HasNi(v1, 5) && |v1.edges| == 1
  {
  }
}
