/** One vertex of a directed weighted graph with its adjacency bookkeeping
    (the `NodeData` class). A neighbour reference is represented by the
    neighbour's key; the graph that owns all vertices is not part of this model. */
module NodeData {
  import opened Options
  import EdgeNode
  type Edge = EdgeNode.Edge

  /** A geographic location, opaque here: only stored, copied and compared. */
  type Loc(==)

  /** The vertex. `nbrs` stands for `myNeighbors` (neighbour key to the
      neighbour, given by its key) and `edges` for the owned outgoing edges,
      keyed by destination. */
  datatype Vertex = Vertex(
    key: int,
    tag: int,
    info: string,
    weight: real,
    loc: Option<Loc>,
    nbrs: map<int, int>,
    edges: map<int, Edge>)

  /** The invariant the class relies on without stating it: a destination is
      in `myNeighbors` exactly when it is in `edges`. */
  predicate KeysAgree(v: Vertex) {
    v.nbrs.Keys == v.edges.Keys
  }

  /** An edge stored under `dest` in the vertex with key `src`, as `addNi`
      creates it: no self-loop and a non-negative weight. */
  predicate Outgoing(e: Edge, src: int, dest: int) {
    e.src == src && e.dest == dest && src != dest && e.weight >= 0.0
  }

  /** The full representation invariant: the key sets agree, every neighbour
      entry refers to the vertex with that key, and every stored edge leaves
      this vertex towards its map key. */
  predicate WellFormed(v: Vertex) {
    && KeysAgree(v)
    && (forall d :: d in v.nbrs ==> v.nbrs[d] == d)
    && (forall d :: d in v.edges ==> Outgoing(v.edges[d], v.key, d))
  }

  /** The scalar attributes and the location agree; connectivity aside. */
  predicate SameAttributes(a: Vertex, b: Vertex) {
    a.key == b.key && a.tag == b.tag && a.info == b.info && a.weight == b.weight && a.loc == b.loc
  }

  /** `NodeData(int k)`: the given key, default attributes, no location and
      no connectivity. */
  function NewNode(k: int): (v: Vertex)
    ensures v.key == k && v.tag == 0 && v.info == "" && v.weight == 0.0 && v.loc == None
    ensures forall d :: !HasNi(v, d) && GetEdge(v, d) == None
    ensures WellFormed(v)
  {
    Vertex(k, 0, "", 0.0, None, map[], map[])
  }

  /** The copy constructor `NodeData(node_data)` on a non-null node: the
      scalar attributes and (a value-equal copy of) the location are taken
      over, connectivity deliberately is not. */
  function CopyOf(n: Vertex): (v: Vertex)
    ensures SameAttributes(v, n)
    ensures forall d :: !HasNi(v, d) && GetEdge(v, d) == None
    ensures v.nbrs == map[] && v.edges == map[]
    ensures WellFormed(v)
  {
    Vertex(n.key, n.tag, n.info, n.weight, n.loc, map[], map[])
  }

  /** `hasNi`: membership is decided by `edges`, although `addNi` and
      `removeNode` consult `myNeighbors`; the two agree under the invariant. */
  predicate HasNi(v: Vertex, d: int)
    ensures KeysAgree(v) ==> (HasNi(v, d) <==> d in v.nbrs)
  {
    d in v.edges
  }

  /** `getEdge`: the stored edge to `d`, or `None` (null) when there is none. */
  function GetEdge(v: Vertex, d: int): (r: Option<Edge>)
    ensures r.None? <==> !HasNi(v, d)
    ensures r.Some? ==> Some(r.value) == Lookup(v.edges, d)
    ensures WellFormed(v) && r.Some? ==> Outgoing(r.value, v.key, d)
  {
    if HasNi(v, d) then Some(v.edges[d]) else None
  }

  /** `addNi(t, w)` with `t` given by its key. A new target gets a neighbour
      entry and a fresh edge; an existing one has only its edge's weight
      replaced; a self-loop or a negative weight is silently ignored. The
      re-weight branch reads the edge found through `myNeighbors`, so the
      key-set invariant is required. */
  function AddNi(v: Vertex, t: int, w: real): (r: Vertex)
    requires KeysAgree(v)
    ensures KeysAgree(r)
    ensures WellFormed(v) ==> WellFormed(r)
    ensures SameAttributes(r, v)
    // rejected input: nothing changes
    ensures t == v.key || w < 0.0 ==> r == v
    // valid insert
    ensures t != v.key && w >= 0.0 && !HasNi(v, t) ==>
              HasNi(r, t) && GetEdge(r, t) == Some(EdgeNode.NewEdge(v.key, t, w)) && |r.edges| == |v.edges| + 1
    // re-weight: same keys, only the weight of that edge changes
    ensures t != v.key && w >= 0.0 && HasNi(v, t) ==>
              r.nbrs == v.nbrs && r.edges.Keys == v.edges.Keys &&
              GetEdge(r, t) == Some(EdgeNode.SetWeight(v.edges[t], w))
    // every other destination is untouched
    ensures forall d :: d != t ==> Lookup(r.edges, d) == Lookup(v.edges, d) && Lookup(r.nbrs, d) == Lookup(v.nbrs, d)
  {
    if t !in v.nbrs && t != v.key && w >= 0.0 then
      v.(nbrs := v.nbrs[t := t], edges := v.edges[t := EdgeNode.NewEdge(v.key, t, w)])
    else if t in v.nbrs && t != v.key && w >= 0.0 then
      v.(edges := v.edges[t := EdgeNode.SetWeight(v.edges[t], w)])
    else
      v
  }

  /** `removeNode(n)` with `n` given by its key: drops the destination from
      both maps together when `myNeighbors` holds it, otherwise does nothing. */
  function RemoveNode(v: Vertex, n: int): (r: Vertex)
    ensures KeysAgree(v) ==> KeysAgree(r) && !HasNi(r, n)
    ensures WellFormed(v) ==> WellFormed(r)
    ensures SameAttributes(r, v)
    ensures n !in v.nbrs ==> r == v
    ensures KeysAgree(v) && HasNi(v, n) ==> |r.edges| == |v.edges| - 1 && |r.nbrs| == |v.nbrs| - 1
    ensures forall d :: d != n ==> Lookup(r.edges, d) == Lookup(v.edges, d) && Lookup(r.nbrs, d) == Lookup(v.nbrs, d)
  {
    if n in v.nbrs then
      v.(nbrs := v.nbrs - {n}, edges := v.edges - {n})
    else
      v
  }

  /** `setTag` on the vertex. */
  function SetTag(v: Vertex, t: int): (r: Vertex)
    ensures r.tag == t
    ensures r.key == v.key && r.info == v.info && r.weight == v.weight && r.loc == v.loc
    ensures r.nbrs == v.nbrs && r.edges == v.edges
    ensures WellFormed(v) ==> WellFormed(r)
  {
    v.(tag := t)
  }

  /** `setInfo` on the vertex. */
  function SetInfo(v: Vertex, s: string): (r: Vertex)
    ensures r.info == s
    ensures r.key == v.key && r.tag == v.tag && r.weight == v.weight && r.loc == v.loc
    ensures r.nbrs == v.nbrs && r.edges == v.edges
    ensures WellFormed(v) ==> WellFormed(r)
  {
    v.(info := s)
  }

  /** `setWeight` on the vertex: the scratch weight, unrelated to edge weights. */
  function SetWeight(v: Vertex, w: real): (r: Vertex)
    ensures r.weight == w
    ensures r.key == v.key && r.tag == v.tag && r.info == v.info && r.loc == v.loc
    ensures r.nbrs == v.nbrs && r.edges == v.edges
    ensures WellFormed(v) ==> WellFormed(r)
  {
    v.(weight := w)
  }

  /** `setLocation(p)` on a non-null `p`: stores a value-equal copy. */
  function SetLocation(v: Vertex, p: Loc): (r: Vertex)
    ensures r.loc == Some(p)
    ensures r.key == v.key && r.tag == v.tag && r.info == v.info && r.weight == v.weight
    ensures r.nbrs == v.nbrs && r.edges == v.edges
    ensures WellFormed(v) ==> WellFormed(r)
  {
    v.(loc := Some(p))
  }
}
