/** The directed, weighted edge record owned by a vertex (the nested
    `EdgeNode` class of `NodeData`). */
module EdgeNode {
  import opened Options

  /** One directed edge `src -> dest`. `tag` and `info` are scratch fields for
      graph algorithms and carry no meaning for the vertex. */
  datatype Edge = Edge(src: int, dest: int, weight: real, tag: int, info: string)

  /** The `EdgeNode(first_key, second_key, weight)` constructor: the scratch
      fields start at their field initialisers. */
  function NewEdge(src: int, dest: int, w: real): (e: Edge)
    ensures e.src == src && e.dest == dest && e.weight == w
    ensures e.tag == 0 && e.info == ""
  {
    Edge(src, dest, w, 0, "")
  }

  /** `setWeight`: unconditional, no check of the sign. */
  function SetWeight(e: Edge, w: real): (r: Edge)
    ensures r.weight == w
    ensures r.src == e.src && r.dest == e.dest && r.tag == e.tag && r.info == e.info
    ensures Equals(r, Some(e)) <==> w == e.weight
  {
    e.(weight := w)
  }

  /** `setTag` on an edge. */
  function SetTag(e: Edge, t: int): (r: Edge)
    ensures r.tag == t
    ensures r.src == e.src && r.dest == e.dest && r.weight == e.weight && r.info == e.info
    ensures Equals(r, Some(e)) <==> t == e.tag
  {
    e.(tag := t)
  }

  /** `setInfo` on an edge. */
  function SetInfo(e: Edge, s: string): (r: Edge)
    ensures r.info == s
    ensures r.src == e.src && r.dest == e.dest && r.weight == e.weight && r.tag == e.tag
    ensures Equals(r, Some(e)) <==> s == e.info
  {
    e.(info := s)
  }

  /** `EdgeNode.equals(Object)`: `None` is an argument that is not an
      `EdgeNode` (including `null`); otherwise all five fields are compared.
      The weights are compared exactly, with no tolerance. */
  predicate Equals(e: Edge, o: Option<Edge>)
    ensures Equals(e, o) <==> o == Some(e)
  {
    match o
    case None => false
    case Some(t) =>
      e.weight == t.weight && e.src == t.src && e.dest == t.dest &&
      e.tag == t.tag && e.info == t.info
  }

  /** Edge equality is an equivalence relation on present edges. */
  lemma EqualsIsEquivalence(a: Edge, b: Edge, c: Edge)
    ensures Equals(a, Some(a))
    ensures Equals(a, Some(b)) <==> Equals(b, Some(a))
    ensures Equals(a, Some(b)) && Equals(b, Some(c)) ==> Equals(a, Some(c))
  {
  }

  /** Re-weighting twice keeps only the last weight. */
  lemma SetWeightLastWins(e: Edge, w1: real, w2: real)
    ensures SetWeight(SetWeight(e, w1), w2) == SetWeight(e, w2)
  {
  }
}
