/** Structural equality of vertices (`NodeData.equals`), including the
    comparison of the two edge maps that it delegates to `HashMap.equals`. */
module NodeEquality {
  import opened Options
  import EdgeNode
  import opened NodeData

  /** What `HashMap.equals` decides for the receiver `recv` and argument
      `arg`: the sizes agree and every entry of the receiver is `equals` to
      what the argument maps its key to (a missing key reads as `null`). */
  predicate EdgeMapsEq(recv: map<int, Edge>, arg: map<int, Edge>) {
    |recv| == |arg| &&
    forall k :: k in recv ==> EdgeNode.Equals(recv[k], Lookup(arg, k))
  }

  /** A subset of a finite set with the same size is the whole set. */
  lemma SubsetOfSameSize(a: set<int>, b: set<int>)
    requires a <= b && |a| == |b|
    ensures a == b
  {
    assert |b - a| == |b| - |a|;
    assert b - a == {};
  }

  /** The pointwise comparison is exactly equality of the maps: the key sets
      coincide and so do the stored edges. */
  lemma {:induction false} EdgeMapsEqIsEquality(recv: map<int, Edge>, arg: map<int, Edge>)
    ensures EdgeMapsEq(recv, arg) <==> recv == arg
  {
    if EdgeMapsEq(recv, arg) {
      assert recv.Keys <= arg.Keys by {
        forall k | k in recv.Keys ensures k in arg.Keys {
          assert EdgeNode.Equals(recv[k], Lookup(arg, k));
        }
      }
      SubsetOfSameSize(recv.Keys, arg.Keys);
      forall k | k in recv ensures recv[k] == arg[k] {
        assert EdgeNode.Equals(recv[k], Lookup(arg, k));
      }
    }
  }

  /** The iteration `HashMap.equals` performs: a size check, then one
      `equals` per entry of the receiver, stopping at the first mismatch. */
  method EdgeMapsEqual(recv: map<int, Edge>, arg: map<int, Edge>) returns (eq: bool)
    ensures eq == EdgeMapsEq(recv, arg)
    ensures eq <==> recv == arg
  {
    EdgeMapsEqIsEquality(recv, arg);
    if |recv| != |arg| {
      return false;
    }
    var rest := recv.Keys;
    while rest != {}
      invariant rest <= recv.Keys
      invariant forall k :: k in recv && k !in rest ==> EdgeNode.Equals(recv[k], Lookup(arg, k))
      decreases rest
    {
      if forall x :: x !in rest {
        assert false;
      }
      var k :| k in rest;
      if !EdgeNode.Equals(recv[k], Lookup(arg, k)) {
        return false;
      }
      rest := rest - {k};
    }
    return true;
  }

  /** `NodeData.equals(Object)`, in the order the source tests: the class
      (`None` is `null` or another class), then tag and info, then key and
      the edge maps (compared by the other vertex's map), then the scratch
      weight, and finally the locations. `myNeighbors` is not compared. */
  predicate Equals(v: Vertex, o: Option<Vertex>)
    ensures Equals(v, o) <==>
              o.Some? && SameAttributes(v, o.value) && v.edges == o.value.edges
  {
    match o
    case None => false
    case Some(n) =>
      EdgeMapsEqIsEquality(n.edges, v.edges);
      if v.tag != n.tag || v.info != n.info then false
      else if v.key != n.key || !EdgeMapsEq(n.edges, v.edges) then false
      else if v.weight != n.weight then false
      else if v.loc.None? && n.loc.None? then true
      else if v.loc.None? != n.loc.None? then false
      else v.loc.value == n.loc.value
  }

  /** Equality is reflexive, symmetric and transitive. */
  lemma EqualsIsEquivalence(a: Vertex, b: Vertex, c: Vertex)
    ensures Equals(a, Some(a))
    ensures Equals(a, Some(b)) <==> Equals(b, Some(a))
    ensures Equals(a, Some(b)) && Equals(b, Some(c)) ==> Equals(a, Some(c))
  {
  }

  /** Equality ignores the neighbour map: it coincides with equality of the
      vertices once their neighbour maps are cleared. */
  lemma EqualsIgnoresNeighbours(a: Vertex, b: Vertex)
    ensures Equals(a, Some(b)) <==> a.(nbrs := map[]) == b.(nbrs := map[])
  {
  }

  /** A copy equals its original exactly when the original has no edges. */
  lemma CopyEqualsIffNoEdges(n: Vertex)
    ensures Equals(CopyOf(n), Some(n)) <==> n.edges == map[]
  {
  }

  /** Copying is insensitive to connectivity: equal vertices have identical
      copies, and copying twice is copying once. */
  lemma CopyRespectsEquals(a: Vertex, b: Vertex)
    ensures Equals(a, Some(b)) ==> CopyOf(a) == CopyOf(b)
    ensures CopyOf(CopyOf(a)) == CopyOf(a)
  {
  }

  /** A setter changes the equality class of a vertex exactly when it
      changes the stored value. */
  lemma SettersAndEquals(v: Vertex, t: int, s: string, w: real, p: Loc)
    ensures Equals(SetTag(v, t), Some(v)) <==> t == v.tag
    ensures Equals(SetInfo(v, s), Some(v)) <==> s == v.info
    ensures Equals(SetWeight(v, w), Some(v)) <==> w == v.weight
    ensures Equals(SetLocation(v, p), Some(v)) <==> v.loc == Some(p)
  {
  }

  /** Two freshly built vertices with the same key are equal; giving only one
      of them a location makes them unequal. */
  lemma FreshNodesEqual(k: int, p: Loc)
    ensures Equals(NewNode(k), Some(NewNode(k)))
    ensures !Equals(SetLocation(NewNode(k), p), Some(NewNode(k)))
    ensures !Equals(NewNode(k), Some(SetLocation(NewNode(k), p)))
  {
  }
}
