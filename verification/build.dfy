/** `make_graph` of the tests: a node per entry, in entry order, then for
    every entry and every value it lists, `add_neighbor` between the entry's
    node and the first node carrying that value. */
module Build {
  import opened Seqs
  import opened Graph
  import opened Shape

  /** The two ways `make_graph` panics: `nodes[0]` on an empty description
      and `unwrap` on a listed value no entry carries. */
  datatype MakeError<T> = NoEntries | UnknownNeighbor(value: T)

  /** Entry `k` lists a value whose first entry is `m`. */
  ghost predicate Declared<T>(s: Spec<T>, k: nat, m: nat)
    requires k < |s|
  {
    exists j :: 0 <= j < |s[k].1| && IndexOf(s, s[k].1[j]) == Some(m)
  }

  /** Every listed value is carried by some entry. */
  ghost predicate AllKnown<T>(s: Spec<T>) {
    forall k, j :: 0 <= k < |s| && 0 <= j < |s[k].1| ==> s[k].1[j] in Keys(s)
  }

  /** The `find` of one entry's neighbor loop, in list order: entry `k`
      paired with the entry found for each value, or the first value that
      no entry carries. */
  function ResolveList<T(==)>(s: Spec<T>, k: nat, ns: seq<T>): (r: Result<seq<(nat, nat)>, T>)
    ensures r.Ok? <==> forall j :: 0 <= j < |ns| ==> ns[j] in Keys(s)
    ensures r.Err? ==> r.error in ns && r.error !in Keys(s)
    ensures r.Ok? ==> |r.value| == |ns|
    ensures r.Ok? ==> forall j :: 0 <= j < |ns| ==> r.value[j] == (k, IndexOf(s, ns[j]).value)
    ensures r.Ok? ==> forall p :: p in r.value ==> p.0 == k && p.1 < |s|
  {
    if |ns| == 0 then Ok([])
    else
      match IndexOf(s, ns[0])
      case None => Err(ns[0])
      case Some(m) =>
        match ResolveList(s, k, ns[1..])
        case Err(w) => Err(w)
        case Ok(rest) => Ok([(k, m)] + rest)
  }

  /** The outer loop of `make_graph` from entry `i` on: all (entry, found
      entry) pairs in the order `add_neighbor` is called. */
  function ResolveEdges<T(==)>(s: Spec<T>, i: nat): (r: Result<seq<(nat, nat)>, T>)
    requires i <= |s|
    ensures r.Ok? <==> forall k, j :: i <= k < |s| && 0 <= j < |s[k].1| ==> s[k].1[j] in Keys(s)
    ensures r.Err? ==> r.error !in Keys(s) && exists k :: i <= k < |s| && r.error in s[k].1
    ensures r.Ok? ==> forall p :: p in r.value ==> i <= p.0 < |s| && p.1 < |s|
    decreases |s| - i
  {
    if i == |s| then Ok([])
    else
      match ResolveList(s, i, s[i].1)
      case Err(w) => Err(w)
      case Ok(here) =>
        match ResolveEdges(s, i + 1)
        case Err(w) => Err(w)
        case Ok(rest) => Ok(here + rest)
  }

  /** The pairs one entry's loop yields are the entry paired with each entry
      found for one of its values. */
  lemma ResolveListHas<T>(s: Spec<T>, k: nat, ns: seq<T>, a: nat, m: nat)
    requires ResolveList(s, k, ns).Ok?
    ensures (a, m) in ResolveList(s, k, ns).value
      <==> a == k && exists j :: 0 <= j < |ns| && IndexOf(s, ns[j]) == Some(m)
  {
    var r := ResolveList(s, k, ns).value;
    if (a, m) in r {
      var j :| 0 <= j < |r| && r[j] == (a, m);
      assert IndexOf(s, ns[j]) == Some(m);
    }
    if a == k && exists j :: 0 <= j < |ns| && IndexOf(s, ns[j]) == Some(m) {
      var j :| 0 <= j < |ns| && IndexOf(s, ns[j]) == Some(m);
      assert r[j] == (a, m);
    }
  }

  /** The resolved pairs are exactly the edges the entries from `i` on
      declare. */
  lemma {:induction false} ResolvedIsDeclared<T>(s: Spec<T>, i: nat, k: nat, m: nat)
    requires i <= |s| && ResolveEdges(s, i).Ok?
    ensures (k, m) in ResolveEdges(s, i).value <==> i <= k < |s| && Declared(s, k, m)
    decreases |s| - i
  {
    if i < |s| {
      ResolveListHas(s, i, s[i].1, k, m);
      ResolvedIsDeclared(s, i + 1, k, m);
      assert ResolveEdges(s, i).value == ResolveList(s, i, s[i].1).value + ResolveEdges(s, i + 1).value;
    }
  }

  /** One fresh cell per entry: the entry's value and no neighbors. */
  function FreshCells<T>(s: Spec<T>): (r: seq<RawNode<T>>)
    ensures |r| == |s| && forall k :: 0 <= k < |s| ==> r[k] == RawNode(s[k].0, [])
  {
    if |s| == 0 then []
    else
      assert forall k :: 0 <= k < |s| - 1 ==> s[1..][k] == s[k + 1];
      [RawNode(s[0].0, [])] + FreshCells(s[1..])
  }

  /** The `map(|(value, _)| Node::new(value.clone()))` step: a graph of its
      own, entry `k`'s node at address `k`, no edges yet. */
  function AllocNodes<T>(s: Spec<T>): (r: Heap<T>)
    ensures Valid(r) && |r.cells| == |s|
    ensures forall k :: 0 <= k < |s| ==> r.cells[k] == RawNode(s[k].0, [])
  {
    Heap(FreshCells(s))
  }

  /** The allocation step is one `Node::new` per entry, in entry order. */
  lemma AllocNodesSnoc<T>(s: Spec<T>, e: (T, seq<T>))
    ensures AllocNodes(s + [e]) == New(AllocNodes(s), e.0).0
    ensures New(AllocNodes(s), e.0).1 == |s|
  {
    var a := AllocNodes(s + [e]);
    var b := New(AllocNodes(s), e.0).0;
    forall x | 0 <= x < |a.cells|
      ensures a.cells[x] == b.cells[x]
    {
      if x < |s| {
        assert (s + [e])[x] == s[x];
      }
    }
  }

  /** Nothing is joined before any `add_neighbor` call. */
  lemma AllocNodesUndirected<T>(s: Spec<T>)
    ensures Undirected(AllocNodes(s))
  {
    var h := AllocNodes(s);
    assert forall x, y :: 0 <= x < |h.cells| ==> !Adj(h, x, y);
  }

  /** Every pair names two of the `n` nodes. */
  ghost predicate PairsBelow(pairs: seq<(nat, nat)>, n: nat) {
    forall t :: 0 <= t < |pairs| ==> pairs[t].0 < n && pairs[t].1 < n
  }

  /** Bounds stated by membership give bounds by position. */
  lemma PairsBelowByMembership(pairs: seq<(nat, nat)>, n: nat)
    requires forall p :: p in pairs ==> p.0 < n && p.1 < n
    ensures PairsBelow(pairs, n)
  {
    assert forall t :: 0 <= t < |pairs| ==> pairs[t] in pairs;
  }

  /** One `node.add_neighbor(neighbor_node.clone())` call, between the nodes
      of entries `e.0` and `e.1`. */
  function AddEdge<T>(h: Heap<T>, e: (nat, nat)): (r: Heap<T>)
    requires Valid(h) && e.0 < |h.cells| && e.1 < |h.cells|
    ensures Valid(r) && |r.cells| == |h.cells|
  {
    AddNeighbor(h, e.0, e.1)
  }

  /** What one call does at `x`: the value stays, and `x` lists `y`
      afterwards exactly when it did before or the call joins them. */
  lemma AddEdgeAt<T>(h: Heap<T>, e: (nat, nat), x: NodeId, y: NodeId)
    requires Valid(h) && e.0 < |h.cells| && e.1 < |h.cells| && x < |h.cells|
    ensures AddEdge(h, e).cells[x].value == h.cells[x].value
    ensures Adj(AddEdge(h, e), x, y) <==> Adj(h, x, y) || (x == e.0 && y == e.1) || (x == e.1 && y == e.0)
  {
  }

  /** The calls of `make_graph`'s loops on the pairs from position `i` on,
      in order. */
  function LinkAll<T>(h: Heap<T>, pairs: seq<(nat, nat)>, i: nat): (r: Heap<T>)
    requires Valid(h) && i <= |pairs| && PairsBelow(pairs, |h.cells|)
    ensures Valid(r) && |r.cells| == |h.cells|
    ensures forall x :: 0 <= x < |h.cells| ==> r.cells[x].value == h.cells[x].value
    decreases |pairs| - i
  {
    if i == |pairs| then h
    else LinkAll(AddEdge(h, pairs[i]), pairs, i + 1)
  }

  /** The calls keep the graph undirected. */
  lemma {:induction false} LinkAllUndirected<T>(h: Heap<T>, pairs: seq<(nat, nat)>, i: nat)
    requires Valid(h) && i <= |pairs| && PairsBelow(pairs, |h.cells|) && Undirected(h)
    ensures Undirected(LinkAll(h, pairs, i))
    decreases |pairs| - i
  {
    if i < |pairs| {
      LinkAllUndirected(AddEdge(h, pairs[i]), pairs, i + 1);
    }
  }

  /** A pair from position `i` on joins `x` and `y`, in either order. */
  predicate Joins(pairs: seq<(nat, nat)>, i: nat, x: NodeId, y: NodeId)
    decreases |pairs| - i
  {
    && i < |pairs|
    && (|| (x == pairs[i].0 && y == pairs[i].1)
        || (x == pairs[i].1 && y == pairs[i].0)
        || Joins(pairs, i + 1, x, y))
  }

  /** `x` and `y` are joined from position `i` on exactly when a pair from
      there on is `(x, y)` or `(y, x)`. */
  lemma {:induction false} JoinsAt(pairs: seq<(nat, nat)>, i: nat, x: NodeId, y: NodeId)
    requires i <= |pairs|
    ensures Joins(pairs, i, x, y)
      <==> exists t :: i <= t < |pairs| && (pairs[t] == (x, y) || pairs[t] == (y, x))
    decreases |pairs| - i
  {
    if i < |pairs| {
      JoinsAt(pairs, i + 1, x, y);
    }
  }

  /** Joined by some pair means listed as a pair, in one order or the other. */
  lemma JoinsPairs(pairs: seq<(nat, nat)>, x: NodeId, y: NodeId)
    ensures Joins(pairs, 0, x, y) <==> (x, y) in pairs || (y, x) in pairs
  {
    JoinsAt(pairs, 0, x, y);
    if Joins(pairs, 0, x, y) {
      var t :| 0 <= t < |pairs| && (pairs[t] == (x, y) || pairs[t] == (y, x));
      assert pairs[t] in pairs;
    }
    if (x, y) in pairs || (y, x) in pairs {
      var t :| 0 <= t < |pairs| && (pairs[t] == (x, y) || pairs[t] == (y, x));
    }
  }

  /** A call either adds the pair or finds it present; calls never drop one. */
  lemma {:induction false} LinkAllAdds<T>(h: Heap<T>, pairs: seq<(nat, nat)>, i: nat, x: NodeId, y: NodeId)
    requires Valid(h) && i <= |pairs| && PairsBelow(pairs, |h.cells|) && x < |h.cells|
    requires Adj(h, x, y) || Joins(pairs, i, x, y)
    ensures Adj(LinkAll(h, pairs, i), x, y)
    decreases |pairs| - i
  {
    if i < |pairs| {
      AddEdgeAt(h, pairs[i], x, y);
      LinkAllAdds(AddEdge(h, pairs[i]), pairs, i + 1, x, y);
    }
  }

  /** The calls add nothing but the pairs they are given. */
  lemma {:induction false} LinkAllOnlyAdds<T>(h: Heap<T>, pairs: seq<(nat, nat)>, i: nat, x: NodeId, y: NodeId)
    requires Valid(h) && i <= |pairs| && PairsBelow(pairs, |h.cells|) && x < |h.cells|
    requires Adj(LinkAll(h, pairs, i), x, y)
    ensures Adj(h, x, y) || Joins(pairs, i, x, y)
    decreases |pairs| - i
  {
    if i < |pairs| {
      AddEdgeAt(h, pairs[i], x, y);
      LinkAllOnlyAdds(AddEdge(h, pairs[i]), pairs, i + 1, x, y);
    }
  }

  /** The graph `make_graph` builds once every value is resolved: a node per
      entry, then `add_neighbor` on every resolved pair, in order. */
  function Assemble<T>(s: Spec<T>, pairs: seq<(nat, nat)>): (r: Heap<T>)
    requires PairsBelow(pairs, |s|)
    ensures Valid(r) && |r.cells| == |s|
  {
    LinkAll(AllocNodes(s), pairs, 0)
  }

  /** Entry `k`'s node carries entry `k`'s value. */
  lemma AssembleValue<T>(s: Spec<T>, pairs: seq<(nat, nat)>, k: nat)
    requires PairsBelow(pairs, |s|) && k < |s|
    ensures Assemble(s, pairs).cells[k].value == s[k].0
  {
  }

  /** The built graph is undirected whatever the pairs. */
  lemma AssembleUndirected<T>(s: Spec<T>, pairs: seq<(nat, nat)>)
    requires PairsBelow(pairs, |s|)
    ensures Undirected(Assemble(s, pairs))
  {
    AllocNodesUndirected(s);
    LinkAllUndirected(AllocNodes(s), pairs, 0);
  }

  /** Node `x` lists node `y` exactly when one of the two was paired with
      the other. */
  lemma AssembleAdj<T>(s: Spec<T>, pairs: seq<(nat, nat)>, x: NodeId, y: NodeId)
    requires PairsBelow(pairs, |s|) && x < |s|
    ensures Adj(Assemble(s, pairs), x, y) <==> (x, y) in pairs || (y, x) in pairs
  {
    var h := AllocNodes(s);
    assert !Adj(h, x, y);
    JoinsPairs(pairs, x, y);
    if Adj(Assemble(s, pairs), x, y) {
      LinkAllOnlyAdds(h, pairs, 0, x, y);
    }
    if Joins(pairs, 0, x, y) {
      LinkAllAdds(h, pairs, 0, x, y);
    }
  }

  /** `make_graph(&spec)`: the graph built from the description and the
      handle `nodes[0]` to its first entry's node, or why it panics. */
  function MakeGraph<T(==)>(s: Spec<T>): (r: Result<(Heap<T>, NodeId), MakeError<T>>)
    ensures r.Err? <==> |s| == 0 || !AllKnown(s)
    ensures r.Err? ==> (r.error == NoEntries <==> |s| == 0)
    ensures r.Err? && r.error.UnknownNeighbor? ==>
      r.error.value !in Keys(s) && exists k :: 0 <= k < |s| && r.error.value in s[k].1
    ensures r.Ok? ==> Valid(r.value.0) && r.value.1 == 0 && |r.value.0.cells| == |s|
    ensures r.Ok? ==> Undirected(r.value.0)
  {
    var pairs := ResolveEdges(s, 0);
    if |s| == 0 then Err(NoEntries)
    else if pairs.Err? then Err(UnknownNeighbor(pairs.error))
    else
      PairsBelowByMembership(pairs.value, |s|);
      AssembleUndirected(s, pairs.value);
      Ok((Assemble(s, pairs.value), 0))
  }

  /** Entry `k`'s node carries entry `k`'s value. */
  lemma MakeGraphValue<T>(s: Spec<T>, k: nat)
    requires AllKnown(s) && k < |s|
    ensures MakeGraph(s).value.0.cells[k].value == s[k].0
  {
    PairsBelowByMembership(ResolveEdges(s, 0).value, |s|);
    AssembleValue(s, ResolveEdges(s, 0).value, k);
  }

  /** Entry `k`'s node lists entry `m`'s node exactly when one of the two
      entries lists a value first carried by the other. */
  lemma MakeGraphAdj<T>(s: Spec<T>, k: nat, m: nat)
    requires AllKnown(s) && k < |s| && m < |s|
    ensures Adj(MakeGraph(s).value.0, k, m) <==> Declared(s, k, m) || Declared(s, m, k)
  {
    PairsBelowByMembership(ResolveEdges(s, 0).value, |s|);
    AssembleAdj(s, ResolveEdges(s, 0).value, k, m);
    ResolvedIsDeclared(s, 0, k, m);
    ResolvedIsDeclared(s, 0, m, k);
  }
}
