/** What the round-trip tests rely on: reading back a graph with
    `parse_graph` yields a description of what can be reached from the start
    node, and building a well-formed description with `make_graph` and
    reading it back yields the same description up to order. */
module RoundTrip {
  import opened Seqs
  import opened Shape
  import opened Graph
  import opened Build
  import opened Traverse

  // ---------------------------------------------------------------- reading back

  /** Node `x` is reachable from `root` and its entry matches `d`: same
      value, same neighbor values with multiplicity. */
  ghost predicate Matches<T>(h: Heap<T>, root: NodeId, x: NodeId, d: (T, seq<T>))
    requires Valid(h)
  {
    && 0 <= x < |h.cells| && Reachable(h, root, x)
    && h.cells[x].value == d.0
    && multiset(Entry(h, x).1) == multiset(d.1)
  }

  /** `e` describes the part of `h` reachable from `root`: it lists each
      value once, every reachable node's value is listed, and entry `j` is
      matched by the reachable node `at[j]`. */
  ghost predicate Describes<T>(h: Heap<T>, root: NodeId, e: Spec<T>, at: seq<NodeId>)
    requires Valid(h)
  {
    && DistinctKeys(e)
    && (forall x :: 0 <= x < |h.cells| && Reachable(h, root, x) ==> h.cells[x].value in Keys(e))
    && |at| == |e|
    && (forall j :: 0 <= j < |e| ==> Matches(h, root, at[j], e[j]))
  }

  /** `parse_graph` reads back any description of the reachable part of a
      graph whose values are distinct. */
  lemma ParseGraphDescribed<T>(h: Heap<T>, root: NodeId, e: Spec<T>, at: seq<NodeId>)
    requires Valid(h) && DistinctValues(h) && root < |h.cells|
    requires Describes(h, root, e, at)
    ensures SameShape(ParseGraph(h, root), e)
  {
    var p := ParseGraph(h, root);
    ParseGraphDistinct(h, root);
    forall i | 0 <= i < |p|
      ensures p[i].0 in Keys(e)
    {
      ParseGraphSound(h, root, i);
    }
    forall j | 0 <= j < |e|
      ensures e[j].0 in Keys(p)
    {
      ParseGraphComplete(h, root, at[j]);
    }
    forall i, j | 0 <= i < |p| && 0 <= j < |e| && p[i].0 == e[j].0
      ensures multiset(p[i].1) == multiset(e[j].1)
    {
      ParseGraphSound(h, root, i);
      var x :| 0 <= x < |h.cells| && Reachable(h, root, x) && p[i] == Entry(h, x);
      assert Matches(h, root, at[j], e[j]);
    }
  }

  /** Values of a list of distinct nodes with distinct values are distinct. */
  lemma ValuesOfNoDup<T>(h: Heap<T>, ids: seq<NodeId>)
    requires DistinctValues(h) && NoDup(ids) && forall y :: y in ids ==> y < |h.cells|
    ensures NoDup(ValuesOf(h, ids))
  {
  }

  // ---------------------------------------------------------------- the built graph

  /** With distinct entry values, entry `k` declares entry `m` exactly when
      it lists `m`'s value. */
  lemma DeclaredIff<T>(s: Spec<T>, k: nat, m: nat)
    requires DistinctKeys(s) && k < |s| && m < |s|
    ensures Declared(s, k, m) <==> s[m].0 in s[k].1
  {
    if s[m].0 in s[k].1 {
      var j :| 0 <= j < |s[k].1| && s[k].1[j] == s[m].0;
      IndexOfDistinct(s, m);
    }
  }

  /** In the graph built from a well-formed description, node `k` lists node
      `m` exactly when entry `k` lists entry `m`'s value. */
  lemma BuiltAdj<T>(s: Spec<T>, k: nat, m: nat)
    requires WellFormed(s) && k < |s| && m < |s|
    ensures MakeGraph(s).Ok?
    ensures Adj(MakeGraph(s).value.0, k, m) <==> s[m].0 in s[k].1
  {
    MakeGraphAdj(s, k, m);
    DeclaredIff(s, k, m);
    DeclaredIff(s, m, k);
  }

  /** The built graph carries the entry values, node `k` the value of entry
      `k`, so its values are distinct. */
  lemma BuiltDistinctValues<T>(s: Spec<T>)
    requires WellFormed(s)
    ensures MakeGraph(s).Ok? && DistinctValues(MakeGraph(s).value.0)
  {
    var g := MakeGraph(s).value.0;
    forall x, y | 0 <= x < |g.cells| && 0 <= y < |g.cells| && x != y
      ensures g.cells[x].value != g.cells[y].value
    {
      MakeGraphValue(s, x);
      MakeGraphValue(s, y);
    }
  }

  /** Every node of the built graph can be reached from the start node: a
      path of entries, each listing the next, is a walk. */
  lemma BuiltReachable<T>(s: Spec<T>, i: nat)
    requires WellFormed(s) && i < |s|
    ensures MakeGraph(s).Ok? && Reachable(MakeGraph(s).value.0, 0, i)
  {
    var g := MakeGraph(s).value.0;
    assert EntryReachable(s, i);
    var p :| IsIndexPath(s, p) && p[0] == 0 && p[|p| - 1] == i;
    forall t | 0 <= t < |p| - 1
      ensures Adj(g, p[t], p[t + 1])
    {
      BuiltAdj(s, p[t], p[t + 1]);
    }
    assert IsWalk(g, p);
  }

  /** Node `k` of the built graph has the neighbor values entry `k` lists,
      with multiplicity. */
  lemma BuiltNeighborValues<T>(s: Spec<T>, k: nat)
    requires WellFormed(s) && k < |s|
    ensures MakeGraph(s).Ok?
    ensures multiset(Entry(MakeGraph(s).value.0, k).1) == multiset(s[k].1)
  {
    var g := MakeGraph(s).value.0;
    var ns := Neighbors(g, k);
    var vs := ValuesOf(g, ns);
    BuiltDistinctValues(s);
    ValuesOfNoDup(g, ns);
    forall v
      ensures v in vs <==> v in s[k].1
    {
      if v in vs {
        var t :| 0 <= t < |vs| && vs[t] == v;
        var m := ns[t];
        MakeGraphValue(s, m);
        BuiltAdj(s, k, m);
      }
      if v in s[k].1 {
        var j :| 0 <= j < |s[k].1| && s[k].1[j] == v;
        var m :| 0 <= m < |s| && Keys(s)[m] == v;
        BuiltAdj(s, k, m);
        MakeGraphValue(s, m);
        var t :| 0 <= t < |ns| && ns[t] == m;
        assert vs[t] == v;
      }
    }
    SameElementsSameMultiset(vs, s[k].1);
  }

  /** Node `j` of the built graph matches entry `j`. */
  lemma BuiltMatches<T>(s: Spec<T>, j: nat)
    requires WellFormed(s) && j < |s|
    ensures MakeGraph(s).Ok? && Matches(MakeGraph(s).value.0, 0, j, s[j])
  {
    BuiltReachable(s, j);
    MakeGraphValue(s, j);
    BuiltNeighborValues(s, j);
  }

  /** Every node of the built graph carries a listed value. */
  lemma BuiltValuesListed<T>(s: Spec<T>)
    requires WellFormed(s)
    ensures MakeGraph(s).Ok?
    ensures var g := MakeGraph(s).value.0;
      forall x :: 0 <= x < |g.cells| ==> g.cells[x].value in Keys(s)
  {
    var g := MakeGraph(s).value.0;
    forall x | 0 <= x < |g.cells|
      ensures g.cells[x].value in Keys(s)
    {
      MakeGraphValue(s, x);
    }
  }

  /** The node list `[0, 1, .., n - 1]`: entry `k` is built as node `k`. */
  function Ids(n: nat): (r: seq<NodeId>)
    ensures |r| == n && forall j :: 0 <= j < n ==> r[j] == j
  {
    seq(n, j => j)
  }

  /** Every entry is matched by its own node of the built graph. */
  lemma BuiltEntriesMatched<T>(s: Spec<T>)
    requires WellFormed(s)
    ensures MakeGraph(s).Ok?
    ensures forall j :: 0 <= j < |s| ==> Matches(MakeGraph(s).value.0, 0, Ids(|s|)[j], s[j])
  {
    forall j | 0 <= j < |s|
      ensures Matches(MakeGraph(s).value.0, 0, Ids(|s|)[j], s[j])
    {
      BuiltMatches(s, j);
    }
  }

  /** The built graph, read from its start node, is described by the
      description it was built from, entry `k` by node `k`. */
  lemma BuiltDescribed<T>(s: Spec<T>)
    requires WellFormed(s)
    ensures MakeGraph(s).Ok? && Describes(MakeGraph(s).value.0, 0, s, Ids(|s|))
  {
    BuiltValuesListed(s);
    BuiltEntriesMatched(s);
  }

  /** The round trip of every test: `parse_graph(make_graph(spec))` denotes
      the same graph as `spec`, for any well-formed `spec`. */
  lemma RoundTrip<T>(s: Spec<T>)
    requires WellFormed(s)
    ensures MakeGraph(s).Ok?
    ensures var g := MakeGraph(s).value; SameShape(ParseGraph(g.0, g.1), s)
  {
    BuiltDescribed(s);
    BuiltDistinctValues(s);
    ParseGraphDescribed(MakeGraph(s).value.0, 0, s, Ids(|s|));
  }
}
