/** The two mutating loops of the tests: applying `update_value` to a list
    of nodes, and the odd/even partition that calls `remove_neighbor` on
    every edge joining two nodes of different classes. */
module Loops {
  import opened Seqs
  import opened Shape
  import opened Graph
  import opened Traverse
  import opened Build
  import opened RoundTrip
  import opened Families

  // ---------------------------------------------------------------- update_value

  /** `f` applied `n` times to `v`. */
  function Iter<T>(f: T -> T, n: nat, v: T): T
    decreases n
  {
    if n == 0 then v else Iter(f, n - 1, f(v))
  }

  /** `for n in ids { n.update_value(f) }`, in list order. */
  function UpdateAll<T>(h: Heap<T>, ids: seq<NodeId>, f: T -> T): (r: Heap<T>)
    requires Valid(h) && forall y :: y in ids ==> y < |h.cells|
    ensures Valid(r) && |r.cells| == |h.cells|
    ensures forall x :: 0 <= x < |h.cells| ==> r.cells[x].neighbors == h.cells[x].neighbors
    decreases |ids|
  {
    if |ids| == 0 then h
    else
      assert ids[0] in ids && forall y :: y in ids[1..] ==> y in ids;
      UpdateAll(UpdateValue(h, ids[0], f), ids[1..], f)
  }

  /** Occurrences of `x` in a list: in the head, plus in the tail. */
  lemma CountCons<X>(s: seq<X>, x: X)
    requires |s| > 0
    ensures multiset(s)[x] == multiset(s[1..])[x] + (if s[0] == x then 1 else 0)
  {
    assert s == [s[0]] + s[1..];
  }

  /** Each node ends up with `f` applied once per occurrence of it in the
      list, whatever the order; nodes not listed keep their value. */
  lemma {:induction false} UpdateAllValue<T>(h: Heap<T>, ids: seq<NodeId>, f: T -> T, x: NodeId)
    requires Valid(h) && (forall y :: y in ids ==> y < |h.cells|) && x < |h.cells|
    ensures UpdateAll(h, ids, f).cells[x].value == Iter(f, multiset(ids)[x], h.cells[x].value)
    decreases |ids|
  {
    if |ids| > 0 {
      assert ids[0] in ids && forall y :: y in ids[1..] ==> y in ids;
      var h1 := UpdateValue(h, ids[0], f);
      UpdateAllValue(h1, ids[1..], f, x);
      CountCons(ids, x);
    }
  }

  function MapSeq<T>(f: T -> T, s: seq<T>): (r: seq<T>)
    ensures |r| == |s| && forall k :: 0 <= k < |s| ==> r[k] == f(s[k])
  {
    seq(|s|, k requires 0 <= k < |s| => f(s[k]))
  }

  /** A description with every value, entry and neighbor alike, mapped by
      `f`. */
  function MapSpec<T>(f: T -> T, s: Spec<T>): (r: Spec<T>)
    ensures |r| == |s| && forall k :: 0 <= k < |s| ==> r[k] == (f(s[k].0), MapSeq(f, s[k].1))
  {
    seq(|s|, k requires 0 <= k < |s| => (f(s[k].0), MapSeq(f, s[k].1)))
  }

  lemma MapAppend<T>(f: T -> T, a: seq<T>, b: seq<T>)
    ensures MapSeq(f, a + b) == MapSeq(f, a) + MapSeq(f, b)
  {
  }

  /** Taking out the element at `j`: the rest holds one occurrence less. */
  lemma RemoveAt<T>(b: seq<T>, j: nat)
    requires j < |b|
    ensures b == b[..j] + [b[j]] + b[j + 1..]
    ensures multiset(b[..j] + b[j + 1..]) == multiset(b) - multiset{b[j]}
  {
    assert b == b[..j] + [b[j]] + b[j + 1..];
  }

  /** Mapping keeps equal multisets equal. */
  lemma {:induction false} MapMultiset<T>(f: T -> T, a: seq<T>, b: seq<T>)
    requires multiset(a) == multiset(b)
    ensures multiset(MapSeq(f, a)) == multiset(MapSeq(f, b))
    decreases |a|
  {
    if |a| == 0 {
      assert |b| == |multiset(b)| == 0;
      assert MapSeq(f, a) == MapSeq(f, b);
    } else {
      assert a[0] in multiset(b);
      var j :| 0 <= j < |b| && b[j] == a[0];
      var l, r := b[..j], b[j + 1..];
      RemoveAt(b, j);
      assert multiset(a[1..]) == multiset(a) - multiset{a[0]} by {
        assert a == [a[0]] + a[1..];
      }
      MapMultiset(f, a[1..], l + r);
      MapAppend(f, [a[0]], a[1..]);
      assert a == [a[0]] + a[1..];
      MapAppend(f, l, r);
      MapAppend(f, l + [b[j]], r);
      MapAppend(f, l, [b[j]]);
    }
  }

  /** `f` never maps two values to one. */
  ghost predicate Injective<T(!new)>(f: T -> T) {
    forall a, b :: f(a) == f(b) ==> a == b
  }

  /** `h'` is `h` with every value mapped by `f` and the edges kept. */
  ghost predicate Relabelled<T>(h: Heap<T>, h': Heap<T>, f: T -> T) {
    && |h'.cells| == |h.cells|
    && forall x :: 0 <= x < |h.cells| ==> h'.cells[x] == RawNode(f(h.cells[x].value), h.cells[x].neighbors)
  }

  /** Relabelling keeps every walk, so it keeps reachability. */
  lemma RelabelReachable<T>(h: Heap<T>, h': Heap<T>, f: T -> T, a: NodeId, b: NodeId)
    requires Relabelled(h, h', f)
    ensures Reachable(h, a, b) <==> Reachable(h', a, b)
  {
    assert forall p :: IsWalk(h, p) <==> IsWalk(h', p) by {
      assert forall x, y :: 0 <= x < |h.cells| ==> (Adj(h, x, y) <==> Adj(h', x, y));
    }
  }

  /** Relabelling maps the recorded entry of every node. */
  lemma RelabelEntry<T>(h: Heap<T>, h': Heap<T>, f: T -> T, x: NodeId)
    requires Valid(h) && Relabelled(h, h', f) && x < |h.cells|
    ensures Valid(h')
    ensures Entry(h', x) == (f(Entry(h, x).0), MapSeq(f, Entry(h, x).1))
  {
    assert Valid(h') by {
      assert forall y :: 0 <= y < |h.cells| ==> h'.cells[y].neighbors == h.cells[y].neighbors;
    }
    var ns := Neighbors(h, x);
    assert Neighbors(h', x) == ns;
    assert ValuesOf(h', ns) == MapSeq(f, ValuesOf(h, ns));
  }

  /** A node reachable in the relabelled graph carries a mapped listed value. */
  lemma RelabelListed<T(!new)>(h: Heap<T>, h': Heap<T>, f: T -> T, root: NodeId, e: Spec<T>, x: NodeId)
    requires Valid(h) && Relabelled(h, h', f) && root < |h.cells|
    requires forall y :: 0 <= y < |h.cells| && Reachable(h, root, y) ==> h.cells[y].value in Keys(e)
    requires x < |h'.cells| && Reachable(h', root, x)
    ensures h'.cells[x].value in Keys(MapSpec(f, e))
  {
    RelabelReachable(h, h', f, root, x);
    var j :| 0 <= j < |e| && Keys(e)[j] == h.cells[x].value;
    assert Keys(MapSpec(f, e))[j] == h'.cells[x].value;
  }

  /** A node matching an entry matches the mapped entry once relabelled. */
  lemma RelabelMatches<T(!new)>(h: Heap<T>, h': Heap<T>, f: T -> T, root: NodeId, x: NodeId, d: (T, seq<T>))
    requires Valid(h) && Relabelled(h, h', f) && Injective(f) && root < |h.cells|
    requires DistinctValues(h) && Matches(h, root, x, d)
    ensures Valid(h') && Matches(h', root, x, (f(d.0), MapSeq(f, d.1)))
  {
    RelabelReachable(h, h', f, root, x);
    RelabelEntry(h, h', f, x);
    MapMultiset(f, Entry(h, x).1, d.1);
  }

  /** Relabelling by an injective map turns a description of a graph into
      a description of the relabelled graph, with the values mapped. */
  lemma RelabelDescribes<T(!new)>(h: Heap<T>, h': Heap<T>, f: T -> T, root: NodeId, e: Spec<T>, at: seq<NodeId>)
    requires Valid(h) && Relabelled(h, h', f) && Injective(f) && root < |h.cells|
    requires DistinctValues(h) && Describes(h, root, e, at)
    ensures Valid(h') && DistinctValues(h') && Describes(h', root, MapSpec(f, e), at)
  {
    var m := MapSpec(f, e);
    RelabelEntry(h, h', f, root);
    forall x | 0 <= x < |h'.cells| && Reachable(h', root, x)
      ensures h'.cells[x].value in Keys(m)
    {
      RelabelListed(h, h', f, root, e, x);
    }
    forall j | 0 <= j < |e|
      ensures Matches(h', root, at[j], m[j])
    {
      assert Matches(h, root, at[j], e[j]);
      RelabelMatches(h, h', f, root, at[j], e[j]);
    }
  }

  /** The update loop over a list naming every node exactly once relabels
      the graph. */
  lemma UpdateAllRelabels<T>(h: Heap<T>, ids: seq<NodeId>, f: T -> T)
    requires Valid(h) && forall y :: y in ids ==> y < |h.cells|
    requires forall x :: 0 <= x < |h.cells| ==> multiset(ids)[x] == 1
    ensures Relabelled(h, UpdateAll(h, ids, f), f)
  {
    forall x | 0 <= x < |h.cells|
      ensures UpdateAll(h, ids, f).cells[x].value == f(h.cells[x].value)
    {
      UpdateAllValue(h, ids, f, x);
    }
  }

  /** Entry 0 lists every other entry's value and not its own: the start
      node is joined to every other node. */
  ghost predicate Hub<T>(s: Spec<T>) {
    |s| > 0 && forall k :: 0 <= k < |s| ==> (s[k].0 in s[0].1 <==> k != 0)
  }

  /** `graph.neighbors().chain([graph.clone()])`: the start node's
      neighbors, then the start node itself. */
  function Around<T>(h: Heap<T>, root: NodeId): (r: seq<NodeId>)
    requires Valid(h) && root < |h.cells|
    ensures forall y :: y in r ==> y < |h.cells|
    ensures |r| == |h.cells[root].neighbors| + 1 && r[|r| - 1] == root
    ensures forall y :: y in r <==> y == root || Adj(h, root, y)
  {
    Neighbors(h, root) + [root]
  }

  /** In a graph built from a hub description, the list the tests iterate
      names every node exactly once. */
  lemma AroundHubOnce<T>(s: Spec<T>)
    requires WellFormed(s) && Hub(s)
    ensures MakeGraph(s).Ok?
    ensures var g := MakeGraph(s).value.0;
      forall x :: 0 <= x < |g.cells| ==> multiset(Around(g, 0))[x] == 1
  {
    var g := MakeGraph(s).value.0;
    var ns := Neighbors(g, 0);
    NoDupCounts(ns);
    forall x | 0 <= x < |g.cells|
      ensures multiset(ns + [0])[x] == 1
    {
      BuiltAdj(s, 0, x);
    }
  }

  /** The `update_value` test, for any hub description and injective `f`:
      updating the start node's neighbors and then the start node reads
      back as the description with every value mapped by `f`. */
  lemma UpdateAroundHub<T(!new)>(s: Spec<T>, f: T -> T)
    requires WellFormed(s) && Hub(s) && Injective(f)
    ensures MakeGraph(s).Ok?
    ensures var g := MakeGraph(s).value;
      SameShape(ParseGraph(UpdateAll(g.0, Around(g.0, g.1), f), g.1), MapSpec(f, s))
  {
    var g := MakeGraph(s).value.0;
    BuiltDescribed(s);
    BuiltDistinctValues(s);
    AroundHubOnce(s);
    var h := UpdateAll(g, Around(g, 0), f);
    UpdateAllRelabels(g, Around(g, 0), f);
    RelabelDescribes(g, h, f, 0, s, Ids(|s|));
    ParseGraphDescribed(h, 0, MapSpec(f, s), Ids(|s|));
  }

  // ---------------------------------------------------------------- remove_neighbor

  /** Nodes `x` and `y` fall into different classes. */
  predicate Split<T>(h: Heap<T>, cls: T -> int, x: NodeId, y: NodeId)
    requires x < |h.cells| && y < |h.cells|
  {
    cls(h.cells[x].value) != cls(h.cells[y].value)
  }

  /** One pass of the inner loop: `node.remove_neighbor(n)` when `n` and
      `node` fall into different classes. */
  function Step<T(==)>(h: Heap<T>, node: NodeId, n: NodeId, cls: T -> int): (r: Heap<T>)
    requires Valid(h) && node < |h.cells| && n < |h.cells|
    ensures Valid(r) && |r.cells| == |h.cells|
    ensures forall x :: 0 <= x < |h.cells| ==> r.cells[x].value == h.cells[x].value
    ensures Symmetric(h) ==> Symmetric(r)
    ensures NoDupLists(h) ==> NoDupLists(r)
  {
    if Split(h, cls, n, node) then RemoveNeighbor(h, node, n) else h
  }

  /** A pass removes the edge between `node` and `n`, both ways, exactly
      when they fall into different classes. */
  lemma StepAdj<T>(h: Heap<T>, node: NodeId, n: NodeId, cls: T -> int, x: NodeId, y: NodeId)
    requires Valid(h) && node < |h.cells| && n < |h.cells| && x < |h.cells| && y < |h.cells|
    ensures Adj(Step(h, node, n, cls), x, y) <==>
      Adj(h, x, y) && !(Split(h, cls, x, y) && ((x == node && y == n) || (x == n && y == node)))
  {
  }

  /** The inner loop of the partition, `for n in node.neighbors() { if
      n.value() % 2 != node.value() % 2 { node.remove_neighbor(n) } }`, over
      the snapshot `ns` of `node`'s list taken when the loop starts. */
  function DropSplit<T(==)>(h: Heap<T>, node: NodeId, ns: seq<NodeId>, cls: T -> int): (r: Heap<T>)
    requires Valid(h) && node < |h.cells| && forall y :: y in ns ==> y < |h.cells|
    ensures Valid(r) && |r.cells| == |h.cells|
    ensures forall x :: 0 <= x < |h.cells| ==> r.cells[x].value == h.cells[x].value
    ensures Symmetric(h) ==> Symmetric(r)
    ensures NoDupLists(h) ==> NoDupLists(r)
    decreases |ns|
  {
    if |ns| == 0 then h
    else
      assert ns[0] in ns && forall y :: y in ns[1..] ==> y in ns;
      DropSplit(Step(h, node, ns[0], cls), node, ns[1..], cls)
  }

  /** The outer loop, `for node in nodes.iter() { .. }`, over a list of
      nodes collected before it starts; each node's list is read afresh. */
  function Partition<T(==)>(h: Heap<T>, nodes: seq<NodeId>, cls: T -> int): (r: Heap<T>)
    requires Valid(h) && forall y :: y in nodes ==> y < |h.cells|
    ensures Valid(r) && |r.cells| == |h.cells|
    ensures forall x :: 0 <= x < |h.cells| ==> r.cells[x].value == h.cells[x].value
    ensures Symmetric(h) ==> Symmetric(r)
    ensures NoDupLists(h) ==> NoDupLists(r)
    decreases |nodes|
  {
    if |nodes| == 0 then h
    else
      assert nodes[0] in nodes && forall y :: y in nodes[1..] ==> y in nodes;
      Partition(DropSplit(h, nodes[0], Neighbors(h, nodes[0]), cls), nodes[1..], cls)
  }

  /** The inner loop removes exactly the edges between `node` and a listed
      node of the other class, in both directions. */
  lemma {:induction false} DropSplitAdj<T>(h: Heap<T>, node: NodeId, ns: seq<NodeId>, cls: T -> int, x: NodeId, y: NodeId)
    requires Valid(h) && node < |h.cells| && forall y :: y in ns ==> y < |h.cells|
    requires x < |h.cells| && y < |h.cells|
    ensures Adj(DropSplit(h, node, ns, cls), x, y) <==>
      Adj(h, x, y) && !(Split(h, cls, x, y) && ((x == node && y in ns) || (y == node && x in ns)))
    decreases |ns|
  {
    if |ns| > 0 {
      var n := ns[0];
      assert n in ns && forall y :: y in ns[1..] ==> y in ns;
      var h1 := Step(h, node, n, cls);
      StepAdj(h, node, n, cls, x, y);
      DropSplitAdj(h1, node, ns[1..], cls, x, y);
      assert Split(h1, cls, x, y) == Split(h, cls, x, y);
      assert forall z :: z in ns <==> z == n || z in ns[1..] by {
        assert ns == [n] + ns[1..];
      }
    }
  }

  /** With the snapshot of `node`'s own list, the inner loop removes every
      edge between `node` and a node of the other class. */
  lemma DropSplitAll<T>(h: Heap<T>, node: NodeId, cls: T -> int, x: NodeId, y: NodeId)
    requires Valid(h) && Symmetric(h) && node < |h.cells| && x < |h.cells| && y < |h.cells|
    ensures Adj(DropSplit(h, node, Neighbors(h, node), cls), x, y) <==>
      Adj(h, x, y) && !(Split(h, cls, x, y) && (x == node || y == node))
  {
    DropSplitAdj(h, node, Neighbors(h, node), cls, x, y);
  }

  /** The partition removes exactly the edges between two nodes of
      different classes at least one of which it visits. */
  lemma {:induction false} PartitionAdj<T>(h: Heap<T>, nodes: seq<NodeId>, cls: T -> int, x: NodeId, y: NodeId)
    requires Valid(h) && Symmetric(h) && forall y :: y in nodes ==> y < |h.cells|
    requires x < |h.cells| && y < |h.cells|
    ensures Adj(Partition(h, nodes, cls), x, y) <==>
      Adj(h, x, y) && !(Split(h, cls, x, y) && (x in nodes || y in nodes))
    decreases |nodes|
  {
    if |nodes| > 0 {
      assert nodes[0] in nodes && forall y :: y in nodes[1..] ==> y in nodes;
      var h1 := DropSplit(h, nodes[0], Neighbors(h, nodes[0]), cls);
      assert Partition(h, nodes, cls) == Partition(h1, nodes[1..], cls);
      DropSplitAll(h, nodes[0], cls, x, y);
      PartitionAdj(h1, nodes[1..], cls, x, y);
      assert Split(h1, cls, x, y) == Split(h, cls, x, y);
      assert nodes == [nodes[0]] + nodes[1..];
      assert (x in nodes) == (x == nodes[0] || x in nodes[1..]);
      assert (y in nodes) == (y == nodes[0] || y in nodes[1..]);
    }
  }

  // ---------------------------------------------------------------- the partition of a clique

  /** The positions, from `i` on, of the labels in class `c`, in order. */
  function KeptFrom<T>(labels: seq<T>, cls: T -> int, c: int, i: nat): (r: seq<nat>)
    requires i <= |labels|
    ensures forall k :: k in r <==> i <= k < |labels| && cls(labels[k]) == c
    ensures forall j :: 0 <= j < |r| ==> i <= r[j] < |labels|
    ensures forall a, b :: 0 <= a < b < |r| ==> r[a] < r[b]
    decreases |labels| - i
  {
    if i == |labels| then []
    else
      var rest := KeptFrom(labels, cls, c, i + 1);
      if cls(labels[i]) == c then [i] + rest else rest
  }

  /** The labels at the given positions. */
  function Kept<T>(labels: seq<T>, ids: seq<nat>): (r: seq<T>)
    requires forall j :: 0 <= j < |ids| ==> ids[j] < |labels|
    ensures |r| == |ids| && forall j :: 0 <= j < |ids| ==> r[j] == labels[ids[j]]
  {
    seq(|ids|, j requires 0 <= j < |ids| => labels[ids[j]])
  }

  /** The labels of one class, in their original order. */
  function Class<T>(labels: seq<T>, cls: T -> int, c: int): (r: seq<T>)
    ensures forall v :: v in r ==> v in labels && cls(v) == c
  {
    var ids := KeptFrom(labels, cls, c, 0);
    var r := Kept(labels, ids);
    assert forall v :: v in r ==> exists j :: 0 <= j < |ids| && r[j] == v;
    r
  }

  /** The class is the labels at the positions kept. */
  lemma ClassAt<T>(labels: seq<T>, cls: T -> int, c: int, ids: seq<nat>)
    requires KeptFrom(labels, cls, c, 0) == ids
    ensures forall j :: 0 <= j < |ids| ==> ids[j] < |labels|
    ensures Class(labels, cls, c) == Kept(labels, ids)
  {
  }

  lemma ClassDistinct<T>(labels: seq<T>, cls: T -> int, c: int)
    requires NoDup(labels)
    ensures NoDup(Class(labels, cls, c))
  {
  }

  /** The graph of the `remove_neighbor` test: the clique over `labels`
      built, then partitioned by class through the start node's neighbors
      and the start node. */
  function PartitionedClique<T(==)>(labels: seq<T>, cls: T -> int): (h: Heap<T>)
    requires |labels| > 0 && NoDup(labels)
    ensures Valid(h) && |h.cells| == |labels| && Undirected(h)
  {
    CliqueWellFormed(labels);
    var g := MakeGraph(CliqueOf(labels)).value.0;
    Partition(g, Around(g, 0), cls)
  }

  /** In the partitioned clique node `x` keeps label `x`, and two nodes are
      joined exactly when they are distinct and in the same class. */
  lemma PartitionedCliqueAdj<T>(labels: seq<T>, cls: T -> int, x: NodeId, y: NodeId)
    requires |labels| > 0 && NoDup(labels) && x < |labels| && y < |labels|
    ensures var h := PartitionedClique(labels, cls);
      h.cells[x].value == labels[x] &&
      (Adj(h, x, y) <==> x != y && cls(labels[x]) == cls(labels[y]))
  {
    var s := CliqueOf(labels);
    CliqueWellFormed(labels);
    var g := MakeGraph(s).value.0;
    var around := Around(g, 0);
    BuiltAdj(s, 0, x);
    CliqueAdj(labels, 0, x);
    BuiltAdj(s, 0, y);
    CliqueAdj(labels, 0, y);
    assert x in around && y in around;
    PartitionAdj(g, around, cls, x, y);
    BuiltAdj(s, x, y);
    CliqueAdj(labels, x, y);
    MakeGraphValue(s, x);
    MakeGraphValue(s, y);
  }

  /** `h` joins node `x`, labelled `labels[x]`, to every other node of
      the same class and to nothing else. */
  ghost predicate ClassCliques<T>(h: Heap<T>, labels: seq<T>, cls: T -> int) {
    && Valid(h) && NoDupLists(h) && |h.cells| == |labels| && NoDup(labels)
    && (forall x :: 0 <= x < |labels| ==> h.cells[x].value == labels[x])
    && (forall x, y :: 0 <= x < |labels| && 0 <= y < |labels| ==>
          (Adj(h, x, y) <==> x != y && cls(labels[x]) == cls(labels[y])))
  }

  /** The partitioned clique joins exactly the nodes of one class. */
  lemma PartitionedIsClassCliques<T>(labels: seq<T>, cls: T -> int)
    requires |labels| > 0 && NoDup(labels)
    ensures ClassCliques(PartitionedClique(labels, cls), labels, cls)
  {
    var h := PartitionedClique(labels, cls);
    forall x | 0 <= x < |labels|
      ensures h.cells[x].value == labels[x]
    {
      PartitionedCliqueAdj(labels, cls, x, x);
    }
    forall x, y | 0 <= x < |labels| && 0 <= y < |labels|
      ensures Adj(h, x, y) <==> x != y && cls(labels[x]) == cls(labels[y])
    {
      PartitionedCliqueAdj(labels, cls, x, y);
    }
  }

  lemma ClassCliquesDistinctValues<T>(h: Heap<T>, labels: seq<T>, cls: T -> int)
    requires ClassCliques(h, labels, cls)
    ensures DistinctValues(h)
  {
  }

  /** Only nodes of node 0's class can be reached from it. */
  lemma ClassCliquesReachInClass<T>(h: Heap<T>, labels: seq<T>, cls: T -> int, x: NodeId)
    requires ClassCliques(h, labels, cls) && 0 < |labels| && x < |labels| && Reachable(h, 0, x)
    ensures cls(labels[x]) == cls(labels[0])
  {
    var inClass := set z | 0 <= z < |labels| && cls(labels[z]) == cls(labels[0]);
    forall z, y | z in inClass && 0 <= z < |h.cells| && y in h.cells[z].neighbors
      ensures y in inClass
    {
      assert Adj(h, z, y);
    }
    ClosedHoldsReachable(h, inClass, 0, x);
  }

  /** The node at the `j`-th position of node 0's class is reachable from
      node 0. */
  lemma ClassCliquesReach<T>(h: Heap<T>, labels: seq<T>, cls: T -> int, j: nat)
    requires ClassCliques(h, labels, cls) && 0 < |labels|
    requires j < |KeptFrom(labels, cls, cls(labels[0]), 0)|
    ensures Reachable(h, 0, KeptFrom(labels, cls, cls(labels[0]), 0)[j])
  {
    var x := KeptFrom(labels, cls, cls(labels[0]), 0)[j];
    ReachableSelf(h, 0);
    if x != 0 {
      assert Adj(h, 0, x);
      ReachableStep(h, 0, 0, x);
    }
  }

  /** A label of class `c` sits at some position of that class. */
  lemma KeptIndex<T>(labels: seq<T>, cls: T -> int, c: int, y: nat) returns (m: nat)
    requires y < |labels| && cls(labels[y]) == c
    ensures m < |KeptFrom(labels, cls, c, 0)| && KeptFrom(labels, cls, c, 0)[m] == y
  {
    var ids := KeptFrom(labels, cls, c, 0);
    assert y in ids;
    m :| 0 <= m < |ids| && ids[m] == y;
  }

  /** A recorded neighbor value is the value of some listed neighbor. */
  lemma EntryNeighbor<T>(h: Heap<T>, x: NodeId, v: T) returns (y: NodeId)
    requires Valid(h) && x < |h.cells| && v in Entry(h, x).1
    ensures y < |h.cells| && Adj(h, x, y) && h.cells[y].value == v
  {
    var vs := Entry(h, x).1;
    var t :| 0 <= t < |vs| && vs[t] == v;
    y := Neighbors(h, x)[t];
  }

  /** A listed neighbor's value is recorded. */
  lemma NeighborValue<T>(h: Heap<T>, x: NodeId, y: NodeId)
    requires Valid(h) && x < |h.cells| && y < |h.cells| && Adj(h, x, y)
    ensures h.cells[y].value in Entry(h, x).1
  {
    var u :| 0 <= u < |Neighbors(h, x)| && Neighbors(h, x)[u] == y;
    assert Entry(h, x).1[u] == h.cells[y].value;
  }

  /** Every neighbor value of the node at the `j`-th position of the class
      is listed by clique entry `j`. */
  lemma ClassCliquesNeighborOut<T>(h: Heap<T>, labels: seq<T>, cls: T -> int, j: nat, v: T)
    requires ClassCliques(h, labels, cls) && 0 < |labels|
    requires j < |KeptFrom(labels, cls, cls(labels[0]), 0)|
    requires v in Entry(h, KeptFrom(labels, cls, cls(labels[0]), 0)[j]).1
    ensures v in CliqueOf(Class(labels, cls, cls(labels[0])))[j].1
  {
    var c := cls(labels[0]);
    var ids := KeptFrom(labels, cls, c, 0);
    var x := ids[j];
    var y := EntryNeighbor(h, x, v);
    assert y != x && cls(labels[y]) == c;
    var m := KeptIndex(labels, cls, c, y);
    var k := Class(labels, cls, c);
    assert k[m] == labels[y] == v;
    CliqueHas(k, j, m);
  }

  /** Every value clique entry `j` lists is a neighbor value of the node at
      the `j`-th position of the class. */
  lemma ClassCliquesNeighborIn<T>(h: Heap<T>, labels: seq<T>, cls: T -> int, j: nat, v: T)
    requires ClassCliques(h, labels, cls) && 0 < |labels|
    requires j < |KeptFrom(labels, cls, cls(labels[0]), 0)|
    requires v in CliqueOf(Class(labels, cls, cls(labels[0])))[j].1
    ensures v in Entry(h, KeptFrom(labels, cls, cls(labels[0]), 0)[j]).1
  {
    var c := cls(labels[0]);
    var ids := KeptFrom(labels, cls, c, 0);
    var k := Class(labels, cls, c);
    var m := CliqueMember(k, j, v);
    var x, y := ids[j], ids[m];
    assert x in ids && y in ids;
    assert x != y && cls(labels[x]) == c && cls(labels[y]) == c;
    assert Adj(h, x, y);
    assert h.cells[y].value == v;
    NeighborValue(h, x, y);
  }

  /** A value clique entry `j` lists is the label at another position. */
  lemma CliqueMember<T>(k: seq<T>, j: nat, v: T) returns (m: nat)
    requires NoDup(k) && j < |k| && v in CliqueOf(k)[j].1
    ensures m < |k| && m != j && k[m] == v
  {
    CliqueLists(k);
    var e := CliqueOf(k)[j].1;
    var t :| 0 <= t < |e| && e[t] == v;
    m :| 0 <= m < |k| && k[m] == v;
    CliqueAdj(k, j, m);
  }

  /** Entry `j` of the clique over node 0's class is matched by the node at
      the `j`-th position of that class. */
  lemma ClassCliquesMatches<T>(h: Heap<T>, labels: seq<T>, cls: T -> int, j: nat)
    requires ClassCliques(h, labels, cls) && 0 < |labels|
    requires j < |KeptFrom(labels, cls, cls(labels[0]), 0)|
    ensures var ids := KeptFrom(labels, cls, cls(labels[0]), 0);
      Matches(h, 0, ids[j], CliqueOf(Class(labels, cls, cls(labels[0])))[j])
  {
    var c := cls(labels[0]);
    var ids := KeptFrom(labels, cls, c, 0);
    var k := Class(labels, cls, c);
    var x := ids[j];
    var vs := Entry(h, x).1;
    var es := CliqueOf(k)[j].1;
    ClassCliquesReach(h, labels, cls, j);
    ClassCliquesDistinctValues(h, labels, cls);
    ValuesOfNoDup(h, Neighbors(h, x));
    ClassDistinct(labels, cls, c);
    CliqueLists(k);
    forall v
      ensures v in vs <==> v in es
    {
      if v in vs {
        ClassCliquesNeighborOut(h, labels, cls, j, v);
      }
      if v in es {
        ClassCliquesNeighborIn(h, labels, cls, j, v);
      }
    }
    SameElementsSameMultiset(vs, es);
  }

  /** Read from node 0, such a graph is the clique over node 0's class. */
  lemma ClassCliquesDescribed<T>(h: Heap<T>, labels: seq<T>, cls: T -> int)
    requires ClassCliques(h, labels, cls) && 0 < |labels|
    ensures SameShape(ParseGraph(h, 0), CliqueOf(Class(labels, cls, cls(labels[0]))))
  {
    var c := cls(labels[0]);
    var ids := KeptFrom(labels, cls, c, 0);
    var k := Class(labels, cls, c);
    var e := CliqueOf(k);
    ClassDistinct(labels, cls, c);
    forall x | 0 <= x < |h.cells| && Reachable(h, 0, x)
      ensures h.cells[x].value in Keys(e)
    {
      ClassCliquesReachInClass(h, labels, cls, x);
      var m :| 0 <= m < |ids| && ids[m] == x;
      assert k[m] == labels[x];
    }
    forall j | 0 <= j < |e|
      ensures Matches(h, 0, ids[j], e[j])
    {
      ClassCliquesMatches(h, labels, cls, j);
    }
    ClassCliquesDistinctValues(h, labels, cls);
    ParseGraphDescribed(h, 0, e, ids);
  }

  /** The `remove_neighbor` test, for any clique of distinct labels and any
      class function: after the partition, the graph read from the start
      node is the clique over the labels of the start node's class, in
      their original order. */
  lemma PartitionClique<T>(labels: seq<T>, cls: T -> int)
    requires |labels| > 0 && NoDup(labels)
    ensures SameShape(ParseGraph(PartitionedClique(labels, cls), 0), CliqueOf(Class(labels, cls, cls(labels[0]))))
  {
    PartitionedIsClassCliques(labels, cls);
    ClassCliquesDescribed(PartitionedClique(labels, cls), labels, cls);
  }
}
