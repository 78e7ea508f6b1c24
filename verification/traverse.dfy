/** `parse_graph` of the tests: read a graph back into a description by a
    worklist traversal from one node, recording each value once. */
module Traverse {
  import opened Seqs
  import opened Graph
  import opened Shape

  /** What `parse_graph` records for node `x`: its value and its neighbors'
      values, in adjacency order. */
  function Entry<T>(h: Heap<T>, x: NodeId): (e: (T, seq<T>))
    requires Valid(h) && x < |h.cells|
    ensures e.0 == h.cells[x].value && |e.1| == |h.cells[x].neighbors|
    ensures forall k :: 0 <= k < |h.cells[x].neighbors| ==>
      h.cells[x].neighbors[k] < |h.cells| && e.1[k] == h.cells[h.cells[x].neighbors[k]].value
  {
    (Value(h, x), ValuesOf(h, Neighbors(h, x)))
  }

  /** The nodes whose value has not been recorded yet. */
  function Unvisited<T(==)>(h: Heap<T>, res: Spec<T>): set<NodeId> {
    set x | 0 <= x < |h.cells| && h.cells[x].value !in Keys(res)
  }

  /** Recording a new value leaves strictly fewer unvisited nodes. */
  lemma UnvisitedShrinks<T>(h: Heap<T>, res: Spec<T>, x: NodeId, ns: seq<T>)
    requires x < |h.cells| && h.cells[x].value !in Keys(res)
    ensures Unvisited(h, res + [(h.cells[x].value, ns)]) < Unvisited(h, res)
  {
    KeysAppend(res, (h.cells[x].value, ns));
    assert x in Unvisited(h, res);
  }

  /** The `while let Some(node) = work.pop()` loop: pop the last node; skip
      it when its value is recorded; otherwise record its entry and push its
      neighbors. The recorded list only ever grows at the end. */
  function Visit<T(==)>(h: Heap<T>, res: Spec<T>, work: seq<NodeId>): (r: Spec<T>)
    requires Valid(h) && forall y :: y in work ==> y < |h.cells|
    ensures |res| <= |r| && r[..|res|] == res
    decreases Unvisited(h, res), |work|
  {
    if |work| == 0 then res
    else
      var node := work[|work| - 1];
      var rest := work[..|work| - 1];
      assert node in work && forall y :: y in rest ==> y in work;
      if Value(h, node) in Keys(res) then Visit(h, res, rest)
      else
        var e := Entry(h, node);
        UnvisitedShrinks(h, res, node, e.1);
        var r := Visit(h, res + [e], rest + Neighbors(h, node));
        assert r[..|res|] == (r[..|res + [e]|])[..|res|];
        r
  }

  /** `parse_graph(graph)`: the start node's entry, then the traversal from
      its neighbors. */
  function ParseGraph<T(==)>(h: Heap<T>, root: NodeId): (r: Spec<T>)
    requires Valid(h) && root < |h.cells|
    ensures |r| > 0 && r[0] == Entry(h, root)
  {
    var r := Visit(h, [Entry(h, root)], Neighbors(h, root));
    assert r[..1][0] == r[0];
    r
  }

  /** A value is recorded at most once: a popped node whose value is known
      is skipped. */
  lemma {:induction false} VisitDistinct<T>(h: Heap<T>, res: Spec<T>, work: seq<NodeId>)
    requires Valid(h) && forall y :: y in work ==> y < |h.cells|
    requires DistinctKeys(res)
    ensures DistinctKeys(Visit(h, res, work))
    decreases Unvisited(h, res), |work|
  {
    if |work| > 0 {
      var node := work[|work| - 1];
      var rest := work[..|work| - 1];
      assert node in work && forall y :: y in rest ==> y in work;
      if Value(h, node) in Keys(res) {
        VisitDistinct(h, res, rest);
      } else {
        var e := Entry(h, node);
        UnvisitedShrinks(h, res, node, e.1);
        assert forall i :: 0 <= i < |res| ==> res[i].0 in Keys(res);
        VisitDistinct(h, res + [e], rest + Neighbors(h, node));
      }
    }
  }

  lemma ParseGraphDistinct<T>(h: Heap<T>, root: NodeId)
    requires Valid(h) && root < |h.cells|
    ensures DistinctKeys(ParseGraph(h, root))
  {
    VisitDistinct(h, [Entry(h, root)], Neighbors(h, root));
  }

  /** Every recorded entry is the entry of a node reachable from `root`. */
  ghost predicate RecordsReachable<T>(h: Heap<T>, root: NodeId, res: Spec<T>)
    requires Valid(h)
  {
    forall i :: 0 <= i < |res| ==>
      exists x :: 0 <= x < |h.cells| && Reachable(h, root, x) && res[i] == Entry(h, x)
  }

  /** Every pending node is reachable from `root`. */
  ghost predicate WorkReachable<T>(h: Heap<T>, root: NodeId, work: seq<NodeId>) {
    forall y :: y in work ==> Reachable(h, root, y)
  }

  /** Recording a reachable node keeps every record reachable. */
  lemma RecordsReachableSnoc<T>(h: Heap<T>, root: NodeId, res: Spec<T>, x: NodeId)
    requires Valid(h) && x < |h.cells| && Reachable(h, root, x) && RecordsReachable(h, root, res)
    ensures RecordsReachable(h, root, res + [Entry(h, x)])
  {
    var r := res + [Entry(h, x)];
    forall i | 0 <= i < |r|
      ensures exists z :: 0 <= z < |h.cells| && Reachable(h, root, z) && r[i] == Entry(h, z)
    {
      if i == |res| {
        assert r[i] == Entry(h, x);
      } else {
        assert r[i] == res[i];
      }
    }
  }

  /** Pushing the neighbors of a reachable node keeps the work reachable. */
  lemma WorkReachableExtend<T>(h: Heap<T>, root: NodeId, rest: seq<NodeId>, x: NodeId)
    requires Valid(h) && x < |h.cells| && Reachable(h, root, x) && WorkReachable(h, root, rest)
    ensures WorkReachable(h, root, rest + Neighbors(h, x))
  {
    forall y | y in Neighbors(h, x)
      ensures Reachable(h, root, y)
    {
      ReachableStep(h, root, x, y);
    }
  }

  lemma {:induction false} VisitSound<T>(h: Heap<T>, root: NodeId, res: Spec<T>, work: seq<NodeId>)
    requires Valid(h) && forall y :: y in work ==> y < |h.cells|
    requires RecordsReachable(h, root, res) && WorkReachable(h, root, work)
    ensures RecordsReachable(h, root, Visit(h, res, work))
    decreases Unvisited(h, res), |work|
  {
    if |work| > 0 {
      var node := work[|work| - 1];
      var rest := work[..|work| - 1];
      assert node in work && forall y :: y in rest ==> y in work;
      if Value(h, node) in Keys(res) {
        VisitSound(h, root, res, rest);
      } else {
        var e := Entry(h, node);
        UnvisitedShrinks(h, res, node, e.1);
        RecordsReachableSnoc(h, root, res, node);
        WorkReachableExtend(h, root, rest, node);
        VisitSound(h, root, res + [e], rest + Neighbors(h, node));
      }
    }
  }

  /** `parse_graph` records only nodes reachable from its start. */
  lemma ParseGraphSound<T>(h: Heap<T>, root: NodeId, i: nat)
    requires Valid(h) && root < |h.cells| && i < |ParseGraph(h, root)|
    ensures exists x :: 0 <= x < |h.cells| && Reachable(h, root, x) && ParseGraph(h, root)[i] == Entry(h, x)
  {
    ReachableSelf(h, root);
    WorkReachableExtend(h, root, [], root);
    RecordsReachableSnoc(h, root, [], root);
    assert [] + Neighbors(h, root) == Neighbors(h, root);
    assert [] + [Entry(h, root)] == [Entry(h, root)];
    VisitSound(h, root, [Entry(h, root)], Neighbors(h, root));
  }

  /** Every neighbor of a node whose value is recorded is either recorded
      or still pending. */
  ghost predicate Frontier<T>(h: Heap<T>, res: Spec<T>, work: seq<NodeId>) {
    forall x, y :: 0 <= x < |h.cells| && 0 <= y < |h.cells| && h.cells[x].value in Keys(res) && y in h.cells[x].neighbors ==>
      h.cells[y].value in Keys(res) || y in work
  }

  /** Skipping a node whose value is recorded keeps the frontier. */
  lemma FrontierSkip<T>(h: Heap<T>, res: Spec<T>, rest: seq<NodeId>, node: NodeId)
    requires node < |h.cells| && h.cells[node].value in Keys(res) && Frontier(h, res, rest + [node])
    ensures Frontier(h, res, rest)
  {
  }

  /** Recording a node and pushing its neighbors keeps the frontier, when
      values are distinct. */
  lemma FrontierPush<T>(h: Heap<T>, res: Spec<T>, rest: seq<NodeId>, node: NodeId)
    requires Valid(h) && DistinctValues(h) && node < |h.cells| && Frontier(h, res, rest + [node])
    ensures Frontier(h, res + [Entry(h, node)], rest + Neighbors(h, node))
  {
    KeysAppend(res, Entry(h, node));
  }

  lemma {:induction false} VisitComplete<T>(h: Heap<T>, res: Spec<T>, work: seq<NodeId>)
    requires Valid(h) && forall y :: y in work ==> y < |h.cells|
    requires DistinctValues(h) && Frontier(h, res, work)
    ensures Frontier(h, Visit(h, res, work), [])
    decreases Unvisited(h, res), |work|
  {
    if |work| > 0 {
      var node := work[|work| - 1];
      var rest := work[..|work| - 1];
      assert node in work && forall y :: y in rest ==> y in work;
      assert work == rest + [node];
      if Value(h, node) in Keys(res) {
        FrontierSkip(h, res, rest, node);
        VisitComplete(h, res, rest);
      } else {
        var e := Entry(h, node);
        UnvisitedShrinks(h, res, node, e.1);
        FrontierPush(h, res, rest, node);
        VisitComplete(h, res + [e], rest + Neighbors(h, node));
      }
    }
  }

  /** The nodes whose value is recorded. */
  ghost function Recorded<T>(h: Heap<T>, res: Spec<T>): set<NodeId> {
    set z | 0 <= z < |h.cells| && h.cells[z].value in Keys(res)
  }

  /** With nothing pending, the recorded nodes are closed under adjacency. */
  lemma FrontierClosed<T>(h: Heap<T>, res: Spec<T>)
    requires Valid(h) && Frontier(h, res, [])
    ensures ClosedUnderAdj(h, Recorded(h, res))
  {
  }

  /** At the start only the start node is recorded, and its neighbors are
      pending. */
  lemma FrontierInit<T>(h: Heap<T>, root: NodeId)
    requires Valid(h) && DistinctValues(h) && root < |h.cells|
    ensures Frontier(h, [Entry(h, root)], Neighbors(h, root))
  {
    assert Keys([Entry(h, root)]) == [h.cells[root].value];
  }

  /** With distinct values, `parse_graph` records every node reachable from
      its start. */
  lemma ParseGraphComplete<T>(h: Heap<T>, root: NodeId, x: NodeId)
    requires Valid(h) && DistinctValues(h) && root < |h.cells| && x < |h.cells|
    requires Reachable(h, root, x)
    ensures h.cells[x].value in Keys(ParseGraph(h, root))
  {
    var r := ParseGraph(h, root);
    FrontierInit(h, root);
    VisitComplete(h, [Entry(h, root)], Neighbors(h, root));
    FrontierClosed(h, r);
    assert r[0].0 in Keys(r);
    ClosedHoldsReachable(h, Recorded(h, r), root, x);
  }
}
