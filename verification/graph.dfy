/** The undirected graph of `lib.rs`. A `Node<T>` is a shared handle to one
    `RefCell<RawNode<T>>`; here every cell lives at an address of a `Heap`
    (cells are allocated in order and never freed), a handle is that
    address, and cloning a handle copies the address, so every alias of a
    node reads the same cell. Handle equality is address
    equality (see the README for when this agrees with the source's derived
    `PartialEq`). */
module Graph {
  import opened Seqs

  type NodeId = nat

  /** `RawNode<T>`: the stored value and the ordered adjacency list. */
  datatype RawNode<T> = RawNode(value: T, neighbors: seq<NodeId>)

  /** The cells allocated so far; the cell of address `x` is `cells[x]`. */
  datatype Heap<T> = Heap(cells: seq<RawNode<T>>)

  /** Every adjacency entry is a live node (the entries are strong `Rc`
      handles, so they never dangle). */
  ghost predicate Valid<T>(h: Heap<T>) {
    forall id, y :: 0 <= id < |h.cells| && y in h.cells[id].neighbors ==> y < |h.cells|
  }

  /** `x` lists `y` as a neighbor. */
  predicate Adj<T>(h: Heap<T>, x: NodeId, y: NodeId)
    requires x < |h.cells|
  {
    y in h.cells[x].neighbors
  }

  /** The graph is undirected: `x` lists `y` exactly when `y` lists `x`. */
  ghost predicate Symmetric<T>(h: Heap<T>) {
    forall x, y :: 0 <= x < |h.cells| && 0 <= y < |h.cells| ==> (Adj(h, x, y) <==> Adj(h, y, x))
  }

  /** No adjacency list holds the same node twice. */
  ghost predicate NoDupLists<T>(h: Heap<T>) {
    forall x :: 0 <= x < |h.cells| ==> NoDup(h.cells[x].neighbors)
  }

  ghost predicate Undirected<T>(h: Heap<T>) {
    Symmetric(h) && NoDupLists(h)
  }

  /** No two nodes carry the same value. */
  ghost predicate DistinctValues<T>(h: Heap<T>) {
    forall x, y :: 0 <= x < |h.cells| && 0 <= y < |h.cells| && x != y ==> h.cells[x].value != h.cells[y].value
  }

  /** `Node::new` (with `RawNode::new`): a fresh cell holding `value` and an
      empty adjacency list. */
  function New<T>(h: Heap<T>, value: T): (r: (Heap<T>, NodeId))
    requires Valid(h)
    ensures Valid(r.0) && r.1 == |h.cells| && |r.0.cells| == |h.cells| + 1
    ensures r.0.cells[r.1].value == value && r.0.cells[r.1].neighbors == []
    ensures forall x :: 0 <= x < |h.cells| ==> r.0.cells[x] == h.cells[x]
    ensures forall x :: 0 <= x < |r.0.cells| ==> !Adj(r.0, x, r.1)
    ensures Undirected(h) ==> Undirected(r.0)
  {
    var r := Heap(h.cells + [RawNode(value, [])]);
    assert forall x :: 0 <= x < |h.cells| ==> r.cells[x] == h.cells[x];
    assert forall x, y :: 0 <= x < |h.cells| ==> (Adj(r, x, y) <==> Adj(h, x, y));
    (r, |h.cells|)
  }

  /** `Node::value`: the value stored in the shared cell, which is also the
      value every neighbor list naming the node reads. */
  function Value<T>(h: Heap<T>, id: NodeId): (r: T)
    requires id < |h.cells|
    ensures Valid(h) ==> forall x, k :: 0 <= x < |h.cells| && 0 <= k < |h.cells[x].neighbors| && h.cells[x].neighbors[k] == id ==>
      ValuesOf(h, h.cells[x].neighbors)[k] == r
  {
    h.cells[id].value
  }

  /** `Node::neighbors`: a snapshot of the adjacency list, in insertion
      order. */
  function Neighbors<T>(h: Heap<T>, id: NodeId): (r: seq<NodeId>)
    requires Valid(h) && id < |h.cells|
    ensures forall y :: y in r ==> y < |h.cells|
    ensures forall y :: 0 <= y < |h.cells| ==> (y in r <==> Adj(h, id, y))
    ensures Symmetric(h) ==> forall y :: y in r ==> y < |h.cells| && Adj(h, y, id)
    ensures NoDupLists(h) ==> NoDup(r)
  {
    h.cells[id].neighbors
  }

  /** The values of a sequence of live nodes, in the same order. */
  function ValuesOf<T>(h: Heap<T>, ids: seq<NodeId>): (r: seq<T>)
    requires forall y :: y in ids ==> y < |h.cells|
    ensures |r| == |ids|
    ensures forall k :: 0 <= k < |ids| ==> ids[k] in ids && r[k] == h.cells[ids[k]].value
  {
    seq(|ids|, k requires 0 <= k < |ids| => assert ids[k] in ids; h.cells[ids[k]].value)
  }

  /** `Node::update_value`: read the value, apply `f`, write the result back. */
  function UpdateValue<T>(h: Heap<T>, id: NodeId, f: T -> T): (r: Heap<T>)
    requires Valid(h) && id < |h.cells|
    ensures Valid(r) && |r.cells| == |h.cells|
    ensures r.cells[id].value == f(h.cells[id].value)
    ensures r.cells[id].neighbors == h.cells[id].neighbors
    ensures forall x :: 0 <= x < |h.cells| && x != id ==> r.cells[x] == h.cells[x]
    ensures Undirected(h) ==> Undirected(r)
  {
    var v := Value(h, id);
    var r := Heap(h.cells[id := RawNode(f(v), h.cells[id].neighbors)]);
    assert forall x, y :: 0 <= x < |h.cells| ==> (Adj(r, x, y) <==> Adj(h, x, y));
    r
  }

  /** Overwrite `x`'s adjacency list, keeping its value. */
  function SetNeighbors<T>(h: Heap<T>, x: NodeId, ns: seq<NodeId>): (r: Heap<T>)
    requires Valid(h) && x < |h.cells|
    requires forall y :: y in ns ==> y < |h.cells|
    ensures Valid(r) && |r.cells| == |h.cells|
    ensures forall z :: 0 <= z < |h.cells| && z != x ==> r.cells[z] == h.cells[z]
    ensures r.cells[x] == RawNode(h.cells[x].value, ns)
  {
    Heap(h.cells[x := RawNode(h.cells[x].value, ns)])
  }

  /** One guarded push of `add_neighbor`: `y` is appended to `x`'s list
      unless the list already contains it. */
  function Link<T>(h: Heap<T>, x: NodeId, y: NodeId): (r: Heap<T>)
    requires Valid(h) && x < |h.cells| && y < |h.cells|
    ensures Valid(r) && |r.cells| == |h.cells|
    ensures forall z :: 0 <= z < |h.cells| && z != x ==> r.cells[z] == h.cells[z]
    ensures r.cells[x].value == h.cells[x].value
    ensures h.cells[x].neighbors <= r.cells[x].neighbors
    ensures |r.cells[x].neighbors| <= |h.cells[x].neighbors| + 1
    ensures y in h.cells[x].neighbors ==> r.cells[x] == h.cells[x]
    ensures forall z, w :: 0 <= z < |h.cells| ==> (Adj(r, z, w) <==> Adj(h, z, w) || (z == x && w == y))
    ensures NoDupLists(h) ==> NoDupLists(r)
  {
    var ns := h.cells[x].neighbors;
    if y in ns then h
    else
      AppendAbsentNoDup(ns, y);
      SetNeighbors(h, x, ns + [y])
  }

  /** `Node::add_neighbor`: `b` is pushed onto `a`'s list, then `a` onto
      `b`'s list, each only when absent. The second push sees the first, so
      a self-loop is recorded once. */
  function AddNeighbor<T>(h: Heap<T>, a: NodeId, b: NodeId): (r: Heap<T>)
    requires Valid(h) && a < |h.cells| && b < |h.cells|
    ensures Valid(r) && |r.cells| == |h.cells|
    ensures forall x :: 0 <= x < |h.cells| ==> r.cells[x].value == h.cells[x].value
    ensures forall x :: 0 <= x < |h.cells| && x != a && x != b ==> r.cells[x] == h.cells[x]
    ensures Adj(r, a, b) && Adj(r, b, a)
    ensures Neighbors(h, a) <= Neighbors(r, a) && |Neighbors(r, a)| <= |Neighbors(h, a)| + 1
    ensures Neighbors(h, b) <= Neighbors(r, b) && |Neighbors(r, b)| <= |Neighbors(h, b)| + 1
    ensures b in Neighbors(h, a) ==> Neighbors(r, a) == Neighbors(h, a)
    ensures a in Neighbors(h, b) ==> Neighbors(r, b) == Neighbors(h, b)
    ensures forall x, y :: 0 <= x < |h.cells| && 0 <= y < |h.cells| ==>
      (Adj(r, x, y) <==> Adj(h, x, y) || (x == a && y == b) || (x == b && y == a))
    ensures Symmetric(h) ==> Symmetric(r)
    ensures NoDupLists(h) ==> NoDupLists(r)
  {
    Link(Link(h, a, b), b, a)
  }

  /** Appending an absent element keeps a sequence duplicate-free. */
  lemma AppendAbsentNoDup<X>(s: seq<X>, x: X)
    requires x !in s
    ensures NoDup(s) ==> NoDup(s + [x])
  {
  }

  /** One direction of `remove_neighbor`: `retain` on `x`'s list. */
  function Unlink<T(==)>(h: Heap<T>, x: NodeId, y: NodeId): (r: Heap<T>)
    requires Valid(h) && x < |h.cells|
    ensures Valid(r) && |r.cells| == |h.cells|
    ensures forall z :: 0 <= z < |h.cells| && z != x ==> r.cells[z] == h.cells[z]
    ensures r.cells[x].value == h.cells[x].value
    ensures r.cells[x].neighbors == Without(h.cells[x].neighbors, y)
    ensures y !in h.cells[x].neighbors ==> r == h
    ensures forall z, w :: 0 <= z < |h.cells| ==> (Adj(r, z, w) <==> Adj(h, z, w) && !(z == x && w == y))
    ensures NoDupLists(h) ==> NoDupLists(r)
  {
    var ns := Without(h.cells[x].neighbors, y);
    if y !in h.cells[x].neighbors then h
    else
      assert NoDupLists(h) ==> NoDup(ns) by {
        if NoDupLists(h) {
          WithoutNoDup(h.cells[x].neighbors, y);
        }
      }
      SetNeighbors(h, x, ns)
  }

  /** `Node::remove_neighbor`: every entry for `b` leaves `a`'s list and
      every entry for `a` leaves `b`'s list; other entries keep their order. */
  function RemoveNeighbor<T(==)>(h: Heap<T>, a: NodeId, b: NodeId): (r: Heap<T>)
    requires Valid(h) && a < |h.cells| && b < |h.cells|
    ensures Valid(r) && |r.cells| == |h.cells|
    ensures forall x :: 0 <= x < |h.cells| ==> r.cells[x].value == h.cells[x].value
    ensures forall x :: 0 <= x < |h.cells| && x != a && x != b ==> r.cells[x] == h.cells[x]
    ensures !Adj(r, a, b) && !Adj(r, b, a)
    ensures Neighbors(r, a) == Without(Neighbors(h, a), b)
    ensures a != b ==> Neighbors(r, b) == Without(Neighbors(h, b), a)
    ensures forall x, y :: 0 <= x < |h.cells| && 0 <= y < |h.cells| ==>
      (Adj(r, x, y) <==> Adj(h, x, y) && !(x == a && y == b) && !(x == b && y == a))
    ensures !Adj(h, a, b) && !Adj(h, b, a) ==> r == h
    ensures Symmetric(h) ==> Symmetric(r)
    ensures NoDupLists(h) ==> NoDupLists(r)
  {
    Unlink(Unlink(h, a, b), b, a)
  }

  /** Adding the same edge twice leaves the state of adding it once. */
  lemma AddNeighborIdempotent<T>(h: Heap<T>, a: NodeId, b: NodeId)
    requires Valid(h) && a < |h.cells| && b < |h.cells|
    ensures AddNeighbor(AddNeighbor(h, a, b), a, b) == AddNeighbor(h, a, b)
  {
  }

  /** A self-loop is recorded exactly once in the node's own list. The
      list starts empty or holding only the node: with any other node in it,
      the source's `contains` re-borrows the cell and panics. */
  lemma AddSelfLoopOnce<T>(h: Heap<T>, a: NodeId)
    requires Valid(h) && a < |h.cells| && (Neighbors(h, a) == [] || Neighbors(h, a) == [a])
    ensures var r := AddNeighbor(h, a, a);
      && Neighbors(r, a) == (if a in Neighbors(h, a) then Neighbors(h, a) else Neighbors(h, a) + [a])
      && multiset(Neighbors(r, a))[a] == 1
  {
    NoDupCounts(Neighbors(AddNeighbor(h, a, a), a));
  }

  /** Removing an edge twice leaves the state of removing it once. */
  lemma RemoveNeighborIdempotent<T>(h: Heap<T>, a: NodeId, b: NodeId)
    requires Valid(h) && a < |h.cells| && b < |h.cells|
    ensures RemoveNeighbor(RemoveNeighbor(h, a, b), a, b) == RemoveNeighbor(h, a, b)
  {
  }

  /** Every handle reads the latest write: after `update_value` on `a`, the
      value read through any adjacency entry that resolves to `a` is the new
      one, and entries for other nodes read what they read before. */
  lemma ValueReadsLatestWrite<T>(h: Heap<T>, a: NodeId, f: T -> T, x: NodeId)
    requires Valid(h) && a < |h.cells| && x < |h.cells|
    ensures var r := UpdateValue(h, a, f);
      && Value(r, a) == f(Value(h, a))
      && Neighbors(r, x) == Neighbors(h, x)
      && |ValuesOf(r, Neighbors(r, x))| == |Neighbors(h, x)|
      && forall k :: 0 <= k < |Neighbors(h, x)| ==>
           ValuesOf(r, Neighbors(r, x))[k]
             == if Neighbors(h, x)[k] == a then f(Value(h, a)) else ValuesOf(h, Neighbors(h, x))[k]
  {
  }

  // Reachability

  /** `p` is a walk: consecutive nodes are adjacent. */
  ghost predicate IsWalk<T>(h: Heap<T>, p: seq<NodeId>) {
    && |p| > 0
    && (forall i :: 0 <= i < |p| ==> p[i] < |h.cells|)
    && (forall i :: 0 <= i < |p| - 1 ==> Adj(h, p[i], p[i + 1]))
  }

  /** `to` can be reached from `from` by following adjacency entries. */
  ghost predicate Reachable<T>(h: Heap<T>, from: NodeId, to: NodeId) {
    exists p :: IsWalk(h, p) && p[0] == from && p[|p| - 1] == to
  }

  /** Every node of `s` lists only nodes of `s`. */
  ghost predicate ClosedUnderAdj<T>(h: Heap<T>, s: set<NodeId>) {
    forall x, y :: x in s && 0 <= x < |h.cells| && y in h.cells[x].neighbors ==> y in s
  }

  lemma ReachableSelf<T>(h: Heap<T>, g: NodeId)
    requires g < |h.cells|
    ensures Reachable(h, g, g)
  {
    assert IsWalk(h, [g]);
  }

  lemma ReachableStep<T>(h: Heap<T>, g: NodeId, x: NodeId, y: NodeId)
    requires x < |h.cells| && y < |h.cells| && Reachable(h, g, x) && Adj(h, x, y)
    ensures Reachable(h, g, y)
  {
    var p :| IsWalk(h, p) && p[0] == g && p[|p| - 1] == x;
    var q := p + [y];
    assert IsWalk(h, q);
    assert q[0] == g && q[|q| - 1] == y;
  }

  /** A set closed under adjacency that holds `from` holds everything
      reachable from it. */
  lemma ClosedHoldsReachable<T>(h: Heap<T>, s: set<NodeId>, from: NodeId, to: NodeId)
    requires ClosedUnderAdj(h, s) && from in s && Reachable(h, from, to)
    ensures to in s
  {
    var p :| IsWalk(h, p) && p[0] == from && p[|p| - 1] == to;
    WalkStaysIn(h, s, p, |p| - 1);
  }

  lemma {:induction false} WalkStaysIn<T>(h: Heap<T>, s: set<NodeId>, p: seq<NodeId>, i: nat)
    requires ClosedUnderAdj(h, s) && IsWalk(h, p) && p[0] in s && i < |p|
    ensures p[i] in s
  {
    if i > 0 {
      WalkStaysIn(h, s, p, i - 1);
      assert Adj(h, p[i - 1], p[i]);
    }
  }
}
