/** The declarative description the tests build graphs from and read them
    back into: `Spec<T> = Vec<(T, Vec<T>)>`, one entry per node, holding the
    node's value and the values of its neighbors. */
module Shape {
  import opened Seqs

  type Spec<T> = seq<(T, seq<T>)>

  /** The entry values, in entry order. */
  function Keys<T>(s: Spec<T>): (r: seq<T>)
    ensures |r| == |s| && forall i :: 0 <= i < |s| ==> r[i] == s[i].0
  {
    seq(|s|, i requires 0 <= i < |s| => s[i].0)
  }

  lemma KeysAppend<T>(s: Spec<T>, e: (T, seq<T>))
    ensures Keys(s + [e]) == Keys(s) + [e.0]
  {
  }

  /** No two entries carry the same value. */
  ghost predicate DistinctKeys<T>(s: Spec<T>) {
    forall i, j :: 0 <= i < j < |s| ==> s[i].0 != s[j].0
  }

  /** `nodes.iter().find(|n| n.value() == v)` over nodes made from the
      entries in order: the first entry carrying `v`, if any. */
  function IndexOf<T(==)>(s: Spec<T>, v: T): (r: Option<nat>)
    ensures r.Some? ==> r.value < |s| && s[r.value].0 == v
    ensures r.Some? ==> forall k :: 0 <= k < r.value ==> s[k].0 != v
    ensures r.None? ==> forall k :: 0 <= k < |s| ==> s[k].0 != v
  {
    IndexFrom(s, v, 0)
  }

  function IndexFrom<T(==)>(s: Spec<T>, v: T, i: nat): (r: Option<nat>)
    requires i <= |s|
    ensures r.Some? ==> i <= r.value < |s| && s[r.value].0 == v
    ensures r.Some? ==> forall k :: i <= k < r.value ==> s[k].0 != v
    ensures r.None? ==> forall k :: i <= k < |s| ==> s[k].0 != v
    decreases |s| - i
  {
    if i == |s| then None
    else if s[i].0 == v then Some(i)
    else IndexFrom(s, v, i + 1)
  }

  /** With distinct entry values, `find` lands on the one entry carrying the
      value. */
  lemma IndexOfDistinct<T>(s: Spec<T>, m: nat)
    requires DistinctKeys(s) && m < |s|
    ensures IndexOf(s, s[m].0) == Some(m)
  {
  }

  /** Two descriptions denote the same graph: no value is described twice in
      either, both describe the same values, and each value has the same
      neighbor values (with multiplicity) in both, in whatever order. */
  ghost predicate SameShape<T>(p: Spec<T>, e: Spec<T>) {
    && DistinctKeys(p) && DistinctKeys(e)
    && (forall i :: 0 <= i < |p| ==> p[i].0 in Keys(e))
    && (forall j :: 0 <= j < |e| ==> e[j].0 in Keys(p))
    && (forall i, j :: 0 <= i < |p| && 0 <= j < |e| && p[i].0 == e[j].0 ==>
          multiset(p[i].1) == multiset(e[j].1))
  }

  /** `p` is a sequence of entry indices, each listing the next one's value. */
  ghost predicate IsIndexPath<T>(s: Spec<T>, p: seq<nat>) {
    && |p| > 0
    && (forall i :: 0 <= i < |p| ==> p[i] < |s|)
    && (forall i :: 0 <= i < |p| - 1 ==> s[p[i + 1]].0 in s[p[i]].1)
  }

  /** Entry `i` can be reached from the first entry. */
  ghost predicate EntryReachable<T>(s: Spec<T>, i: nat) {
    exists p :: IsIndexPath(s, p) && p[0] == 0 && p[|p| - 1] == i
  }

  /** Every entry can be reached from the first one. */
  ghost predicate Connected<T>(s: Spec<T>) {
    forall i :: 0 <= i < |s| ==> EntryReachable(s, i)
  }

  /** A description the round trip reproduces: distinct values, no repeated
      neighbor, no entry listing itself, every listed neighbor is an entry,
      every edge is listed from both ends, and everything hangs together from
      the first entry. */
  ghost predicate WellFormed<T>(s: Spec<T>) {
    && |s| > 0
    && DistinctKeys(s)
    && (forall i :: 0 <= i < |s| ==> NoDup(s[i].1))
    && (forall i :: 0 <= i < |s| ==> s[i].0 !in s[i].1)
    && (forall i, j :: 0 <= i < |s| && 0 <= j < |s[i].1| ==> s[i].1[j] in Keys(s))
    && (forall i, k :: 0 <= i < |s| && 0 <= k < |s| ==> (s[k].0 in s[i].1 <==> s[i].0 in s[k].1))
    && Connected(s)
  }

  /** Connectivity from a spanning tree: every entry after the first is
      listed by an earlier one. */
  lemma ConnectedByParent<T>(s: Spec<T>, parent: nat -> nat)
    requires |s| > 0
    requires forall i :: 0 < i < |s| ==> parent(i) < i && s[i].0 in s[parent(i)].1
    ensures Connected(s)
  {
    forall i | 0 <= i < |s|
      ensures EntryReachable(s, i)
    {
      var p := PathToRoot(s, parent, i);
      assert IsIndexPath(s, p) && p[0] == 0 && p[|p| - 1] == i;
    }
  }

  lemma {:induction false} PathToRoot<T>(s: Spec<T>, parent: nat -> nat, i: nat) returns (p: seq<nat>)
    requires i < |s|
    requires forall i :: 0 < i < |s| ==> parent(i) < i && s[i].0 in s[parent(i)].1
    ensures IsIndexPath(s, p) && p[0] == 0 && p[|p| - 1] == i
    decreases i
  {
    if i == 0 {
      p := [0];
    } else {
      var q := PathToRoot(s, parent, parent(i));
      p := q + [i];
      assert p[|p| - 2] == parent(i);
    }
  }
}
