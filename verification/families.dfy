/** The shapes the round-trip tests draw, over any list of distinct labels:
    a clique (every label joined to every other), a star (the first label
    joined to all others), a rope (each label joined to the next) and a
    ring (a rope whose ends are joined). Each is a well-formed description,
    so the round trip reproduces it. */
module Families {
  import opened Seqs
  import opened Shape

  /** Entry `i` lists every label but its own, in label order. */
  function CliqueOf<T>(labels: seq<T>): (s: Spec<T>)
    ensures Keys(s) == labels
  {
    seq(|labels|, i requires 0 <= i < |labels| => (labels[i], labels[..i] + labels[i + 1..]))
  }

  /** The first entry lists every other label; every other entry lists the
      first label only. */
  function StarOf<T>(labels: seq<T>): (s: Spec<T>)
    requires |labels| > 0
    ensures Keys(s) == labels
  {
    seq(|labels|, i requires 0 <= i < |labels| =>
      if i == 0 then (labels[0], labels[1..]) else (labels[i], [labels[0]]))
  }

  /** Entry `i` lists the label before it (if any), then the one after it
      (if any). */
  function RopeOf<T>(labels: seq<T>): (s: Spec<T>)
    ensures Keys(s) == labels
  {
    seq(|labels|, i requires 0 <= i < |labels| => (labels[i], RopeNeighbors(labels, i)))
  }

  function RopeNeighbors<T>(labels: seq<T>, i: nat): (r: seq<T>)
    requires i < |labels|
  {
    if |labels| == 1 then []
    else if i == 0 then [labels[1]]
    else if i == |labels| - 1 then [labels[i - 1]]
    else [labels[i - 1], labels[i + 1]]
  }

  /** The position before `i` on a ring of `n`. */
  function Prev(n: nat, i: nat): (r: nat)
    requires i < n
    ensures r < n
  {
    if i == 0 then n - 1 else i - 1
  }

  /** The position after `i` on a ring of `n`. */
  function Next(n: nat, i: nat): (r: nat)
    requires i < n
    ensures r < n
  {
    if i == n - 1 then 0 else i + 1
  }

  /** Stepping forward then back returns to the start. */
  lemma PrevNext(n: nat, i: nat, k: nat)
    requires i < n && k < n
    ensures k == Next(n, i) <==> i == Prev(n, k)
  {
  }

  /** Entry `i` lists the label before it, then the one after it, the ends
      wrapping around. */
  function RingOf<T>(labels: seq<T>): (s: Spec<T>)
    ensures Keys(s) == labels
  {
    var n := |labels|;
    seq(n, i requires 0 <= i < n => (labels[i], [labels[Prev(n, i)], labels[Next(n, i)]]))
  }

  /** With distinct labels, a label names one position. */
  lemma LabelAt<T>(labels: seq<T>, i: nat, k: nat)
    requires NoDup(labels) && i < |labels| && k < |labels|
    ensures labels[i] == labels[k] <==> i == k
  {
  }

  /** The checks of a well-formed description, given the entry values are
      distinct labels, each list is duplicate-free, made of labels and free
      of the entry's own label, the "lists" relation is symmetric and every
      later entry is listed by an earlier one. */
  lemma WellFormedFrom<T>(s: Spec<T>, labels: seq<T>, parent: nat -> nat)
    requires |s| > 0 && Keys(s) == labels && NoDup(labels)
    requires forall i :: 0 <= i < |s| ==> NoDup(s[i].1) && labels[i] !in s[i].1
    requires forall i, j :: 0 <= i < |s| && 0 <= j < |s[i].1| ==> s[i].1[j] in labels
    requires forall i, k :: 0 <= i < |s| && 0 <= k < |s| ==> (labels[k] in s[i].1 <==> labels[i] in s[k].1)
    requires forall i :: 0 < i < |s| ==> parent(i) < i && s[i].0 in s[parent(i)].1
    ensures WellFormed(s)
  {
    ConnectedByParent(s, parent);
  }

  /** The labels other than the one at `i`, as clique entry `i` lists them. */
  lemma OthersIndex<T>(labels: seq<T>, i: nat, j: nat)
    requires i < |labels| && j < |labels| - 1
    ensures (labels[..i] + labels[i + 1..])[j] == labels[if j < i then j else j + 1]
  {
  }

  lemma CliqueLists<T>(labels: seq<T>)
    requires NoDup(labels)
    ensures var s := CliqueOf(labels);
      && (forall i :: 0 <= i < |s| ==> NoDup(s[i].1))
      && (forall i, j :: 0 <= i < |s| && 0 <= j < |s[i].1| ==> s[i].1[j] in labels)
  {
    var s := CliqueOf(labels);
    forall i, j | 0 <= i < |s| && 0 <= j < |s[i].1|
      ensures s[i].1[j] in labels
    {
      OthersIndex(labels, i, j);
    }
    forall i | 0 <= i < |s|
      ensures NoDup(s[i].1)
    {
      forall j, m | 0 <= j < m < |s[i].1|
        ensures s[i].1[j] != s[i].1[m]
      {
        OthersIndex(labels, i, j);
        OthersIndex(labels, i, m);
      }
    }
  }

  lemma CliqueAdj<T>(labels: seq<T>, i: nat, k: nat)
    requires NoDup(labels) && i < |labels| && k < |labels|
    ensures labels[k] in CliqueOf(labels)[i].1 <==> i != k
  {
    var others := labels[..i] + labels[i + 1..];
    if labels[k] in others {
      var j :| 0 <= j < |others| && others[j] == labels[k];
      OthersIndex(labels, i, j);
    }
    if k < i {
      OthersIndex(labels, i, k);
    } else if k > i {
      OthersIndex(labels, i, k - 1);
    }
  }

  /** Clique entry `i` lists every other label, distinct or not. */
  lemma CliqueHas<T>(labels: seq<T>, i: nat, k: nat)
    requires i < |labels| && k < |labels| && i != k
    ensures labels[k] in CliqueOf(labels)[i].1
  {
    var j := if k < i then k else k - 1;
    OthersIndex(labels, i, j);
    assert (labels[..i] + labels[i + 1..])[j] == labels[k];
  }

  /** A clique over at least one distinct label is well-formed. */
  lemma CliqueWellFormed<T>(labels: seq<T>)
    requires |labels| > 0 && NoDup(labels)
    ensures WellFormed(CliqueOf(labels))
  {
    var s := CliqueOf(labels);
    CliqueLists(labels);
    forall i, k | 0 <= i < |s| && 0 <= k < |s|
      ensures labels[k] in s[i].1 <==> labels[i] in s[k].1
    {
      CliqueAdj(labels, i, k);
      CliqueAdj(labels, k, i);
    }
    forall i | 0 < i < |s|
      ensures s[i].0 in s[0].1
    {
      CliqueAdj(labels, 0, i);
    }
    WellFormedFrom(s, labels, i => 0);
  }

  lemma StarAdj<T>(labels: seq<T>, i: nat, k: nat)
    requires NoDup(labels) && i < |labels| && k < |labels|
    ensures labels[k] in StarOf(labels)[i].1 <==> (i == 0) != (k == 0)
  {
    LabelAt(labels, 0, k);
    if i == 0 && labels[k] in labels[1..] {
      var j :| 0 <= j < |labels| - 1 && labels[1..][j] == labels[k];
      LabelAt(labels, j + 1, k);
    }
    if i == 0 && k != 0 {
      assert labels[1..][k - 1] == labels[k];
    }
  }

  /** A star over at least one distinct label is well-formed. */
  lemma StarWellFormed<T>(labels: seq<T>)
    requires |labels| > 0 && NoDup(labels)
    ensures WellFormed(StarOf(labels))
  {
    var s := StarOf(labels);
    forall i, k | 0 <= i < |s| && 0 <= k < |s|
      ensures labels[k] in s[i].1 <==> labels[i] in s[k].1
    {
      StarAdj(labels, i, k);
      StarAdj(labels, k, i);
    }
    forall i | 0 < i < |s|
      ensures s[i].0 in s[0].1
    {
      StarAdj(labels, 0, i);
    }
    WellFormedFrom(s, labels, i => 0);
  }

  lemma RopeEntry<T>(labels: seq<T>, i: nat)
    requires NoDup(labels) && i < |labels|
    ensures var ns := RopeNeighbors(labels, i);
      NoDup(ns) && forall j :: 0 <= j < |ns| ==> ns[j] in labels
  {
    if 0 < i < |labels| - 1 {
      LabelAt(labels, i - 1, i + 1);
    }
  }

  lemma RopeLists<T>(labels: seq<T>)
    requires NoDup(labels)
    ensures var s := RopeOf(labels);
      && (forall i :: 0 <= i < |s| ==> NoDup(s[i].1))
      && (forall i, j :: 0 <= i < |s| && 0 <= j < |s[i].1| ==> s[i].1[j] in labels)
  {
    var s := RopeOf(labels);
    forall i | 0 <= i < |s|
      ensures NoDup(s[i].1) && forall j :: 0 <= j < |s[i].1| ==> s[i].1[j] in labels
    {
      RopeEntry(labels, i);
    }
  }

  lemma RopeAdj<T>(labels: seq<T>, i: nat, k: nat)
    requires NoDup(labels) && i < |labels| && k < |labels|
    ensures labels[k] in RopeOf(labels)[i].1 <==> k + 1 == i || i + 1 == k
  {
    var n := |labels|;
    var ns := RopeNeighbors(labels, i);
    assert RopeOf(labels)[i].1 == ns;
    if n == 1 {
      assert ns == [];
    } else if i == 0 {
      assert ns == [labels[1]];
      LabelAt(labels, 1, k);
    } else if i == n - 1 {
      assert ns == [labels[i - 1]];
      LabelAt(labels, i - 1, k);
    } else {
      assert ns == [labels[i - 1], labels[i + 1]];
      LabelAt(labels, i - 1, k);
      LabelAt(labels, i + 1, k);
    }
  }

  /** A rope over at least one distinct label is well-formed. */
  lemma RopeWellFormed<T>(labels: seq<T>)
    requires |labels| > 0 && NoDup(labels)
    ensures WellFormed(RopeOf(labels))
  {
    var s := RopeOf(labels);
    RopeLists(labels);
    forall i, k | 0 <= i < |s| && 0 <= k < |s|
      ensures labels[k] in s[i].1 <==> labels[i] in s[k].1
    {
      RopeAdj(labels, i, k);
      RopeAdj(labels, k, i);
    }
    forall i | 0 < i < |s|
      ensures s[i].0 in s[i - 1].1
    {
      RopeAdj(labels, i - 1, i);
    }
    WellFormedFrom(s, labels, i => if i > 0 then i - 1 else 0);
  }

  lemma RingEntry<T>(labels: seq<T>, i: nat)
    requires |labels| >= 3 && NoDup(labels) && i < |labels|
    ensures var ns := RingOf(labels)[i].1;
      NoDup(ns) && forall j :: 0 <= j < |ns| ==> ns[j] in labels
  {
    var n := |labels|;
    LabelAt(labels, Prev(n, i), Next(n, i));
  }

  lemma RingLists<T>(labels: seq<T>)
    requires |labels| >= 3 && NoDup(labels)
    ensures var s := RingOf(labels);
      && (forall i :: 0 <= i < |s| ==> NoDup(s[i].1))
      && (forall i, j :: 0 <= i < |s| && 0 <= j < |s[i].1| ==> s[i].1[j] in labels)
  {
    var s := RingOf(labels);
    forall i | 0 <= i < |s|
      ensures NoDup(s[i].1) && forall j :: 0 <= j < |s[i].1| ==> s[i].1[j] in labels
    {
      RingEntry(labels, i);
    }
  }

  lemma RingAdj<T>(labels: seq<T>, i: nat, k: nat)
    requires NoDup(labels) && i < |labels| && k < |labels|
    ensures var n := |labels|;
      labels[k] in RingOf(labels)[i].1 <==> k == Prev(n, i) || k == Next(n, i)
  {
    var n := |labels|;
    LabelAt(labels, Prev(n, i), k);
    LabelAt(labels, Next(n, i), k);
  }

  lemma RingSymmetric<T>(labels: seq<T>, i: nat, k: nat)
    requires NoDup(labels) && i < |labels| && k < |labels|
    ensures labels[k] in RingOf(labels)[i].1 <==> labels[i] in RingOf(labels)[k].1
  {
    var n := |labels|;
    RingAdj(labels, i, k);
    RingAdj(labels, k, i);
    PrevNext(n, i, k);
    PrevNext(n, k, i);
  }

  /** A ring over at least three distinct labels is well-formed. */
  lemma RingWellFormed<T>(labels: seq<T>)
    requires |labels| >= 3 && NoDup(labels)
    ensures WellFormed(RingOf(labels))
  {
    var s := RingOf(labels);
    var n := |labels|;
    RingLists(labels);
    forall i, k | 0 <= i < n && 0 <= k < n
      ensures labels[k] in s[i].1 <==> labels[i] in s[k].1
    {
      RingSymmetric(labels, i, k);
    }
    forall i | 0 < i < n
      ensures s[i].0 in s[i - 1].1
    {
      RingAdj(labels, i - 1, i);
    }
    WellFormedFrom(s, labels, i => if i > 0 then i - 1 else 0);
  }
}
