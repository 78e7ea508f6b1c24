/** `assert_specs_eq` of the tests: sort both descriptions by value, pad
    them to a common length with `match_len`, and compare entry by entry
    (and, inside an entry, neighbor by neighbor after sorting), stopping at
    the first difference. Values are integers here, as the comparison needs
    an order. */
module Compare {
  import opened Seqs
  import opened Shape

  // ---------------------------------------------------------------- sorting

  ghost predicate Sorted(s: seq<int>) {
    forall i, j :: 0 <= i < j < |s| ==> s[i] <= s[j]
  }

  /** Insert `x` before the first element not below it. */
  function Insert(x: int, s: seq<int>): (r: seq<int>)
    requires Sorted(s)
    ensures multiset(r) == multiset(s) + multiset{x}
    ensures |r| == |s| + 1 && (r[0] == x || (|s| > 0 && r[0] == s[0]))
    ensures Sorted(r)
  {
    if |s| == 0 then [x]
    else if x <= s[0] then [x] + s
    else
      var t := Insert(x, s[1..]);
      assert s == [s[0]] + s[1..];
      [s[0]] + t
  }

  /** `Vec::sort` on integers (any correct sort gives the same result, see
      `SortedUnique`). */
  function Sort(s: seq<int>): (r: seq<int>)
    ensures Sorted(r) && multiset(r) == multiset(s)
  {
    if |s| == 0 then []
    else
      assert s == [s[0]] + s[1..];
      Insert(s[0], Sort(s[1..]))
  }

  /** A nonempty list's multiset is its head's plus its tail's. */
  lemma MultisetCons<X>(a: seq<X>)
    requires |a| > 0
    ensures multiset(a) == multiset{a[0]} + multiset(a[1..])
  {
    assert a == [a[0]] + a[1..];
  }

  /** Two sorted lists with the same elements start alike. */
  lemma SortedSameHead(a: seq<int>, b: seq<int>)
    requires Sorted(a) && Sorted(b) && |a| > 0 && multiset(a) == multiset(b)
    ensures |b| > 0 && a[0] == b[0]
  {
    assert a[0] in multiset(b);
    var j :| 0 <= j < |b| && b[j] == a[0];
    assert b[0] in multiset(a);
    var i :| 0 <= i < |a| && a[i] == b[0];
  }

  /** A sorted arrangement of a multiset is unique. */
  lemma {:induction false} SortedUnique(a: seq<int>, b: seq<int>)
    requires Sorted(a) && Sorted(b) && multiset(a) == multiset(b)
    ensures a == b
  {
    if |a| > 0 {
      SortedSameHead(a, b);
      MultisetCons(a);
      MultisetCons(b);
      assert multiset(a[1..]) == multiset(a) - multiset{a[0]};
      assert multiset(b[1..]) == multiset(b) - multiset{b[0]};
      SortedUnique(a[1..], b[1..]);
      assert a == [a[0]] + a[1..] && b == [b[0]] + b[1..];
    } else {
      assert |b| == |multiset(b)|;
    }
  }

  /** Two lists sort to the same list exactly when they hold the same
      elements with the same multiplicities. */
  lemma SortSame(a: seq<int>, b: seq<int>)
    ensures Sort(a) == Sort(b) <==> multiset(a) == multiset(b)
  {
    if multiset(a) == multiset(b) {
      SortedUnique(Sort(a), Sort(b));
    }
  }

  /** The entries are in ascending value order. */
  ghost predicate KeySorted(s: Spec<int>) {
    forall i, j :: 0 <= i < j < |s| ==> s[i].0 <= s[j].0
  }

  /** Insert entry `x` before the first entry whose value is not below its
      own; it goes in front of entries with an equal value, which keeps
      the sort stable. */
  function InsertByKey(x: (int, seq<int>), s: Spec<int>): (r: Spec<int>)
    requires KeySorted(s)
    ensures multiset(r) == multiset(s) + multiset{x}
    ensures |r| == |s| + 1 && (r[0] == x || (|s| > 0 && r[0] == s[0]))
    ensures KeySorted(r)
  {
    if |s| == 0 then [x]
    else if x.0 <= s[0].0 then [x] + s
    else
      var t := InsertByKey(x, s[1..]);
      assert s == [s[0]] + s[1..];
      [s[0]] + t
  }

  /** `sort_by(|a, b| a.0.cmp(&b.0))`: the entries reordered by value. */
  function SortByKey(s: Spec<int>): (r: Spec<int>)
    ensures KeySorted(r) && multiset(r) == multiset(s) && |r| == |s|
  {
    if |s| == 0 then []
    else
      assert s == [s[0]] + s[1..];
      InsertByKey(s[0], SortByKey(s[1..]))
  }

  /** Sorting entries keeps the set of entries. */
  lemma SortByKeyMembers(s: Spec<int>)
    ensures forall a :: a in SortByKey(s) <==> a in s
  {
    assert forall a :: a in SortByKey(s) <==> a in multiset(SortByKey(s));
  }

  /** A value listed by `p` is listed by any `q` holding all of `p`'s
      entries. */
  lemma KeysSubset<T>(p: Spec<T>, q: Spec<T>, v: T)
    requires (forall a :: a in p ==> a in q) && v in Keys(p)
    ensures v in Keys(q)
  {
    var i :| 0 <= i < |p| && Keys(p)[i] == v;
    assert p[i] in q;
    var j :| 0 <= j < |q| && q[j] == p[i];
    assert Keys(q)[j] == v;
  }

  /** Inserting an entry with a new value keeps values distinct. */
  lemma {:induction false} InsertByKeyDistinct(x: (int, seq<int>), s: Spec<int>)
    requires KeySorted(s) && DistinctKeys(s) && x.0 !in Keys(s)
    ensures DistinctKeys(InsertByKey(x, s))
  {
    if |s| > 0 && x.0 > s[0].0 {
      var t := InsertByKey(x, s[1..]);
      assert forall k :: 0 <= k < |s| - 1 ==> s[1..][k] == s[k + 1];
      InsertByKeyDistinct(x, s[1..]);
      forall k | 0 <= k < |t|
        ensures t[k].0 != s[0].0
      {
        assert t[k] in multiset(s[1..]) + multiset{x};
      }
    }
  }

  /** Sorting entries with distinct values keeps them distinct. */
  lemma {:induction false} SortByKeyDistinct(s: Spec<int>)
    requires DistinctKeys(s)
    ensures DistinctKeys(SortByKey(s))
  {
    if |s| > 0 {
      var t := SortByKey(s[1..]);
      assert forall k :: 0 <= k < |s| - 1 ==> s[1..][k] == s[k + 1];
      SortByKeyDistinct(s[1..]);
      forall k | 0 <= k < |t|
        ensures t[k].0 != s[0].0
      {
        assert t[k] in multiset(s[1..]);
      }
      InsertByKeyDistinct(s[0], t);
    }
  }

  // ---------------------------------------------------------------- match_len

  function Repeat<X>(x: X, n: nat): (r: seq<X>)
    ensures |r| == n && forall i :: 0 <= i < n ==> r[i] == x
  {
    seq(n, _ => x)
  }

  /** `match_len(parsed, expected)`: the shorter vector is resized to the
      longer one's length, filled with copies of the longer one's element at
      the shorter one's old length. */
  function MatchLen<X>(p: seq<X>, e: seq<X>): (r: (seq<X>, seq<X>))
    ensures |r.0| == |r.1| && |p| <= |r.0| && |e| <= |r.0| && (|r.0| == |p| || |r.0| == |e|)
    ensures |p| >= |e| ==> r.0 == p
    ensures |e| >= |p| ==> r.1 == e
    ensures r.0[..|p|] == p && r.1[..|e|] == e
    ensures forall i :: |p| <= i < |r.0| ==> r.0[i] == e[|p|]
    ensures forall i :: |e| <= i < |r.1| ==> r.1[i] == p[|e|]
  {
    if |p| < |e| then (p + Repeat(e[|p|], |e| - |p|), e)
    else if |p| > |e| then (p, e + Repeat(p[|e|], |p| - |e|))
    else (p, e)
  }

  // ---------------------------------------------------------------- verdicts

  /** How `assert_specs_eq` ends: it returns, or it panics with one of four
      messages naming a node (and, for neighbors, the neighbor). */
  datatype Verdict =
    | Agree
    | UnexpectedNode(node: int)
    | MissingNode(node: int)
    | UnexpectedNeighbor(neighbor: int, node: int)
    | MissingNeighbor(neighbor: int, node: int)

  /** The inner loop over two neighbor lists of equal length: the first
      position where they differ decides the message. */
  function CompareNeighbors(ps: seq<int>, es: seq<int>, node: int): (v: Verdict)
    requires |ps| == |es|
    ensures v == Agree <==> ps == es
    ensures v.UnexpectedNeighbor? ==> v.neighbor in ps && v.node == node
    ensures v.MissingNeighbor? ==> v.neighbor in es && v.node == node
    ensures !v.UnexpectedNode? && !v.MissingNode?
  {
    if |ps| == 0 then Agree
    else if ps[0] < es[0] then UnexpectedNeighbor(ps[0], node)
    else if ps[0] > es[0] then MissingNeighbor(es[0], node)
    else
      assert ps == [ps[0]] + ps[1..] && es == [es[0]] + es[1..];
      CompareNeighbors(ps[1..], es[1..], node)
  }

  /** One step of the outer loop as written: compare the values, then sort
      both neighbor lists, pad them with `match_len` and compare. */
  function CompareEntry(p: (int, seq<int>), e: (int, seq<int>)): (v: Verdict)
    ensures v.UnexpectedNode? ==> v.node == p.0 && p.0 < e.0
    ensures v.MissingNode? ==> v.node == e.0 && p.0 > e.0
    ensures (v.UnexpectedNeighbor? || v.MissingNeighbor?) ==> v.node == p.0 == e.0
  {
    if p.0 < e.0 then UnexpectedNode(p.0)
    else if p.0 > e.0 then MissingNode(e.0)
    else
      var m := MatchLen(Sort(p.1), Sort(e.1));
      CompareNeighbors(m.0, m.1, p.0)
  }

  /** The outer loop over two entry lists of equal length. */
  function CompareEntries(ps: Spec<int>, es: Spec<int>): (v: Verdict)
    requires |ps| == |es|
    ensures v.UnexpectedNode? ==> v.node in Keys(ps)
    ensures v.MissingNode? ==> v.node in Keys(es)
  {
    if |ps| == 0 then Agree
    else
      var v := CompareEntry(ps[0], es[0]);
      if v != Agree then v
      else
        var w := CompareEntries(ps[1..], es[1..]);
        assert forall k :: 0 <= k < |ps| - 1 ==> ps[1..][k] == ps[k + 1] && es[1..][k] == es[k + 1];
        w
  }

  /** The outer loop as written passes exactly when every aligned pair of
      entries passes its step. */
  lemma {:induction false} CompareEntriesAgree(ps: Spec<int>, es: Spec<int>)
    requires |ps| == |es|
    ensures CompareEntries(ps, es) == Agree <==> forall k :: 0 <= k < |ps| ==> CompareEntry(ps[k], es[k]) == Agree
  {
    if |ps| > 0 {
      var ps', es' := ps[1..], es[1..];
      var v := CompareEntry(ps[0], es[0]);
      if v == Agree {
        CompareEntriesAgree(ps', es');
        assert CompareEntries(ps, es) == CompareEntries(ps', es');
        assert forall k :: 0 < k < |ps| ==> ps[k] == ps'[k - 1] && es[k] == es'[k - 1];
      } else {
        assert CompareEntries(ps, es) == v;
      }
    }
  }

  /** Padding only copies entries of the two inputs. */
  lemma MatchLenMembers<X>(p: seq<X>, e: seq<X>)
    ensures forall a :: a in MatchLen(p, e).0 ==> a in p || a in e
    ensures forall a :: a in MatchLen(p, e).1 ==> a in p || a in e
  {
    var m := MatchLen(p, e);
    assert forall k :: 0 <= k < |m.0| ==> m.0[k] in p || m.0[k] in e by {
      forall k | 0 <= k < |m.0| ensures m.0[k] in p || m.0[k] in e {
        if k < |p| { assert m.0[k] == m.0[..|p|][k]; }
      }
    }
    assert forall k :: 0 <= k < |m.1| ==> m.1[k] in p || m.1[k] in e by {
      forall k | 0 <= k < |m.1| ensures m.1[k] in p || m.1[k] in e {
        if k < |e| { assert m.1[k] == m.1[..|e|][k]; }
      }
    }
  }

  /** `assert_specs_eq(parsed, expected)` as written: sort both by value,
      `match_len`, then the outer loop. A node named in a panic comes from
      one of the two descriptions, but not necessarily from the one the
      message blames (see `AsWrittenBlamesWrongSide`). */
  function AssertSpecsEqAsWritten(parsed: Spec<int>, expected: Spec<int>): (v: Verdict)
    ensures (v.UnexpectedNode? || v.MissingNode?) ==> v.node in Keys(parsed) || v.node in Keys(expected)
  {
    var p := SortByKey(parsed);
    var e := SortByKey(expected);
    var m := MatchLen(p, e);
    var v := CompareEntries(m.0, m.1);
    if v.UnexpectedNode? || v.MissingNode? then
      SortByKeyMembers(parsed);
      SortByKeyMembers(expected);
      MatchLenMembers(p, e);
      assert exists a :: (a in m.0 || a in m.1) && a.0 == v.node;
      v
    else v
  }

  // ---------------------------------------------------------------- corrected

  /** The inner loop compared up to the longer length: a neighbor present
      on one side only is reported on the side it is missing from. */
  function CompareNeighborsFixed(ps: seq<int>, es: seq<int>, node: int): (v: Verdict)
    ensures v == Agree <==> ps == es
    ensures v.UnexpectedNeighbor? ==> v.neighbor in ps && v.node == node
    ensures v.MissingNeighbor? ==> v.neighbor in es && v.node == node
    ensures !v.UnexpectedNode? && !v.MissingNode?
  {
    if |ps| == 0 && |es| == 0 then Agree
    else if |ps| == 0 then MissingNeighbor(es[0], node)
    else if |es| == 0 then UnexpectedNeighbor(ps[0], node)
    else if ps[0] < es[0] then UnexpectedNeighbor(ps[0], node)
    else if ps[0] > es[0] then MissingNeighbor(es[0], node)
    else
      assert ps == [ps[0]] + ps[1..] && es == [es[0]] + es[1..];
      CompareNeighborsFixed(ps[1..], es[1..], node)
  }

  /** One step of the corrected outer loop: the entries agree exactly when
      they carry the same value and the same neighbors with multiplicity. */
  function CompareEntryFixed(p: (int, seq<int>), e: (int, seq<int>)): (v: Verdict)
    ensures v == Agree <==> p.0 == e.0 && multiset(p.1) == multiset(e.1)
    ensures v.UnexpectedNode? ==> v.node == p.0 && p.0 < e.0
    ensures v.MissingNode? ==> v.node == e.0 && p.0 > e.0
    ensures v.UnexpectedNeighbor? ==> v.node == p.0 == e.0 && v.neighbor in p.1
    ensures v.MissingNeighbor? ==> v.node == p.0 == e.0 && v.neighbor in e.1
  {
    if p.0 < e.0 then UnexpectedNode(p.0)
    else if p.0 > e.0 then MissingNode(e.0)
    else
      SortSame(p.1, e.1);
      assert forall x :: x in Sort(p.1) <==> x in multiset(p.1);
      assert forall x :: x in Sort(e.1) <==> x in multiset(e.1);
      CompareNeighborsFixed(Sort(p.1), Sort(e.1), p.0)
  }

  /** The corrected outer loop: an entry present on one side only is
      reported on the side it is missing from. */
  function CompareEntriesFixed(ps: Spec<int>, es: Spec<int>): (v: Verdict)
    ensures v.UnexpectedNode? ==> v.node in Keys(ps)
    ensures v.MissingNode? ==> v.node in Keys(es)
  {
    if |ps| == 0 && |es| == 0 then Agree
    else if |ps| == 0 then MissingNode(es[0].0)
    else if |es| == 0 then UnexpectedNode(ps[0].0)
    else
      var v := CompareEntryFixed(ps[0], es[0]);
      if v != Agree then v
      else
        var w := CompareEntriesFixed(ps[1..], es[1..]);
        assert forall k :: 0 <= k < |ps| - 1 ==> ps[1..][k] == ps[k + 1];
        assert forall k :: 0 <= k < |es| - 1 ==> es[1..][k] == es[k + 1];
        w
  }

  /** Two entry lists agree position by position: same value, same neighbors
      with multiplicity. */
  ghost predicate Matching(ps: Spec<int>, es: Spec<int>) {
    |ps| == |es| && forall i :: 0 <= i < |ps| ==>
      ps[i].0 == es[i].0 && multiset(ps[i].1) == multiset(es[i].1)
  }

  lemma {:induction false} EntriesFixedAgree(ps: Spec<int>, es: Spec<int>)
    ensures CompareEntriesFixed(ps, es) == Agree <==> Matching(ps, es)
  {
    if |ps| > 0 && |es| > 0 {
      EntriesFixedAgree(ps[1..], es[1..]);
      if Matching(ps, es) {
        assert Matching(ps[1..], es[1..]) by {
          forall i | 0 <= i < |ps| - 1
            ensures ps[1..][i].0 == es[1..][i].0 && multiset(ps[1..][i].1) == multiset(es[1..][i].1)
          {
            assert ps[1..][i] == ps[i + 1] && es[1..][i] == es[i + 1];
          }
        }
      }
      if CompareEntriesFixed(ps, es) == Agree {
        forall i | 0 <= i < |ps|
          ensures ps[i].0 == es[i].0 && multiset(ps[i].1) == multiset(es[i].1)
        {
          if i > 0 {
            assert ps[1..][i - 1] == ps[i] && es[1..][i - 1] == es[i];
          }
        }
      }
    }
  }

  /** `assert_specs_eq` with the length mismatch reported instead of padded
      away: sort both by value, then the corrected outer loop. */
  function AssertSpecsEq(parsed: Spec<int>, expected: Spec<int>): (v: Verdict)
    ensures v.UnexpectedNode? ==> v.node in Keys(parsed)
    ensures v.MissingNode? ==> v.node in Keys(expected)
  {
    var p := SortByKey(parsed);
    var e := SortByKey(expected);
    var v := CompareEntriesFixed(p, e);
    SortByKeyMembers(parsed);
    SortByKeyMembers(expected);
    if v.UnexpectedNode? then KeysSubset(p, parsed, v.node); v
    else if v.MissingNode? then KeysSubset(e, expected, v.node); v
    else v
  }

  // ---------------------------------------------------------------- agreement

  ghost predicate StrictlySorted(s: seq<int>) {
    forall i, j :: 0 <= i < j < |s| ==> s[i] < s[j]
  }

  lemma HeadIn<X>(s: seq<X>)
    ensures |s| > 0 ==> s[0] in s
  {
  }

  /** A strictly ascending list is determined by its elements. */
  lemma {:induction false} StrictUnique(a: seq<int>, b: seq<int>)
    requires StrictlySorted(a) && StrictlySorted(b)
    requires forall v :: v in a <==> v in b
    ensures a == b
  {
    if |a| > 0 {
      assert a[0] in a;
      assert b[0] in a;
      assert a[0] == b[0];
      forall v
        ensures v in a[1..] <==> v in b[1..]
      {
        assert v in a[1..] <==> v in a && v != a[0];
        assert v in b[1..] <==> v in b && v != b[0];
      }
      StrictUnique(a[1..], b[1..]);
      assert a == [a[0]] + a[1..] && b == [b[0]] + b[1..];
    } else {
      HeadIn(b);
    }
  }

  /** Sorted by value with distinct values: the values strictly ascend. */
  lemma KeysStrictlySorted(s: Spec<int>)
    requires KeySorted(s) && DistinctKeys(s)
    ensures StrictlySorted(Keys(s))
  {
  }

  /** Two sorted descriptions of the same graph line up entry by entry. */
  lemma MatchingFromSameShape(ps: Spec<int>, es: Spec<int>)
    requires KeySorted(ps) && KeySorted(es) && SameShape(ps, es)
    ensures Matching(ps, es)
  {
    KeysStrictlySorted(ps);
    KeysStrictlySorted(es);
    forall v
      ensures v in Keys(ps) <==> v in Keys(es)
    {
      if v in Keys(ps) {
        var i :| 0 <= i < |ps| && Keys(ps)[i] == v;
      }
      if v in Keys(es) {
        var j :| 0 <= j < |es| && Keys(es)[j] == v;
      }
    }
    StrictUnique(Keys(ps), Keys(es));
    forall i | 0 <= i < |ps|
      ensures ps[i].0 == es[i].0 && multiset(ps[i].1) == multiset(es[i].1)
    {
      assert Keys(ps)[i] == Keys(es)[i];
    }
  }

  /** Entry lists that line up, each without repeated values, describe the
      same graph. */
  lemma SameShapeFromMatching(ps: Spec<int>, es: Spec<int>)
    requires DistinctKeys(ps) && DistinctKeys(es) && Matching(ps, es)
    ensures SameShape(ps, es)
  {
    forall i | 0 <= i < |ps|
      ensures ps[i].0 in Keys(es)
    {
      assert Keys(es)[i] == ps[i].0;
    }
    forall j | 0 <= j < |es|
      ensures es[j].0 in Keys(ps)
    {
      assert Keys(ps)[j] == es[j].0;
    }
  }

  /** Describing the same graph depends only on which entries each
      description holds, not on their order. */
  lemma SameShapeTransfer(p: Spec<int>, q: Spec<int>, e: Spec<int>, f: Spec<int>)
    requires forall a :: a in p <==> a in q
    requires forall a :: a in e <==> a in f
    requires DistinctKeys(q) && DistinctKeys(f) && SameShape(p, e)
    ensures SameShape(q, f)
  {
    forall i | 0 <= i < |q|
      ensures q[i].0 in Keys(f)
    {
      assert q[i] in q;
      var i' :| 0 <= i' < |p| && p[i'] == q[i];
      assert p[i'].0 in Keys(e);
      KeysSubset(e, f, q[i].0);
    }
    forall j | 0 <= j < |f|
      ensures f[j].0 in Keys(q)
    {
      assert f[j] in f;
      var j' :| 0 <= j' < |e| && e[j'] == f[j];
      assert e[j'].0 in Keys(p);
      KeysSubset(p, q, f[j].0);
    }
    forall i, j | 0 <= i < |q| && 0 <= j < |f| && q[i].0 == f[j].0
      ensures multiset(q[i].1) == multiset(f[j].1)
    {
      assert q[i] in q && f[j] in f;
      var i' :| 0 <= i' < |p| && p[i'] == q[i];
      var j' :| 0 <= j' < |e| && e[j'] == f[j];
    }
  }

  /** The corrected `assert_specs_eq` returns exactly when the two
      descriptions denote the same graph (each listing every value once). */
  lemma AssertSpecsEqAgree(parsed: Spec<int>, expected: Spec<int>)
    requires DistinctKeys(parsed) && DistinctKeys(expected)
    ensures AssertSpecsEq(parsed, expected) == Agree <==> SameShape(parsed, expected)
  {
    var p := SortByKey(parsed);
    var e := SortByKey(expected);
    SortByKeyMembers(parsed);
    SortByKeyMembers(expected);
    SortByKeyDistinct(parsed);
    SortByKeyDistinct(expected);
    EntriesFixedAgree(p, e);
    if SameShape(parsed, expected) {
      SameShapeTransfer(parsed, p, expected, e);
      MatchingFromSameShape(p, e);
    }
    if AssertSpecsEq(parsed, expected) == Agree {
      SameShapeFromMatching(p, e);
      SameShapeTransfer(p, parsed, e, expected);
    }
  }

  // ---------------------------------------------------------------- as written vs. corrected

  /** Entry lists that line up pass the outer loop as written. */
  lemma {:induction false} EntriesAgreeFromMatching(ps: Spec<int>, es: Spec<int>)
    requires Matching(ps, es)
    ensures CompareEntries(ps, es) == Agree
  {
    if |ps| > 0 {
      SortSame(ps[0].1, es[0].1);
      assert CompareEntry(ps[0], es[0]) == Agree;
      assert Matching(ps[1..], es[1..]) by {
        forall i | 0 <= i < |ps| - 1
          ensures ps[1..][i].0 == es[1..][i].0 && multiset(ps[1..][i].1) == multiset(es[1..][i].1)
        {
          assert ps[1..][i] == ps[i + 1] && es[1..][i] == es[i + 1];
        }
      }
      EntriesAgreeFromMatching(ps[1..], es[1..]);
    }
  }

  /** The check as written is never stricter than the corrected one: every
      pair the corrected check accepts, the original accepts too. */
  lemma AsWrittenAcceptsWhatFixedAccepts(parsed: Spec<int>, expected: Spec<int>)
    requires AssertSpecsEq(parsed, expected) == Agree
    ensures AssertSpecsEqAsWritten(parsed, expected) == Agree
  {
    var p := SortByKey(parsed);
    var e := SortByKey(expected);
    EntriesFixedAgree(p, e);
    EntriesAgreeFromMatching(p, e);
  }

  /** Sorting entries that are already in ascending order changes nothing. */
  lemma {:induction false} SortByKeyIdentity(s: Spec<int>)
    requires KeySorted(s)
    ensures SortByKey(s) == s
  {
    if |s| > 0 {
      SortByKeyIdentity(s[1..]);
      assert s == [s[0]] + s[1..];
    }
  }

  /** An entry always agrees with itself in the loop as written. */
  lemma EntryAgreesWithItself(x: (int, seq<int>))
    ensures CompareEntry(x, x) == Agree
  {
  }

  /** A common prefix passes the outer loop as written. */
  lemma {:induction false} EntriesSkipPrefix(a: Spec<int>, b: Spec<int>, c: Spec<int>)
    requires |b| == |c|
    ensures CompareEntries(a + b, a + c) == CompareEntries(b, c)
  {
    var ab, ac := a + b, a + c;
    if |a| == 0 {
      assert ab == b && ac == c;
    } else {
      EntryAgreesWithItself(a[0]);
      assert ab[0] == a[0] && ac[0] == a[0];
      assert ab[1..] == a[1..] + b && ac[1..] == a[1..] + c;
      assert CompareEntries(ab, ac) == CompareEntries(ab[1..], ac[1..]);
      EntriesSkipPrefix(a[1..], b, c);
    }
  }

  /** A common prefix passes the corrected outer loop. */
  lemma {:induction false} EntriesFixedSkipPrefix(a: Spec<int>, b: Spec<int>, c: Spec<int>)
    ensures CompareEntriesFixed(a + b, a + c) == CompareEntriesFixed(b, c)
  {
    var ab, ac := a + b, a + c;
    if |a| == 0 {
      assert ab == b && ac == c;
    } else {
      assert ab[0] == a[0] && ac[0] == a[0];
      assert ab[1..] == a[1..] + b && ac[1..] == a[1..] + c;
      assert CompareEntriesFixed(ab, ac) == CompareEntriesFixed(ab[1..], ac[1..]);
      EntriesFixedSkipPrefix(a[1..], b, c);
    }
  }

  /** Sorting the first `k` entries of a sorted list changes nothing. */
  lemma SortedPrefix(s: Spec<int>, k: nat)
    requires KeySorted(s) && k <= |s|
    ensures SortByKey(s[..k]) == s[..k]
  {
    SortByKeyIdentity(s[..k]);
  }

  /** `match_len` pads a list that lacks only its last entry with exactly
      that entry, so the outer loop as written passes. */
  lemma LoopAsWrittenDropLast(e: Spec<int>)
    requires |e| > 0
    ensures CompareEntries(MatchLen(e[..|e| - 1], e).0, MatchLen(e[..|e| - 1], e).1) == Agree
  {
    var m := MatchLen(e[..|e| - 1], e);
    assert m.0 == e by {
      assert m.0[..|e| - 1] == e[..|e| - 1];
    }
    EntriesSkipPrefix(e, [], []);
    assert e + [] == e;
  }

  /** `match_len` pads a list lacking at least two entries with copies of
      the first one lacking; the second copy then sorts below the entry it
      meets, which the outer loop as written reports as "unexpected". */
  lemma LoopAsWrittenBlame(e: Spec<int>, k: nat)
    requires k + 2 <= |e| && e[k].0 < e[k + 1].0
    ensures CompareEntries(MatchLen(e[..k], e).0, MatchLen(e[..k], e).1) == UnexpectedNode(e[k].0)
  {
    var p := e[..k];
    var m := MatchLen(p, e);
    var pad := Repeat(e[k], |e| - k);
    assert m.0 == p + pad by {
      assert m.0[..k] == p;
    }
    assert e == p + e[k..];
    EntriesSkipPrefix(p, pad, e[k..]);
    EntryAgreesWithItself(e[k]);
    assert pad[1..][0] == e[k] && e[k..][1..][0] == e[k + 1];
    assert CompareEntries(pad, e[k..]) == CompareEntries(pad[1..], e[k..][1..]);
  }

  /** With distinct values, an entry's value is absent from the entries
      before it. */
  lemma NotInPrefixKeys(e: Spec<int>, k: nat)
    requires DistinctKeys(e) && k < |e|
    ensures e[k].0 !in Keys(e[..k])
  {
    assert forall i :: 0 <= i < k ==> Keys(e[..k])[i] == e[i].0;
  }

  /** A description that lacks a value the other one has does not describe
      the same graph. */
  lemma NotSameShapeWhenLacking(p: Spec<int>, e: Spec<int>, v: int)
    requires v in Keys(e) && v !in Keys(p)
    ensures !SameShape(p, e)
  {
    var j :| 0 <= j < |e| && Keys(e)[j] == v;
  }

  /** The value at position `k` of the sorted description is described by
      it and not by the first `k` entries. */
  lemma DroppedValue(expected: Spec<int>, k: nat)
    requires DistinctKeys(expected) && k < |expected|
    ensures var e := SortByKey(expected);
      e[k].0 !in Keys(e[..k]) && e[k].0 in Keys(expected) && !SameShape(e[..k], expected)
  {
    var e := SortByKey(expected);
    SortByKeyDistinct(expected);
    NotInPrefixKeys(e, k);
    SortByKeyMembers(expected);
    assert e[k] in e[k..];
    KeysSubset(e[k..], expected, e[k].0);
    NotSameShapeWhenLacking(e[..k], expected, e[k].0);
  }

  /** Drop from a description the entry with the largest value: the check as
      written still passes, though the two describe different graphs. */
  lemma AsWrittenMissesLastNode(expected: Spec<int>)
    requires DistinctKeys(expected) && |expected| > 0
    ensures var e := SortByKey(expected);
      AssertSpecsEqAsWritten(e[..|e| - 1], expected) == Agree &&
      !SameShape(e[..|e| - 1], expected)
  {
    var e := SortByKey(expected);
    var q := e[..|e| - 1];
    SortedPrefix(e, |e| - 1);
    LoopAsWrittenDropLast(e);
    var m := MatchLen(q, e);
    assert CompareEntries(m.0, m.1) == Agree;
    assert AssertSpecsEqAsWritten(q, expected) == Agree by {
      assert SortByKey(q) == q;
    }
    DroppedValue(expected, |e| - 1);
  }

  /** Drop from a description every entry from the `k`-th smallest value on,
      at least two of them: the check as written fails, but names the first
      dropped value as "unexpected", though it is the parsed side that lacks
      it. */
  lemma AsWrittenBlamesWrongSide(expected: Spec<int>, k: nat)
    requires DistinctKeys(expected) && k + 2 <= |expected|
    ensures var e := SortByKey(expected);
      AssertSpecsEqAsWritten(e[..k], expected) == UnexpectedNode(e[k].0) &&
      e[k].0 !in Keys(e[..k]) && e[k].0 in Keys(expected)
  {
    var e := SortByKey(expected);
    SortedPrefix(e, k);
    SortByKeyDistinct(expected);
    LoopAsWrittenBlame(e, k);
    DroppedValue(expected, k);
  }

  /** The corrected outer loop on a proper prefix of a list reports the
      first entry past the prefix as missing. */
  lemma FixedLoopOnPrefix(e: Spec<int>, k: nat)
    requires k < |e|
    ensures CompareEntriesFixed(e[..k], e) == MissingNode(e[k].0)
  {
    var p := e[..k];
    assert e == p + e[k..] && p == p + [];
    EntriesFixedSkipPrefix(p, [], e[k..]);
  }

  /** The corrected check names the first dropped value as "missing". */
  lemma FixedReportsMissing(expected: Spec<int>, k: nat)
    requires k < |expected|
    ensures var e := SortByKey(expected);
      AssertSpecsEq(e[..k], expected) == MissingNode(e[k].0)
  {
    var e := SortByKey(expected);
    SortedPrefix(e, k);
    FixedLoopOnPrefix(e, k);
  }

  /** A node that lost its largest neighbor passes the check as written. */
  lemma AsWrittenMissesLastNeighbor()
    ensures AssertSpecsEqAsWritten([(1, [])], [(1, [1])]) == Agree
    ensures !SameShape([(1, [])], [(1, [1])])
  {
    var p: Spec<int> := [(1, [])];
    var e: Spec<int> := [(1, [1])];
    SortByKeyIdentity(p);
    SortByKeyIdentity(e);
    assert Sort([1]) == [1];
    assert MatchLen([], [1]).0 == [1];
    assert multiset(p[0].1) != multiset(e[0].1);
  }

  /** The corrected check reports the lost neighbor as missing. */
  lemma FixedReportsLastNeighbor()
    ensures AssertSpecsEq([(1, [])], [(1, [1])]) == MissingNeighbor(1, 1)
  {
    var p: Spec<int> := [(1, [])];
    var e: Spec<int> := [(1, [1])];
    SortByKeyIdentity(p);
    SortByKeyIdentity(e);
    assert Sort([1]) == [1];
  }
}
