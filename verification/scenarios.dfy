/** The round-trip tests: each builds a graph from a description with
    `make_graph`, reads it back with `parse_graph` and compares the two with
    `assert_specs_eq`. */
module Scenarios {
  import opened Seqs
  import opened Shape
  import opened Graph
  import opened Build
  import opened Traverse
  import opened Compare
  import opened RoundTrip
  import opened Families
  import opened Loops

  /** The check every round-trip test makes: the description builds, and
      reading the graph back from its start node compares equal to it, both
      by `assert_specs_eq` as written and by the corrected comparison. */
  ghost predicate PassesRoundTrip(s: Spec<int>) {
    && MakeGraph(s).Ok?
    && var g := MakeGraph(s).value;
       var p := ParseGraph(g.0, g.1);
       AssertSpecsEq(p, s) == Agree && AssertSpecsEqAsWritten(p, s) == Agree
  }

  /** Every well-formed description passes the round-trip test. */
  lemma TestRoundTrip(s: Spec<int>)
    requires WellFormed(s)
    ensures PassesRoundTrip(s)
  {
    RoundTrip.RoundTrip(s);
    var g := MakeGraph(s).value;
    var p := ParseGraph(g.0, g.1);
    ParseGraphDistinct(g.0, g.1);
    AssertSpecsEqAgree(p, s);
    AsWrittenAcceptsWhatFixedAccepts(p, s);
  }

  /** The labels `1, .., 7` of the larger tests. */
  const Seven: seq<int> := [1, 2, 3, 4, 5, 6, 7]

  lemma SevenDistinct()
    ensures NoDup(Seven)
  {
  }

  const ManyConnected: Spec<int> := [
    (1, [2, 3, 4, 5, 6, 7]),
    (2, [1, 3, 4, 5, 6, 7]),
    (3, [1, 2, 4, 5, 6, 7]),
    (4, [1, 2, 3, 5, 6, 7]),
    (5, [1, 2, 3, 4, 6, 7]),
    (6, [1, 2, 3, 4, 5, 7]),
    (7, [1, 2, 3, 4, 5, 6])
  ]

  /** `many_connected`: the 7-clique reads back as itself. */
  lemma ManyConnectedPasses()
    ensures PassesRoundTrip(ManyConnected)
  {
    ManyConnectedIsClique();
    SevenDistinct();
    CliqueWellFormed(Seven);
    TestRoundTrip(ManyConnected);
  }

  lemma ManyConnectedIsClique()
    ensures ManyConnected == CliqueOf(Seven)
  {
    var c := CliqueOf(Seven);
    assert c[0].1 == [2, 3, 4, 5, 6, 7];
    assert c[1].1 == [1, 3, 4, 5, 6, 7];
    assert c[2].1 == [1, 2, 4, 5, 6, 7];
    assert c[3].1 == [1, 2, 3, 5, 6, 7];
    assert c[4].1 == [1, 2, 3, 4, 6, 7];
    assert c[5].1 == [1, 2, 3, 4, 5, 7];
    assert c[6].1 == [1, 2, 3, 4, 5, 6];
  }

  const SingleNode: Spec<int> := [(1, [])]

  lemma SingleNodeIsClique()
    ensures SingleNode == CliqueOf([1])
  {
    assert CliqueOf([1])[0].1 == [];
  }

  /** `single_node`. */
  lemma SingleNodePasses()
    ensures PassesRoundTrip(SingleNode)
  {
    SingleNodeIsClique();
    CliqueWellFormed([1]);
    TestRoundTrip(SingleNode);
  }

  const TwoNodes: Spec<int> := [(1, [2]), (2, [1])]

  lemma TwoNodesIsClique()
    ensures TwoNodes == CliqueOf([1, 2])
  {
    var c := CliqueOf([1, 2]);
    assert c[0].1 == [2] && c[1].1 == [1];
  }

  /** `two_nodes`. */
  lemma TwoNodesPasses()
    ensures PassesRoundTrip(TwoNodes)
  {
    TwoNodesIsClique();
    CliqueWellFormed([1, 2]);
    TestRoundTrip(TwoNodes);
  }

  const ThreeNodes: Spec<int> := [(1, [2, 3]), (2, [1]), (3, [1])]

  lemma ThreeNodesIsStar()
    ensures ThreeNodes == StarOf([1, 2, 3])
  {
    assert StarOf([1, 2, 3])[0].1 == [2, 3];
  }

  /** `three_nodes`: a star around node 1. */
  lemma ThreeNodesPasses()
    ensures PassesRoundTrip(ThreeNodes)
  {
    ThreeNodesIsStar();
    StarWellFormed([1, 2, 3]);
    TestRoundTrip(ThreeNodes);
  }

  const ThreeNodesWithCycle: Spec<int> := [(1, [2, 3]), (2, [1, 3]), (3, [1, 2])]

  lemma ThreeNodesWithCycleIsClique()
    ensures ThreeNodesWithCycle == CliqueOf([1, 2, 3])
  {
    var c := CliqueOf([1, 2, 3]);
    assert c[0].1 == [2, 3] && c[1].1 == [1, 3] && c[2].1 == [1, 2];
  }

  /** `three_nodes_with_cycle`: the 3-clique. */
  lemma ThreeNodesWithCyclePasses()
    ensures PassesRoundTrip(ThreeNodesWithCycle)
  {
    ThreeNodesWithCycleIsClique();
    CliqueWellFormed([1, 2, 3]);
    TestRoundTrip(ThreeNodesWithCycle);
  }

  const ManyNodesAroundCenter: Spec<int> := [
    (1, [2, 3, 4, 5, 6, 7]),
    (2, [1]),
    (3, [1]),
    (4, [1]),
    (5, [1]),
    (6, [1]),
    (7, [1])
  ]

  lemma ManyNodesAroundCenterIsStar()
    ensures ManyNodesAroundCenter == StarOf(Seven)
  {
    assert StarOf(Seven)[0].1 == [2, 3, 4, 5, 6, 7];
  }

  /** `many_nodes_around_center`: a star of seven. */
  lemma ManyNodesAroundCenterPasses()
    ensures PassesRoundTrip(ManyNodesAroundCenter)
  {
    ManyNodesAroundCenterIsStar();
    SevenDistinct();
    StarWellFormed(Seven);
    TestRoundTrip(ManyNodesAroundCenter);
  }

  const LongRope: Spec<int> := [
    (1, [2]),
    (2, [1, 3]),
    (3, [2, 4]),
    (4, [3, 5]),
    (5, [4, 6]),
    (6, [5, 7]),
    (7, [6])
  ]

  lemma LongRopeIsRope()
    ensures LongRope == RopeOf(Seven)
  {
    var r := RopeOf(Seven);
    assert r[0] == (1, [2]);
    assert r[1] == (2, [1, 3]);
    assert r[2] == (3, [2, 4]);
    assert r[3] == (4, [3, 5]);
    assert r[4] == (5, [4, 6]);
    assert r[5] == (6, [5, 7]);
    assert r[6] == (7, [6]);
  }

  /** `long_rope`: a path through seven nodes. */
  lemma LongRopePasses()
    ensures PassesRoundTrip(LongRope)
  {
    LongRopeIsRope();
    SevenDistinct();
    RopeWellFormed(Seven);
    TestRoundTrip(LongRope);
  }

  const BigCircle: Spec<int> := [
    (1, [7, 2]),
    (2, [1, 3]),
    (3, [2, 4]),
    (4, [3, 5]),
    (5, [4, 6]),
    (6, [5, 7]),
    (7, [6, 1])
  ]

  lemma BigCircleIsRing()
    ensures BigCircle == RingOf(Seven)
  {
  }

  /** `big_circle`: a cycle through seven nodes. */
  lemma BigCirclePasses()
    ensures PassesRoundTrip(BigCircle)
  {
    BigCircleIsRing();
    SevenDistinct();
    RingWellFormed(Seven);
    TestRoundTrip(BigCircle);
  }

  const GenericChar: Spec<char> := [
    ('1', ['2', '3', '4', '5', '6', '7']),
    ('2', ['1', '3', '4', '5', '6', '7']),
    ('3', ['1', '2', '4', '5', '6', '7']),
    ('4', ['1', '2', '3', '5', '6', '7']),
    ('5', ['1', '2', '3', '4', '6', '7']),
    ('6', ['1', '2', '3', '4', '5', '7']),
    ('7', ['1', '2', '3', '4', '5', '6'])
  ]

  const CharSeven: seq<char> := ['1', '2', '3', '4', '5', '6', '7']

  lemma CharSevenDistinct()
    ensures NoDup(CharSeven)
  {
  }

  lemma GenericCharIsClique()
    ensures GenericChar == CliqueOf(CharSeven)
  {
    var c := CliqueOf(CharSeven);
    assert c[0].1 == ['2', '3', '4', '5', '6', '7'];
    assert c[1].1 == ['1', '3', '4', '5', '6', '7'];
    assert c[2].1 == ['1', '2', '4', '5', '6', '7'];
    assert c[3].1 == ['1', '2', '3', '5', '6', '7'];
    assert c[4].1 == ['1', '2', '3', '4', '6', '7'];
    assert c[5].1 == ['1', '2', '3', '4', '5', '7'];
    assert c[6].1 == ['1', '2', '3', '4', '5', '6'];
  }

  /** `generic_char`: the 7-clique over characters reads back as itself. */
  lemma GenericCharRoundTrip()
    ensures MakeGraph(GenericChar).Ok?
    ensures var g := MakeGraph(GenericChar).value; SameShape(ParseGraph(g.0, g.1), GenericChar)
  {
    GenericCharIsClique();
    CharSevenDistinct();
    CliqueWellFormed(CharSeven);
    RoundTrip.RoundTrip(GenericChar);
  }

  const GenericStr: Spec<string> := [
    ("1", ["2", "3", "4", "5", "6", "7"]),
    ("2", ["1", "3", "4", "5", "6", "7"]),
    ("3", ["1", "2", "4", "5", "6", "7"]),
    ("4", ["1", "2", "3", "5", "6", "7"]),
    ("5", ["1", "2", "3", "4", "6", "7"]),
    ("6", ["1", "2", "3", "4", "5", "7"]),
    ("7", ["1", "2", "3", "4", "5", "6"])
  ]

  const StrSeven: seq<string> := ["1", "2", "3", "4", "5", "6", "7"]

  lemma StrSevenDistinct()
    ensures NoDup(StrSeven)
  {
    assert forall i :: 0 <= i < 7 ==> |StrSeven[i]| == 1 && StrSeven[i][0] == CharSeven[i];
    CharSevenDistinct();
  }

  lemma GenericStrIsClique()
    ensures GenericStr == CliqueOf(StrSeven)
  {
    var c := CliqueOf(StrSeven);
    assert c[0].1 == ["2", "3", "4", "5", "6", "7"];
    assert c[1].1 == ["1", "3", "4", "5", "6", "7"];
    assert c[2].1 == ["1", "2", "4", "5", "6", "7"];
    assert c[3].1 == ["1", "2", "3", "5", "6", "7"];
    assert c[4].1 == ["1", "2", "3", "4", "6", "7"];
    assert c[5].1 == ["1", "2", "3", "4", "5", "7"];
    assert c[6].1 == ["1", "2", "3", "4", "5", "6"];
  }

  /** `generic_str`: the 7-clique over strings reads back as itself. */
  lemma GenericStrRoundTrip()
    ensures MakeGraph(GenericStr).Ok?
    ensures var g := MakeGraph(GenericStr).value; SameShape(ParseGraph(g.0, g.1), GenericStr)
  {
    GenericStrIsClique();
    StrSevenDistinct();
    CliqueWellFormed(StrSeven);
    RoundTrip.RoundTrip(GenericStr);
  }

  /** In a clique the first entry lists every other value and not its own. */
  lemma CliqueIsHub<T>(labels: seq<T>)
    requires |labels| > 0 && NoDup(labels)
    ensures Hub(CliqueOf(labels))
  {
    forall k | 0 <= k < |labels|
      ensures labels[k] in CliqueOf(labels)[0].1 <==> k != 0
    {
      CliqueAdj(labels, 0, k);
    }
  }

  /** The closure `|x| x * 10` of the `update_value` test. */
  function Times10(x: int): int {
    x * 10
  }

  lemma Times10Injective()
    ensures Injective(Times10)
  {
  }

  const UpdateValueExpected: Spec<int> := [
    (10, [20, 30, 40, 50, 60, 70]),
    (20, [10, 30, 40, 50, 60, 70]),
    (30, [10, 20, 40, 50, 60, 70]),
    (40, [10, 20, 30, 50, 60, 70]),
    (50, [10, 20, 30, 40, 60, 70]),
    (60, [10, 20, 30, 40, 50, 70]),
    (70, [10, 20, 30, 40, 50, 60])
  ]

  lemma UpdateValueExpectedIsScaled()
    ensures UpdateValueExpected == MapSpec(Times10, ManyConnected)
  {
    var m := MapSpec(Times10, ManyConnected);
    assert m[0].1 == [20, 30, 40, 50, 60, 70];
    assert m[1].1 == [10, 30, 40, 50, 60, 70];
    assert m[2].1 == [10, 20, 40, 50, 60, 70];
    assert m[3].1 == [10, 20, 30, 50, 60, 70];
    assert m[4].1 == [10, 20, 30, 40, 60, 70];
    assert m[5].1 == [10, 20, 30, 40, 50, 70];
    assert m[6].1 == [10, 20, 30, 40, 50, 60];
  }

  /** The check of the `update_value` test: the description builds, and
      after `f` is applied through the start node's neighbors and then the
      start node, the graph reads back equal to `expected`, by both
      comparisons. */
  ghost predicate PassesUpdate(s: Spec<int>, f: int -> int, expected: Spec<int>) {
    && MakeGraph(s).Ok?
    && var g := MakeGraph(s).value;
       var p := ParseGraph(UpdateAll(g.0, Around(g.0, g.1), f), g.1);
       AssertSpecsEq(p, expected) == Agree && AssertSpecsEqAsWritten(p, expected) == Agree
  }

  /** For a hub description and an injective `f`, the update test passes
      against the description with its values mapped by `f`. */
  lemma TestUpdate(s: Spec<int>, f: int -> int)
    requires WellFormed(s) && Hub(s) && Injective(f)
    ensures PassesUpdate(s, f, MapSpec(f, s))
  {
    UpdateAroundHub(s, f);
    var g := MakeGraph(s).value;
    var h := UpdateAll(g.0, Around(g.0, g.1), f);
    var p := ParseGraph(h, g.1);
    ParseGraphDistinct(h, g.1);
    AssertSpecsEqAgree(p, MapSpec(f, s));
    AsWrittenAcceptsWhatFixedAccepts(p, MapSpec(f, s));
  }

  /** `update_value`: multiplying every value of the 7-clique by 10 reads
      back as the clique of `10, .., 70`. */
  lemma UpdateValuePasses()
    ensures PassesUpdate(ManyConnected, Times10, UpdateValueExpected)
  {
    ManyConnectedIsClique();
    SevenDistinct();
    CliqueWellFormed(Seven);
    CliqueIsHub(Seven);
    Times10Injective();
    TestUpdate(ManyConnected, Times10);
    UpdateValueExpectedIsScaled();
  }

  /** Rust's `%` on integers: the remainder takes the sign of the dividend
      (Dafny's `%` never returns a negative remainder). */
  function RustRem(a: int, b: int): (r: int)
    requires b != 0
    ensures a >= 0 ==> 0 <= r < Abs(b)
    ensures a < 0 ==> -Abs(b) < r <= 0
    ensures (a - r) % b == 0
  {
    if a >= 0 then
      RemDiff(a, b);
      a % b
    else
      RemDiff(-a, b);
      -((-a) % b)
  }

  /** Taking away the remainder leaves a multiple of `b`, of either sign. */
  lemma RemDiff(n: int, b: int)
    requires b != 0
    ensures (n - n % b) % b == 0 && (-(n - n % b)) % b == 0
  {
    var q := n / b;
    assert n - n % b == b * q;
    assert -(b * q) == b * -q;
    MultipleRem(b, q);
    MultipleRem(b, -q);
  }

  /** A multiple of `b` leaves no remainder. */
  lemma MultipleRem(b: int, q: int)
    requires b != 0
    ensures (b * q) % b == 0
  {
    var m := b * q;
    var d := q - m / b;
    assert b * d == m % b;
  }

  function Abs(x: int): int {
    if x < 0 then -x else x
  }

  /** The class the `remove_neighbor` test compares: `value % 2`. */
  function Parity(v: int): int {
    RustRem(v, 2)
  }

  /** The check of the `remove_neighbor` test: the description builds, and
      after the partition by `cls` through the start node's neighbors and
      the start node, the graph reads back equal to `expected`, by both
      comparisons. */
  ghost predicate PassesPartition(s: Spec<int>, cls: int -> int, expected: Spec<int>) {
    && MakeGraph(s).Ok?
    && var g := MakeGraph(s).value;
       var p := ParseGraph(Partition(g.0, Around(g.0, g.1), cls), g.1);
       AssertSpecsEq(p, expected) == Agree && AssertSpecsEqAsWritten(p, expected) == Agree
  }

  /** For a clique of distinct labels, the partition test passes against the
      clique over the start node's class. */
  lemma TestPartition(labels: seq<int>, cls: int -> int)
    requires |labels| > 0 && NoDup(labels)
    ensures PassesPartition(CliqueOf(labels), cls, CliqueOf(Class(labels, cls, cls(labels[0]))))
  {
    var k := Class(labels, cls, cls(labels[0]));
    var e := CliqueOf(k);
    CliqueWellFormed(labels);
    var g := MakeGraph(CliqueOf(labels)).value;
    PartitionClique(labels, cls);
    var h := PartitionedClique(labels, cls);
    assert h == Partition(g.0, Around(g.0, g.1), cls);
    var p := ParseGraph(h, 0);
    ClassDistinct(labels, cls, cls(labels[0]));
    assert DistinctKeys(e);
    ParseGraphDistinct(h, 0);
    AssertSpecsEqAgree(p, e);
    AsWrittenAcceptsWhatFixedAccepts(p, e);
  }

  const RemoveNeighborExpected: Spec<int> := [
    (1, [3, 5, 7]),
    (3, [1, 5, 7]),
    (5, [1, 3, 7]),
    (7, [1, 3, 5])
  ]

  lemma OddPositionsHigh()
    ensures KeptFrom(Seven, Parity, 1, 4) == [4, 6]
  {
    assert Seven[4] == 5 && Seven[5] == 6 && Seven[6] == 7;
    assert Parity(5) == 1 && Parity(6) == 0 && Parity(7) == 1;
    assert KeptFrom(Seven, Parity, 1, 7) == [];
    assert KeptFrom(Seven, Parity, 1, 6) == [6];
    assert KeptFrom(Seven, Parity, 1, 5) == [6];
  }

  lemma OddPositions()
    ensures KeptFrom(Seven, Parity, 1, 0) == [0, 2, 4, 6]
  {
    OddPositionsMid();
    assert Seven[0] == 1 && Seven[1] == 2;
    assert Parity(1) == 1 && Parity(2) == 0;
    assert KeptFrom(Seven, Parity, 1, 1) == [2, 4, 6];
  }

  lemma OddPositionsMid()
    ensures KeptFrom(Seven, Parity, 1, 2) == [2, 4, 6]
  {
    OddPositionsHigh();
    assert Seven[2] == 3 && Seven[3] == 4;
    assert Parity(3) == 1 && Parity(4) == 0;
    assert KeptFrom(Seven, Parity, 1, 3) == [4, 6];
  }

  /** The odd values of `1..7`, in order. */
  lemma OddOfSeven()
    ensures Class(Seven, Parity, 1) == [1, 3, 5, 7]
  {
    OddPositions();
    ClassAt(Seven, Parity, 1, [0, 2, 4, 6]);
    OddValues();
  }

  lemma OddValues()
    ensures Kept(Seven, [0, 2, 4, 6]) == [1, 3, 5, 7]
  {
    var r := Kept(Seven, [0, 2, 4, 6]);
    assert r[0] == 1 && r[1] == 3 && r[2] == 5 && r[3] == 7;
  }

  lemma RemoveNeighborExpectedIsOddClique()
    ensures RemoveNeighborExpected == CliqueOf([1, 3, 5, 7])
  {
    var c := CliqueOf([1, 3, 5, 7]);
    assert c[0].1 == [3, 5, 7] && c[1].1 == [1, 5, 7];
    assert c[2].1 == [1, 3, 7] && c[3].1 == [1, 3, 5];
  }

  /** `remove_neighbor`: removing every edge between an odd and an even
      node of the 7-clique leaves, from node 1, the clique of `1, 3, 5, 7`. */
  lemma RemoveNeighborPasses()
    ensures PassesPartition(ManyConnected, Parity, RemoveNeighborExpected)
  {
    ManyConnectedIsClique();
    SevenDistinct();
    TestPartition(Seven, Parity);
    assert Parity(1) == 1;
    OddOfSeven();
    RemoveNeighborExpectedIsOddClique();
  }
}
