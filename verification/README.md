# Undirected graph of shared nodes, and the helpers its tests run on

This project models the `graph` exercise crate of day 4. Its node type is
`Node<T>`: a shared, interior-mutable cell that holds a value and a list of
neighbor handles. It has six operations:

- `new`;
- `value`;
- `neighbors`;
- `update_value`;
- `add_neighbor`;
- `remove_neighbor`.

The last two each edit both ends of an edge.

The crate's tests use three helpers:

- `make_graph` builds a graph from a declarative description: a list of
  `(value, neighbor values)` entries.
- `parse_graph` walks the graph back into such a description, from a start
  node, with a worklist.
- `assert_specs_eq` compares two descriptions. It sorts both by value, pads
  them to a common length with `match_len`, and compares pairwise.

The model, by module:

- **`Graph`** (`graph.dfy`). The shared cells become a heap: a sequence of
  `RawNode(value, neighbors)` cells. A node handle is an index into that
  sequence. Handle equality is identity.
  - `add_neighbor` is two guarded appends. The second sees the first, so a
    self-loop is recorded once.
  - `remove_neighbor` is two `retain`s.
  - Each operation states how the adjacency relation and the values change,
    and that everything else is kept. Each also keeps the graph undirected:
    the relation is symmetric and no list repeats a node.
- **`Build`** (`build.dfy`). `make_graph` resolves each listed value to the
  first entry that carries it (`find`), then links the pairs in order.
  - Its two panics are error values. `nodes[0]` on an empty description
    gives `NoEntries`. `unwrap` on an unknown value gives `UnknownNeighbor`.
  - The contract states both error conditions exactly.
  - It also states which nodes end up adjacent: those where either entry
    lists the other.
- **`Traverse`** (`traverse.dfy`). `parse_graph` is the worklist loop,
  popping from the end. The contracts state what it records:
  - every recorded value comes from a node reachable from the start;
  - every reachable node's value is recorded;
  - no value is recorded twice.
- **`RoundTrip`** (`roundtrip.dfy`). For every well-formed description,
  `parse_graph(make_graph(spec))` lists the same values with the same
  neighbor multisets as `spec`. A description is well-formed when all of
  these hold:
  - it has at least one entry;
  - its values are distinct;
  - no list repeats a value;
  - every listed value has an entry;
  - every edge is listed from both ends;
  - no entry lists its own value;
  - every entry is connected to the first.
- **`Compare`** (`compare.dfy`). This holds `assert_specs_eq` and `match_len`
  exactly as written, next to a corrected comparison.
  - Over descriptions with distinct values, the corrected comparison agrees
    exactly when the two describe the same graph.
  - The version as written accepts everything the corrected one accepts.
    It also accepts some descriptions that differ (see Findings).
- **`Families`** (`families.dfy`). The shapes the tests draw over any
  distinct labels: clique, star, rope and ring. Each is proved well-formed.
- **`Loops`** (`loops.dfy`). The two mutation loops of the tests, over any
  graph:
  - the `update_value` loop over the start node's neighbors followed by the
    start node;
  - the odd/even partition loop of `remove_neighbor`, which calls
    `remove_neighbor` while it iterates over a snapshot of a neighbor list.
- **`Scenarios`** (`scenarios.dfy`). The tests `single_node`, `two_nodes`,
  `three_nodes`, `three_nodes_with_cycle`, `many_nodes_around_center`,
  `long_rope`, `big_circle`, `many_connected`, `update_value` and
  `remove_neighbor` are instantiated with their literal descriptions, and
  both comparisons agree on each. `generic_char` and `generic_str` are shown
  to parse back to their description up to order. `not_memory_leak` and
  `generic_not_ord_not_hash` are not instantiated (see below and Left out).

The code keeps strong `Rc` handles in the neighbor lists and has no
component registry.

`generic_not_ord_not_hash` only checks that `make_graph` compiles for a value
type with equality alone. `Build.MakeGraph` is generic over any `T(==)`, which
reflects this.

## Model

| member | source | states |
|---|---|---|
| Graph.New | day_4/graph/src/lib.rs:34-50 | a new node has the given value and no neighbors; no existing node lists it, and every existing cell is kept |
| Graph.Neighbors | day_4/graph/src/lib.rs:57-63 | the snapshot names exactly the nodes adjacent to the node, all of them live; in a symmetric graph each of them lists the node back; in an undirected graph they are distinct |
| Graph.UpdateValue | day_4/graph/src/lib.rs:67-70 | only the updated node's value changes, to `f` of its old value; every neighbor list and every other cell is kept; the graph stays undirected |
| Graph.Value | day_4/graph/src/lib.rs:53-55 | `value` reads the shared cell: in a valid heap, at every position where a neighbor list names the node, that list reads the value `value` returns |
| Graph.ValueReadsLatestWrite | day_4/graph/src/lib.rs:53-70 | after an update, `value` of the node returns `f` of the old value, and each neighbor list reads the new value exactly where it names the updated node |
| Graph.Link | day_4/graph/src/lib.rs:74-77 | one guarded push: `x`'s list keeps its old contents as a prefix and grows by at most one node; adjacency gains exactly the pair (x, y); a list already naming `y` is unchanged; other cells and `x`'s value are kept |
| Graph.AddNeighbor | day_4/graph/src/lib.rs:72-83 | adjacency gains exactly the pairs (a, b) and (b, a); each list only grows, by at most one node; a list already naming the other end is unchanged; values are kept; symmetry and duplicate-free lists are preserved |
| Graph.AddNeighborIdempotent | day_4/graph/src/lib.rs:72-83 | adding the same edge twice gives the same graph as adding it once |
| Graph.AddSelfLoopOnce | day_4/graph/src/lib.rs:72-83 | on a node whose list is empty or holds only itself (the inputs on which the source does not panic), `a.add_neighbor(a)` lists `a` exactly once in its own list, since the second guard sees the first push |
| Seqs.Without | day_4/graph/src/lib.rs:88 | `retain(elem != x)` keeps every element other than `x`, with its multiplicity, and drops every `x` |
| Seqs.WithoutKeepsOrder | day_4/graph/src/lib.rs:88 | `retain` keeps the order: the result is a subsequence of the input |
| Graph.Unlink | day_4/graph/src/lib.rs:87-88 | one `retain` on `x`'s list: adjacency loses exactly the pair (x, y), and nothing changes if `x` did not list `y` |
| Graph.RemoveNeighbor | day_4/graph/src/lib.rs:85-92 | adjacency loses exactly (a, b) and (b, a); each list is the old one without the other end; values are kept; with no edge present the graph is unchanged; symmetry and duplicate-free lists are preserved |
| Graph.RemoveNeighborIdempotent | day_4/graph/src/lib.rs:85-92 | removing an edge twice gives the same graph as removing it once |
| Shape.IndexOf | day_4/graph/tests/graph.rs:298 | `find` by value: the first entry carrying the value, or none when no entry carries it |
| Build.AllocNodesSnoc | day_4/graph/tests/graph.rs:291-294 | allocating the cells of a description is one `Node::new` per entry in entry order: one more entry gives the heap `New` returns, and the new node's address is the entry's index |
| Build.ResolveList | day_4/graph/tests/graph.rs:297-299 | resolving one entry's list succeeds exactly when every listed value has an entry; on success pair `j` is the entry and the first index carrying value `j`; on failure the value named is listed and carried by no entry |
| Build.ResolveEdges | day_4/graph/tests/graph.rs:296-301 | resolving all entries succeeds exactly when every listed value has an entry; a failure names a listed value no entry carries |
| Build.ResolvedIsDeclared | day_4/graph/tests/graph.rs:296-301 | the resolved pairs are exactly the (entry, entry) pairs where the first lists the second's value and the second is the first carrying it |
| Build.LinkAll | day_4/graph/tests/graph.rs:296-301 | the nested loop of `add_neighbor` calls keeps every node and every value; which edges it adds is stated by LinkAllAdds and LinkAllOnlyAdds |
| Build.LinkAllAdds | day_4/graph/tests/graph.rs:296-301 | the `add_neighbor` loop adds every pair it is given, in both directions, and keeps existing edges |
| Build.LinkAllOnlyAdds | day_4/graph/tests/graph.rs:296-301 | the loop adds no edge other than the given pairs |
| Build.MakeGraph | day_4/graph/tests/graph.rs:287-303 | `make_graph` fails exactly on an empty description or an unknown listed value, naming the right error; on success it gives one node per entry, starts at the first entry's node, and the graph is undirected |
| Build.MakeGraphValue | day_4/graph/tests/graph.rs:291-294 | the node built for entry `k` carries entry `k`'s value |
| Build.MakeGraphAdj | day_4/graph/tests/graph.rs:296-301 | two built nodes are adjacent exactly when either entry declares the other |
| Traverse.Entry | day_4/graph/tests/graph.rs:310-313 | a recorded entry has the node's value and, position by position, the values of its neighbors in adjacency order |
| Traverse.Visit | day_4/graph/tests/graph.rs:316-323 | the worklist loop only appends to what was already recorded |
| Traverse.ParseGraph | day_4/graph/tests/graph.rs:306-325 | the first recorded entry is the start node's |
| Traverse.ParseGraphDistinct | day_4/graph/tests/graph.rs:318-321 | thanks to the `any` check, no value is recorded twice |
| Traverse.ParseGraphSound | day_4/graph/tests/graph.rs:306-325 | every recorded entry is the entry of a node reachable from the start |
| Traverse.ParseGraphComplete | day_4/graph/tests/graph.rs:306-325 | when values are distinct, every node reachable from the start has its value recorded |
| RoundTrip.ParseGraphDescribed | day_4/graph/tests/graph.rs:306-325 | for distinct values, `parse_graph` yields a description equal up to order to any description of the reachable part |
| RoundTrip.BuiltAdj | day_4/graph/tests/graph.rs:296-301 | for a well-formed description, node `k` lists node `m` exactly when entry `k` lists entry `m`'s value |
| RoundTrip.BuiltDescribed | day_4/graph/tests/graph.rs:287-303 | for a well-formed description, every built node is reachable from the start and matches its entry's value and neighbor values |
| RoundTrip.RoundTrip | day_4/graph/tests/graph.rs:287-325 | for every well-formed description, `parse_graph(make_graph(spec))` lists the same values with the same neighbor multisets as `spec` |
| Compare.Sort | day_4/graph/tests/graph.rs:344-345 | sorting a neighbor list gives an ordered permutation of it |
| Compare.SortedUnique | day_4/graph/tests/graph.rs:344-345 | two ordered permutations of one multiset are equal |
| Compare.SortSame | day_4/graph/tests/graph.rs:344-345 | two lists sort to the same list exactly when they are permutations of each other |
| Compare.SortByKey | day_4/graph/tests/graph.rs:331-332 | `sort_by` on the value gives a permutation of the entries ordered by value |
| Compare.SortByKeyDistinct | day_4/graph/tests/graph.rs:331-332 | sorting keeps values distinct |
| Compare.MatchLen | day_4/graph/tests/graph.rs:361-375 | both results have the longer input's length; the longer one is unchanged, and the shorter is extended with copies of the longer's element at the shorter's old length |
| Compare.CompareNeighbors | day_4/graph/tests/graph.rs:350-356 | the inner loop passes exactly when the two padded lists are equal; a reported neighbor comes from the side it is reported for |
| Compare.CompareEntry | day_4/graph/tests/graph.rs:337-349 | a smaller parsed value is "unexpected node", a larger one "missing node", and a neighbor report names the shared value |
| Compare.CompareEntries | day_4/graph/tests/graph.rs:337-357 | a node reported as unexpected is a parsed value, and one reported as missing is an expected value |
| Compare.CompareEntriesAgree | day_4/graph/tests/graph.rs:337-357 | the outer loop as written passes exactly when every aligned pair of entries passes its step |
| Compare.AssertSpecsEqAsWritten | day_4/graph/tests/graph.rs:327-358 | `assert_specs_eq` as written: a reported node is a value of one of the two descriptions |
| Compare.CompareEntryFixed | day_4/graph/tests/graph.rs:337-355 | corrected entry step: it passes exactly when the values are equal and the neighbor lists are permutations of each other; a node or neighbor it reports comes from the side it is reported for |
| Compare.EntriesFixedAgree | day_4/graph/tests/graph.rs:337-357 | the corrected outer loop passes exactly when the sorted lists agree position by position |
| Compare.AssertSpecsEq | day_4/graph/tests/graph.rs:327-358 | corrected comparison: a node reported as unexpected is a parsed value, and one reported as missing is an expected value |
| Compare.AssertSpecsEqAgree | day_4/graph/tests/graph.rs:327-358 | over descriptions with distinct values, the corrected comparison passes exactly when the two list the same values with the same neighbor multisets |
| Compare.AsWrittenAcceptsWhatFixedAccepts | day_4/graph/tests/graph.rs:327-358 | whatever the corrected comparison accepts, the comparison as written accepts too |
| Compare.AsWrittenMissesLastNode | day_4/graph/tests/graph.rs:370-373 | as written, a parsed description lacking only the largest expected node passes, though the two differ |
| Compare.AsWrittenBlamesWrongSide | day_4/graph/tests/graph.rs:338-371 | as written, a parsed description lacking two or more of the largest expected nodes fails as "unexpected node v", where `v` is a node the parsed side lacks |
| Compare.FixedReportsMissing | day_4/graph/tests/graph.rs:338-340 | the corrected comparison reports the first node the parsed side lacks as "missing" |
| Compare.AsWrittenMissesLastNeighbor | day_4/graph/tests/graph.rs:348 | as written, a node lacking its largest neighbor passes: parsed `[(1, [])]` against expected `[(1, [1])]` |
| Compare.FixedReportsLastNeighbor | day_4/graph/tests/graph.rs:348-355 | the corrected comparison reports that neighbor as "missing neighbor 1 of node 1" |
| Families.CliqueWellFormed | day_4/graph/tests/graph.rs:92-107 | the fully connected description over any distinct labels is well-formed |
| Families.StarWellFormed | day_4/graph/tests/graph.rs:41-56 | the description with one centre joined to every other label is well-formed |
| Families.RopeWellFormed | day_4/graph/tests/graph.rs:58-73 | the description joining each label to the next is well-formed |
| Families.RingWellFormed | day_4/graph/tests/graph.rs:75-90 | the rope over three or more labels, with its ends joined, is well-formed |
| Loops.UpdateAll | day_4/graph/tests/graph.rs:124-126 | the `update_value` loop keeps every neighbor list and the number of nodes |
| Loops.UpdateAllValue | day_4/graph/tests/graph.rs:124-126 | after the loop, a node's value is its old value with `f` applied once per time the list names it |
| Loops.UpdateAllRelabels | day_4/graph/tests/graph.rs:124-126 | a list naming every node exactly once applies `f` to every value and keeps the edges |
| Loops.RelabelDescribes | day_4/graph/tests/graph.rs:124-140 | relabelling by an injective `f` turns any description of the graph into the description with every value and neighbor mapped by `f` |
| Loops.Around | day_4/graph/tests/graph.rs:124 | `neighbors().chain([graph.clone()])`: one more node than the start node's list, ending with the start node, and naming exactly the start node and its neighbors |
| Loops.AroundHubOnce | day_4/graph/tests/graph.rs:124 | when the start node is joined to every other node, its neighbors followed by itself name every node exactly once |
| Loops.UpdateAroundHub | day_4/graph/tests/graph.rs:120-138 | for a well-formed description whose first entry is joined to every other entry, and an injective `f`: build, run the update loop over the start node's neighbors and the start node, then parse. The result equals the description with every value mapped by `f`, up to order |
| Loops.Step | day_4/graph/tests/graph.rs:161-163 | one inner step keeps every value, symmetry and duplicate-free lists |
| Loops.StepAdj | day_4/graph/tests/graph.rs:161-163 | one inner step removes the edge between the node and `n`, in both directions, exactly when their values fall into different classes, and changes no other adjacency |
| Loops.DropSplitAdj | day_4/graph/tests/graph.rs:160-164 | the inner loop over a snapshot of a neighbor list removes exactly the edges between the node and a listed node of the other class |
| Loops.DropSplitAll | day_4/graph/tests/graph.rs:160-164 | on a symmetric graph, the inner loop over the node's own neighbors removes every edge at the node between different classes |
| Loops.DropSplit | day_4/graph/tests/graph.rs:160-164 | the inner loop over a snapshot keeps every node and value, symmetry and duplicate-free lists |
| Loops.Partition | day_4/graph/tests/graph.rs:158-165 | the outer loop over the collected nodes keeps every node and value, symmetry and duplicate-free lists; which edges it removes is stated by PartitionAdj |
| Loops.PartitionAdj | day_4/graph/tests/graph.rs:158-165 | the outer loop removes exactly the edges between different classes that touch a visited node |
| Loops.PartitionedCliqueAdj | day_4/graph/tests/graph.rs:145-165 | in the partitioned clique, two nodes are adjacent exactly when they are distinct and of the same class |
| Loops.PartitionClique | day_4/graph/tests/graph.rs:145-174 | partitioning the clique over distinct labels and parsing from the first node gives the clique over the first label's class, up to order |
| Scenarios.TestRoundTrip | day_4/graph/tests/graph.rs:287-358 | for every well-formed integer description: `make_graph` succeeds, and both comparisons pass on the parsed graph |
| Scenarios.SingleNodePasses | day_4/graph/tests/graph.rs:5-12 | `single_node` passes |
| Scenarios.TwoNodesPasses | day_4/graph/tests/graph.rs:14-21 | `two_nodes` passes |
| Scenarios.ThreeNodesPasses | day_4/graph/tests/graph.rs:23-30 | `three_nodes` passes |
| Scenarios.ThreeNodesWithCyclePasses | day_4/graph/tests/graph.rs:32-39 | `three_nodes_with_cycle` passes |
| Scenarios.ManyNodesAroundCenterPasses | day_4/graph/tests/graph.rs:41-56 | `many_nodes_around_center` passes |
| Scenarios.LongRopePasses | day_4/graph/tests/graph.rs:58-73 | `long_rope` passes |
| Scenarios.BigCirclePasses | day_4/graph/tests/graph.rs:75-90 | `big_circle` passes |
| Scenarios.ManyConnectedPasses | day_4/graph/tests/graph.rs:92-107 | `many_connected` passes |
| Scenarios.GenericCharRoundTrip | day_4/graph/tests/graph.rs:179-194 | `generic_char`: the parsed graph equals the character description up to order |
| Scenarios.GenericStrRoundTrip | day_4/graph/tests/graph.rs:196-211 | `generic_str`: the parsed graph equals the string description up to order |
| Scenarios.UpdateValueExpectedIsScaled | day_4/graph/tests/graph.rs:128-136 | the expected description of `update_value` is the 7-clique with every value multiplied by 10 |
| Scenarios.TestUpdate | day_4/graph/tests/graph.rs:120-140 | for any well-formed description whose first entry is joined to all others, and any injective `f`, the update loop followed by parsing passes both comparisons against the mapped description |
| Scenarios.UpdateValuePasses | day_4/graph/tests/graph.rs:109-141 | `update_value` passes |
| Scenarios.RustRem | day_4/graph/tests/graph.rs:161 | Rust's `%` keeps the dividend's sign: the remainder is in `[0, abs(b))` for a non-negative dividend, and in `(-abs(b), 0]` for a negative one; the dividend minus the remainder is a multiple of the divisor |
| Scenarios.OddOfSeven | day_4/graph/tests/graph.rs:161 | the values of `1..7` with `v % 2 == 1`, in order, are `1, 3, 5, 7` |
| Scenarios.RemoveNeighborExpectedIsOddClique | day_4/graph/tests/graph.rs:167-172 | the expected description of `remove_neighbor` is the clique over `1, 3, 5, 7` |
| Scenarios.TestPartition | day_4/graph/tests/graph.rs:154-176 | for a clique over any distinct integers and any class function, the partition loop followed by parsing passes both comparisons against the clique over the start node's class |
| Scenarios.RemoveNeighborPasses | day_4/graph/tests/graph.rs:143-177 | `remove_neighbor` passes |

## Left out

- Memory reclamation is not modelled: `Drop`, `Rc` reference counts, and the `not_memory_leak` test (graph.rs:229-278). Cells are never freed. The leak that test detects concerns the lifetimes of reference cycles, which a model of values and adjacency cannot observe.
- `RefCell` borrow panics are not modelled. In the source, handle equality is the derived one: the same shared cell (`Rc::ptr_eq`), otherwise a structural comparison. The structural comparison borrows both cells.
  - So `add_neighbor(a, a)` on a node that already has other neighbors panics.
  - A node that lists itself panics on any later `add_neighbor` or `remove_neighbor` with another node, because the `contains` or `retain` over its own list borrows it again.
  - `remove_neighbor(a, a)` on a node with another neighbor `b` panics: the `retain` compares `b` with `a` while `a`'s list is mutably borrowed.
  - Two distinct nodes with equal values can compare structurally equal, so `contains` and `retain` can treat one as the other. The comparison can also recurse through cycles.
  - The model uses identity, because the comment at lib.rs:27-28 says two different nodes with the same value are meant to be unequal. It agrees with the source on graphs with distinct values where no node lists itself, for calls whose two nodes differ. Every test works on such graphs, and `Shape.WellFormed` demands distinct values and no self-listing of every description the round trip and the scenarios cover.
- Graph.RemoveNeighbor: `remove_neighbor(a, a)` returns the graph unchanged in the model when `a` does not list itself, while the source panics if `a` has any neighbor; the borrow panic is not modelled, for the reason above.
- Graph.AddNeighbor: `add_neighbor(a, a)` on a node whose list holds another node panics in the source, while the model appends `a`; see `Graph.AddSelfLoopOnce` for the inputs on which the two agree.
- Build.MakeGraph: on a description with repeated values the source's structural equality can merge distinct nodes. For `[(5, [7]), (5, [7]), (7, [])]` the second `add_neighbor` finds node 0 structurally equal to node 1 in node 2's list and skips the push, so node 2 never lists node 1. The model keeps identity and ensures an undirected graph there; the round trip and the scenarios only use descriptions with distinct values.
- The text of the panic messages is left out. `Compare.Verdict` keeps which message is raised and the values it names, not the formatted string.
- Each `make_graph` call builds a fresh heap whose node `k` is entry `k`. The tests never connect two built graphs, so the model keeps one graph per heap.
- `assert_specs_eq` is modelled over integer values only, because the model's sort needs an order.
- Scenarios.GenericCharRoundTrip: states that the parsed graph equals the description up to order, not the outcome of `assert_specs_eq`, because the comparison is modelled over integers only.
- Scenarios.GenericStrRoundTrip: likewise, equality up to order rather than the comparison's outcome.
- Compare.AssertSpecsEqAsWritten: its own contract only bounds the node it reports. Which inputs it accepts is stated by AsWrittenAcceptsWhatFixedAccepts, and how it errs by the findings lemmas.
- `update_value` multiplies `i32` values by 10. The model uses unbounded integers: the test's values 10..70 cannot overflow, and overflow behaviour is not modelled.
- The `fn(T) -> T` argument of `update_value` is a Dafny function value. Only total functions are considered.
- The other crates of the repository (day 3, the rest of day 4) are not part of this model.

## Findings

| source | as written | input that shows it | evidently intended | confidence | as-written member | corrected member |
|---|---|---|---|---|---|---|
| day_4/graph/tests/graph.rs:370-373 | `match_len` pads the shorter vector with copies of the longer one's element at the shorter one's length. That is the first element the shorter lacks, so a parsed description lacking only the largest expected node is padded into the expected one and compares equal | expected `[(1, [2]), (2, [1])]` against parsed `[(1, [2])]`: the parsed side is padded with `(2, [1])` and the check passes | report "missing node '2'" | not executed | Compare.AsWrittenMissesLastNode | Compare.FixedReportsMissing |
| day_4/graph/tests/graph.rs:348 | the same padding on neighbor lists hides a node's largest missing neighbor | expected `[(1, [1])]` against parsed `[(1, [])]`: the parsed list is padded to `[1]` and the check passes | report "missing neighbor '1' of node '1'" | not executed | Compare.AsWrittenMissesLastNeighbor | Compare.FixedReportsLastNeighbor |
| day_4/graph/tests/graph.rs:338-371 | when the parsed side lacks two or more trailing nodes, the padding copies the first missing node. The second copy compares below the next expected node, and the loop reports it as "unexpected", blaming the side that lacks it | expected values `1, 2, 3` against parsed value `1` only: the check panics with "unexpected node '2'" | report "missing node '2'", the order the padding comment at lines 367-368 relies on | not executed | Compare.AsWrittenBlamesWrongSide | Compare.FixedReportsMissing |
