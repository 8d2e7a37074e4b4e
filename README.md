# crdt-rust topological sort, modelled in Dafny

crdt-rust orders the nodes of a multi-DAG of CRDT operations. Each node holds a
payload (`current_data`) and the nodes that must come before it
(`predecessors`). The ordering is a depth-first topological sort (Tarjan's
variant, without cycle detection). The repository has two copies of it:

- `src/lib.rs`: nodes live behind `Rc<RefCell<…>>`. A node's predecessors are a
  `BTreeSet`, and the set of permanently marked nodes is a `BTreeSet` too. Both
  are ordered by the derived `Ord` on `DAGNode`.
- `src/main.rs`: nodes are borrowed references. Predecessors are a `Vec`, and
  the marks are a `HashSet`. Both use the derived `Eq`/`Hash`.

Each copy has two routines:

- `topological_sort_visit` returns at once if the node is marked. Otherwise it
  visits every predecessor, then marks the node and appends it to the output.
- `topological_sort` pops the caller's start nodes from the back of the vector
  and visits each one.

The model has three modules:

- `Seqs` (`sequences.dfy`): element sets and duplicate-freedom of lists.
- `CrdtLib` (`crdt_lib.dfy`): the `src/lib.rs` variant.
- `CrdtMain` (`crdt_main.dfy`): the `src/main.rs` variant.

How the model represents the source:

- Nodes are inductive datatype values. Equality is therefore structural, as the
  derived `PartialEq`/`Eq` compare through `Rc`/`RefCell` and references.
  Acyclicity holds by construction.
- The lib variant takes the comparison as a parameter `le`, which may be any
  total order on nodes. A `BTreeSet` is then a `set`, and iterating over it
  yields the elements of the set once each, in ascending order.
- The main variant keeps predecessors as a `seq`, which may contain duplicates.
  Iteration follows that order.
- The mutable `&mut Vec` and `&mut …Set` arguments are in/out parameters of the
  Dafny methods.

What is proved about both variants, for every input:

- The output lists each node reachable from the start nodes. It lists nothing
  else, and it lists each node exactly once.
- Every node appears after all of its predecessors.
- Visiting a node that is already marked changes nothing. Visiting an unmarked
  node appends everything newly reachable from it, and ends with that node.
- The exact output is pinned, at every depth of the recursion, by two
  reference definitions. `Visited(n, l)` is what visiting `n` leaves: `l` if
  `n` is marked, and otherwise the predecessors visited one after another,
  each on the output the previous one left, followed by `n`. `PoppedAll(s)` is
  what the sort leaves: `s[0]` visited on the output of `s[1..]`, and so on.
  Each method's result equals its reference definition.
- Predecessors are visited in iteration order: ascending in the lib variant,
  `Vec` order in the main variant. For every `i`, some prefix of a visit's
  output holds exactly what the first `i` predecessors reach.
- Start nodes are consumed from the back. For every `j`, some prefix of the
  output holds exactly what `s[j..]` reaches. When `s[j]` was not already
  reached by the nodes after it, that prefix ends with `s[j]`.
- A node over two predecessor-free predecessors `a` and `b` sorts to
  `[a, b, n]`: in the lib variant when `a` is the smaller, and in the main
  variant when `a` comes first in the `Vec`.
- `main`'s two-node DAG sorts to `[test1, test2]` (`CrdtMain.MainScenario`).
- Two structurally equal start nodes count as one node, because the derived
  equality identifies them (`CrdtLib.EqualNodesScenario`).

## Model

| member | source | states |
|---|---|---|
| CrdtLib.Ascending | src/lib.rs:52 | Iterating a `BTreeSet` of predecessors yields every element of the set exactly once, so as many entries as the set has elements |
| CrdtLib.AscendingSorted | src/lib.rs:52 | That iteration is in ascending order of the node ordering: every earlier entry is below every later one |
| CrdtLib.AscendingPair | src/lib.rs:52 | A two-element `BTreeSet` is iterated smaller element first |
| CrdtLib.NotReachableFromOwnPredecessors | src/lib.rs:74-78 | A node is never reachable from its own predecessors, so the graph the sort walks is acyclic |
| CrdtLib.ReachTrans | src/lib.rs:52-54 | Anything reachable from a node reachable from `n` is reachable from `n`, which is why the recursive visit reaches exactly the closure |
| CrdtLib.PredecessorsFirstClosed | src/lib.rs:48-50 | An output list in which every node follows its predecessors already holds everything its nodes reach, so returning early on a marked node loses nothing |
| CrdtLib.FinishVisit | src/lib.rs:56-57 | Once all predecessors are visited, marking `n` and pushing it keeps marks equal to output, keeps the output free of duplicates and predecessor-first, and adds exactly what `n` reaches |
| CrdtLib.TopologicalSortVisit | src/lib.rs:45-58 | Visiting keeps marks equal to the output's elements, keeps the output duplicate-free and predecessor-first, only extends it, and adds exactly the nodes reachable from `n`. It changes nothing when `n` is marked. Otherwise it ends with `n`, and the predecessors are visited in ascending `BTreeSet` order: for every `i`, a prefix of the output holds exactly what the first `i` predecessors of `Ascending` reach. The output equals the reference definition `Visited(n, l, le)`, which fixes the order at every depth of the recursion |
| CrdtLib.VisitedSound | src/lib.rs:45-58 | The reference visit keeps a consistent output duplicate-free and predecessor-first, only extends it, adds exactly what `n` reaches, and leaves it unchanged when `n` is already in it |
| CrdtLib.VisitedUnmarked | src/lib.rs:52-57 | The reference visit of an unmarked `n` ends with `n`, and for every `i` a prefix of it holds exactly what the first `i` predecessors in ascending order reach |
| CrdtLib.PoppedAllSound | src/lib.rs:61-71 | The reference sort of `s[j..]` is duplicate-free, predecessor-first, holds exactly what `s[j..]` reaches, and each popped start node's closure is a prefix of it |
| CrdtLib.TopologicalSort | src/lib.rs:61-71 | The result lists exactly the nodes reachable from the start nodes, each once, every node after its predecessors. Start nodes are popped last to first: for every `j`, a prefix of the result holds exactly what `s[j..]` reaches, and it ends with `s[j]` when `s[j]` was new. In particular, the closure of the last start node is a prefix ending in that node. The result equals the reference definition `PoppedAll(s, le)` |
| CrdtLib.EqualNodesScenario | src/lib.rs:74-78 | Two structurally equal start nodes over one root are sorted into `[root, node]`, because the derived equality identifies them |
| CrdtLib.ForkVisited | src/lib.rs:52-57 | Visiting a node over two predecessor-free predecessors `a` below `b` outputs exactly `[a, b, n]` |
| CrdtLib.SortFork | src/lib.rs:61-71 | Sorting such a node outputs exactly `[a, b, n]`, the smaller predecessor first |
| CrdtMain.NotReachableFromOwnPredecessors | src/main.rs:68-72 | A node is never reachable from its own predecessors, so the graph the sort walks is acyclic |
| CrdtMain.ReachTrans | src/main.rs:47-49 | Anything reachable from a node reachable from `n` is reachable from `n` |
| CrdtMain.PredecessorsFirstClosed | src/main.rs:43-45 | An output list in which every node follows its predecessors already holds everything its nodes reach, so returning early on a marked node loses nothing |
| CrdtMain.FinishVisit | src/main.rs:51-52 | Once all predecessors are visited, marking `n` and pushing it keeps marks equal to output, keeps the output free of duplicates and predecessor-first, and adds exactly what `n` reaches |
| CrdtMain.TopologicalSortVisit | src/main.rs:42-53 | Visiting keeps marks equal to the output's elements, keeps the output duplicate-free and predecessor-first, only extends it, and adds exactly the nodes reachable from `n`. It changes nothing when `n` is marked. Otherwise it ends with `n`, and the predecessors are visited in `Vec` order, duplicates included: for every `i`, a prefix of the output holds exactly what `n.predecessors[..i]` reaches. The output equals the reference definition `Visited(n, l)`, which fixes the order at every depth of the recursion |
| CrdtMain.VisitedSound | src/main.rs:42-53 | The reference visit keeps a consistent output duplicate-free and predecessor-first, only extends it, adds exactly what `n` reaches, and leaves it unchanged when `n` is already in it |
| CrdtMain.VisitedUnmarked | src/main.rs:47-52 | The reference visit of an unmarked `n` ends with `n`, and for every `i` a prefix of it holds exactly what `n.predecessors[..i]` reaches |
| CrdtMain.PoppedAllSound | src/main.rs:56-66 | The reference sort of `s[j..]` is duplicate-free, predecessor-first, holds exactly what `s[j..]` reaches, and each popped start node's closure is a prefix of it |
| CrdtMain.TopologicalSort | src/main.rs:56-66 | The result lists exactly the nodes reachable from the start nodes, each once, every node after its predecessors. Start nodes are popped last to first: for every `j`, a prefix of the result holds exactly what `s[j..]` reaches, and it ends with `s[j]` when `s[j]` was new. In particular, the closure of the last start node is a prefix ending in that node. The result equals the reference definition `PoppedAll(s)` |
| CrdtMain.PairOrder | src/main.rs:56-66 | A duplicate-free, predecessor-first listing of a root and a node depending on it is `[root, node]` |
| CrdtMain.SortPair | src/main.rs:118-127 | Sorting a node whose only predecessor (possibly repeated) is a root with no predecessors yields `[root, node]` |
| CrdtMain.MainScenario | src/main.rs:115-129 | `main`'s DAG, `test1` (data 0, no predecessors) under `test2` (data 5), sorts to `[test1, test2]` |
| CrdtMain.RepeatedPredecessorScenario | src/main.rs:47-49 | A node that lists the same predecessor twice still appears once, after that predecessor, because the second visit finds it marked |
| CrdtMain.ForkVisited | src/main.rs:47-52 | Visiting a node whose `Vec` of predecessors is `[a, b]`, both predecessor-free, outputs exactly `[a, b, n]` |
| CrdtMain.SortFork | src/main.rs:56-66 | Sorting such a node outputs exactly `[a, b, n]`, in `Vec` order |
| CrdtMain.ForkScenario | src/main.rs:47-49 | `main`'s DAG with a second root (data 1) after `test1` in `test2`'s predecessors sorts to `[test1, root, test2]` |
| Seqs.NoDupCard | src/lib.rs:66-70 | A duplicate-free output has exactly as many entries as distinct nodes, so the sorted length equals the number of reachable nodes |

## Left out

- CrdtLib.TopologicalSortVisit / CrdtMain.TopologicalSortVisit: specified only for states in which the marked set equals the output's elements and the output is duplicate-free and predecessor-first. `topological_sort` is the only caller, and it always creates and keeps such states. The result of a visit from an arbitrary, inconsistent mark set is not modelled.
- Cycle detection: the source leaves it as a TODO (temporary marks are not implemented). Nodes that are datatype values cannot form a cycle, so the model has no cycles to detect.
- Mutation through `RefCell`: the lib random generator inserts predecessors into nodes that already exist. The model treats a node as an immutable value, which is how the sort reads it.
- `Rc`, lifetimes and reference identity: the derived equality compares by content, and the model uses that same structural equality.
- The concrete derived `Ord` of the lib `DAGNode`, which is a lexicographic comparison of the predecessor set, then the data: it is abstracted to an arbitrary total order `le`. Every theorem holds for any such order.
- `HashSet` hashing in the main variant: only its membership behaviour is modelled.
- `CurrentState` and the operation reducers: they are declared but hold no logic in the source.
- The `Arbitrary` implementations (`RandomDAG`) and the fuzz target: these are random input generation and a test harness that only calls the sort.
- Recursion depth: `topological_sort_visit` recurses once per node along a chain of predecessors, so in Rust a long chain can overflow the stack. The model's recursion is unbounded, and it proves termination only.
- `println!` output in `main`: this is I/O. The scenario returns the sorted list instead.
