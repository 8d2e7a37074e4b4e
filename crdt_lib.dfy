/** The depth-first topological sort of src/lib.rs.

    A `DAGNode` there holds its predecessors in a `BTreeSet` of shared
    references and derives `Eq` and `Ord` field by field, so two nodes with the
    same predecessor set and the same data are the same key of every
    `BTreeSet`. Here a node is an immutable inductive value whose predecessors
    are a `set`: Dafny's structural equality on it is the derived equality, and
    a node can only name predecessors that already exist, so the graph is
    acyclic by construction. The derived `Ord`, which fixes the order in which
    a `BTreeSet` is iterated, is a parameter `le` that may be any total order;
    everything proved here holds for each of them. */
module CrdtLib {
  import opened Seqs

  /** One operation of the causal history: the operations it depends on and its payload. */
  datatype DagNode<T(==)> = DagNode(predecessors: set<DagNode<T>>, currentData: T)

  /** A comparison on nodes, standing for the derived `Ord` of `DAGNode`. */
  type Order<!T(==)> = (DagNode<T>, DagNode<T>) -> bool

  /** `le` is a total order, as every `Ord` implementation must be. */
  ghost predicate TotalOrder<T(!new)>(le: Order<T>)
  {
    && (forall x, y :: le(x, y) && le(y, x) ==> x == y)
    && (forall x, y, z :: le(x, y) && le(y, z) ==> le(x, z))
    && (forall x, y :: le(x, y) || le(y, x))
  }

  /** `m` is the smallest element of `s` under `le`. */
  predicate IsLeast<T(==,!new)>(m: DagNode<T>, s: set<DagNode<T>>, le: Order<T>)
  {
    m in s && forall y :: y in s ==> le(m, y)
  }

  /** Every non-empty finite set of nodes has a smallest element. */
  lemma {:induction false} LeastExists<T(!new)>(s: set<DagNode<T>>, le: Order<T>)
    requires TotalOrder(le) && s != {}
    ensures exists m :: IsLeast(m, s, le)
    decreases |s|
  {
    var x :| x in s;
    if s != {x} {
      LeastExists(s - {x}, le);
      var m :| IsLeast(m, s - {x}, le);
      if !le(m, x) {
        assert IsLeast(x, s, le);
      } else {
        assert IsLeast(m, s, le);
      }
    } else {
      assert IsLeast(x, s, le);
    }
  }

  /** Putting an element of `s` in front of a duplicate-free listing of the
      rest lists all of `s`, each element once. */
  lemma PrependNew<T>(m: DagNode<T>, rest: seq<DagNode<T>>, s: set<DagNode<T>>)
    requires m in s && Elems(rest) == s - {m} && NoDup(rest)
    ensures Elems([m] + rest) == s && NoDup([m] + rest)
  {
    var r := [m] + rest;
    assert Elems(r) == {m} + Elems(rest);
    forall i, j | 0 <= i < j < |r| ensures r[i] != r[j] {
      if i == 0 {
        assert r[j] == rest[j - 1] && rest[j - 1] in Elems(rest);
      } else {
        assert r[i] == rest[i - 1] && r[j] == rest[j - 1];
      }
    }
  }

  /** Putting the least element of `s` in front of an ascending listing of the
      rest keeps the listing ascending. */
  lemma PrependLeast<T(!new)>(m: DagNode<T>, rest: seq<DagNode<T>>, s: set<DagNode<T>>, le: Order<T>)
    requires IsLeast(m, s, le) && Elems(rest) == s - {m}
    requires forall i, j :: 0 <= i < j < |rest| ==> le(rest[i], rest[j])
    ensures forall i, j :: 0 <= i < j < |[m] + rest| ==> le(([m] + rest)[i], ([m] + rest)[j])
  {
    var r := [m] + rest;
    forall i, j | 0 <= i < j < |r| ensures le(r[i], r[j]) {
      if i == 0 {
        assert r[j] == rest[j - 1] && rest[j - 1] in Elems(rest);
      } else {
        assert r[i] == rest[i - 1] && r[j] == rest[j - 1];
      }
    }
  }

  /** The order in which a `BTreeSet` yields its elements: the least first,
      then the rest in the same way, so every element exactly once. */
  function Ascending<T(==,!new)>(s: set<DagNode<T>>, le: Order<T>): (r: seq<DagNode<T>>)
    requires TotalOrder(le)
    ensures Elems(r) == s && NoDup(r) && |r| == |s|
    decreases |s|
  {
    if s == {} then []
    else
      LeastExists(s, le);
      var m :| IsLeast(m, s, le);
      var rest := Ascending(s - {m}, le);
      PrependNew(m, rest, s);
      [m] + rest
  }

  /** A `BTreeSet` is iterated in ascending order. */
  lemma {:induction false} AscendingSorted<T(!new)>(s: set<DagNode<T>>, le: Order<T>)
    requires TotalOrder(le)
    ensures forall i, j :: 0 <= i < j < |Ascending(s, le)| ==> le(Ascending(s, le)[i], Ascending(s, le)[j])
    decreases |s|
  {
    if s != {} {
      var r := Ascending(s, le);
      var m := r[0];
      assert IsLeast(m, s, le) && r[1..] == Ascending(s - {m}, le);
      AscendingSorted(s - {m}, le);
      PrependLeast(m, r[1..], s, le);
      assert r == [m] + r[1..];
    }
  }

  /** The nodes reachable from `n` along predecessor edges, `n` included. */
  ghost function Reach<T>(n: DagNode<T>): set<DagNode<T>>
    decreases n
  {
    {n} + (set p, x | p in n.predecessors && x in Reach(p) :: x)
  }

  /** The nodes reachable from any of `roots`. */
  ghost function ReachFrom<T>(roots: set<DagNode<T>>): set<DagNode<T>>
  {
    set p, x | p in roots && x in Reach(p) :: x
  }

  /** A node reaches itself and whatever its predecessors reach. */
  lemma ReachUnfold<T>(n: DagNode<T>)
    ensures Reach(n) == {n} + ReachFrom(n.predecessors)
  {
  }

  /** The same unfolding, beside a set of nodes already output. */
  lemma ReachUnfoldWith<T>(a: set<DagNode<T>>, n: DagNode<T>)
    ensures a + ReachFrom(n.predecessors) + {n} == a + Reach(n)
  {
    ReachUnfold(n);
  }

  /** The roots themselves are reachable from the roots. */
  lemma ReachFromIncludesRoots<T>(roots: set<DagNode<T>>)
    ensures roots <= ReachFrom(roots)
  {
    forall p | p in roots ensures p in ReachFrom(roots) {
      assert p in Reach(p);
    }
  }

  /** Adding a root adds exactly what that root reaches. */
  lemma ReachFromAdd<T>(roots: set<DagNode<T>>, n: DagNode<T>)
    ensures ReachFrom(roots + {n}) == ReachFrom(roots) + Reach(n)
  {
    assert n in Reach(n);
  }

  /** Reachability is transitive: whatever a reachable node reaches, `n` reaches. */
  lemma {:induction false} ReachTrans<T>(n: DagNode<T>, x: DagNode<T>)
    requires x in Reach(n)
    ensures Reach(x) <= Reach(n)
    decreases n
  {
    if x != n {
      var p :| p in n.predecessors && x in Reach(p);
      ReachTrans(p, x);
    }
  }

  /** Acyclicity: no node can be reached from its own predecessors. */
  lemma {:induction false} NotReachableFromOwnPredecessors<T>(n: DagNode<T>)
    ensures n !in ReachFrom(n.predecessors)
    decreases n
  {
    if n in ReachFrom(n.predecessors) {
      var p :| p in n.predecessors && n in Reach(p);
      assert p != n;
      ReachUnfold(p);
      var q :| q in p.predecessors && n in Reach(q);
      ReachTrans(q, n);
      ReachUnfold(n);
      assert p in Reach(p);
      assert p in Reach(q);
      NotReachableFromOwnPredecessors(p);
      assert false;
    }
  }

  /** A set closed under reachability that holds a node holds all it reaches. */
  lemma ClosedHoldsReach<T>(a: set<DagNode<T>>, n: DagNode<T>)
    requires ReachFrom(a) <= a && n in a
    ensures Reach(n) <= a
  {
  }

  /** Adding a node whose predecessors are all in a closed set keeps it closed. */
  lemma ClosedAdd<T>(a: set<DagNode<T>>, n: DagNode<T>)
    requires ReachFrom(a) <= a && n.predecessors <= a
    ensures ReachFrom(a + {n}) <= a + {n}
  {
    forall x | x in ReachFrom(a + {n}) ensures x in a + {n} {
      var p :| p in a + {n} && x in Reach(p);
      if p == n && x != n {
        var q :| q in n.predecessors && x in Reach(q);
        assert x in ReachFrom(a);
      } else if p != n {
        assert x in ReachFrom(a);
      }
    }
  }

  /** Every predecessor of an entry of `l` occurs strictly before it. */
  ghost predicate PredecessorsFirst<T>(l: seq<DagNode<T>>)
  {
    forall i :: 0 <= i < |l| ==> l[i].predecessors <= Elems(l[..i])
  }

  /** Dropping the last entry keeps predecessors first, and that entry's
      predecessors all occur before it. */
  lemma PredecessorsFirstInit<T>(l: seq<DagNode<T>>)
    requires l != [] && PredecessorsFirst(l)
    ensures PredecessorsFirst(l[..|l| - 1])
    ensures l[|l| - 1].predecessors <= Elems(l[..|l| - 1])
  {
    var init := l[..|l| - 1];
    forall i | 0 <= i < |init| ensures init[i].predecessors <= Elems(init[..i]) {
      assert init[i] == l[i] && init[..i] == l[..i];
    }
  }

  /** A list in which predecessors come first holds everything its entries reach. */
  lemma {:induction false} PredecessorsFirstClosed<T>(l: seq<DagNode<T>>)
    requires PredecessorsFirst(l)
    ensures ReachFrom(Elems(l)) <= Elems(l)
  {
    if l != [] {
      var init, last := l[..|l| - 1], l[|l| - 1];
      PredecessorsFirstInit(l);
      PredecessorsFirstClosed(init);
      assert last.predecessors <= Elems(init);
      assert l == init + [last];
      assert Elems(l) == Elems(init) + {last};
      ClosedAdd(Elems(init), last);
    }
  }

  /** The state `topological_sort` threads through its visits: the marks are
      exactly the nodes already output, none twice, predecessors first. */
  ghost predicate Valid<T>(l: seq<DagNode<T>>, marked: set<DagNode<T>>)
  {
    marked == Elems(l) && NoDup(l) && PredecessorsFirst(l)
  }

  /** Marking and appending a node whose predecessors are all output keeps the state valid. */
  lemma MarkAndAppend<T>(l: seq<DagNode<T>>, n: DagNode<T>)
    requires Valid(l, Elems(l)) && n !in Elems(l) && n.predecessors <= Elems(l)
    ensures Valid(l + [n], Elems(l) + {n})
  {
    NoDupAppend(l, n);
    var l' := l + [n];
    forall i | 0 <= i < |l'| ensures l'[i].predecessors <= Elems(l'[..i]) {
      if i < |l| {
        assert l'[i] == l[i] && l'[..i] == l[..i];
      } else {
        assert l'[..i] == l;
      }
    }
  }

  /** Visiting `ps[i]` after `ps[..i]` extends the output and adds what
      `ps[i]` reaches. */
  lemma VisitStep<T>(l: seq<DagNode<T>>, mid: seq<DagNode<T>>, next: seq<DagNode<T>>, ps: seq<DagNode<T>>, i: nat)
    requires i < |ps|
    requires l <= mid && Elems(mid) == Elems(l) + ReachFrom(Elems(ps[..i]))
    requires mid <= next && Elems(next) == Elems(mid) + Reach(ps[i])
    ensures l <= next && Elems(next) == Elems(l) + ReachFrom(Elems(ps[..i + 1]))
  {
    assert next[..|l|] == mid[..|l|];
    assert ps[..i + 1] == ps[..i] + [ps[i]];
    assert Elems(ps[..i + 1]) == Elems(ps[..i]) + {ps[i]};
    ReachFromAdd(Elems(ps[..i]), ps[i]);
  }

  /** Once the predecessors of an unmarked `n` are visited, marking and
      appending `n` keeps the state valid and completes what `n` reaches. */
  lemma FinishVisit<T>(l: seq<DagNode<T>>, l': seq<DagNode<T>>, n: DagNode<T>)
    requires Valid(l', Elems(l')) && n !in Elems(l)
    requires Elems(l') == Elems(l) + ReachFrom(n.predecessors)
    ensures Valid(l' + [n], Elems(l') + {n})
    ensures Elems(l' + [n]) == Elems(l) + Reach(n)
  {
    NotReachableFromOwnPredecessors(n);
    ReachFromIncludesRoots(n.predecessors);
    MarkAndAppend(l', n);
    ReachUnfoldWith(Elems(l), n);
  }

  /** After visiting each prefix `ps[..i]` of the predecessor list in turn, a
      prefix of the output held exactly what that prefix of `ps` reaches. */
  ghost predicate VisitedInOrder<T>(l: seq<DagNode<T>>, l': seq<DagNode<T>>, ps: seq<DagNode<T>>)
  {
    forall i :: 0 <= i <= |ps| ==> PrefixHolds(l, l', Elems(l) + ReachFrom(Elems(ps[..i])))
  }

  /** Appending `n` after all predecessors keeps the visited stages. */
  lemma VisitedInOrderFinish<T>(l: seq<DagNode<T>>, mid: seq<DagNode<T>>, ps: seq<DagNode<T>>, n: DagNode<T>)
    requires l <= mid
    requires forall k :: 0 <= k <= |ps| ==> PrefixHolds(l, mid, Elems(l) + ReachFrom(Elems(ps[..k])))
    ensures VisitedInOrder(l, mid + [n], ps)
  {
    forall k | 0 <= k <= |ps|
      ensures PrefixHolds(l, mid + [n], Elems(l) + ReachFrom(Elems(ps[..k])))
    {
      PrefixHoldsExtend(l, mid, mid + [n], Elems(l) + ReachFrom(Elems(ps[..k])));
    }
  }

  /** Reference definition of a visit: the output `topological_sort_visit`
      leaves when it starts on `n` with output `l` and marks `Elems(l)`. A
      marked node adds nothing; otherwise its predecessors are visited one
      after another in ascending order, and then `n` is appended. */
  ghost function Visited<T(!new)>(n: DagNode<T>, l: seq<DagNode<T>>, le: Order<T>): seq<DagNode<T>>
    requires TotalOrder(le)
    decreases n, |n.predecessors| + 1
  {
    if n in Elems(l) then l else VisitedPrefix(n, |n.predecessors|, l, le) + [n]
  }

  /** The output after visiting the first `i` predecessors of `n`, in ascending
      order, one after another, starting from `l`. */
  ghost function VisitedPrefix<T(!new)>(n: DagNode<T>, i: nat, l: seq<DagNode<T>>, le: Order<T>): seq<DagNode<T>>
    requires TotalOrder(le) && i <= |n.predecessors|
    decreases n, i
  {
    if i == 0 then l
    else
      var preds := Ascending(n.predecessors, le);
      var p := preds[i - 1];
      assert p in Elems(preds);
      Visited(p, VisitedPrefix(n, i - 1, l, le), le)
  }

  /** Visiting the first `i` predecessors of `n`, in ascending order, from a
      consistent output keeps it duplicate-free and predecessor-first, only
      extends it and adds exactly what those predecessors reach. */
  lemma {:induction false} VisitedPrefixSound<T(!new)>(n: DagNode<T>, i: nat, l: seq<DagNode<T>>, le: Order<T>)
    requires TotalOrder(le) && i <= |n.predecessors| && NoDup(l) && PredecessorsFirst(l)
    ensures NoDup(VisitedPrefix(n, i, l, le)) && PredecessorsFirst(VisitedPrefix(n, i, l, le))
    ensures l <= VisitedPrefix(n, i, l, le)
    ensures Elems(VisitedPrefix(n, i, l, le)) == Elems(l) + ReachFrom(Elems(Ascending(n.predecessors, le)[..i]))
    decreases n, i, 1
  {
    if i == 0 {
      assert Elems(Ascending(n.predecessors, le)[..0]) == {};
    } else {
      VisitedPrefixSound(n, i - 1, l, le);
      VisitedPrefixSoundStep(n, i, l, le);
    }
  }

  /** Visiting predecessor `i - 1` after the ones before it carries the facts
      about the output over to the first `i` predecessors. */
  lemma {:induction false} VisitedPrefixSoundStep<T(!new)>(n: DagNode<T>, i: nat, l: seq<DagNode<T>>, le: Order<T>)
    requires TotalOrder(le) && 0 < i <= |n.predecessors|
    requires NoDup(VisitedPrefix(n, i - 1, l, le)) && PredecessorsFirst(VisitedPrefix(n, i - 1, l, le))
    requires l <= VisitedPrefix(n, i - 1, l, le)
    requires Elems(VisitedPrefix(n, i - 1, l, le)) == Elems(l) + ReachFrom(Elems(Ascending(n.predecessors, le)[..i - 1]))
    ensures NoDup(VisitedPrefix(n, i, l, le)) && PredecessorsFirst(VisitedPrefix(n, i, l, le))
    ensures l <= VisitedPrefix(n, i, l, le)
    ensures Elems(VisitedPrefix(n, i, l, le)) == Elems(l) + ReachFrom(Elems(Ascending(n.predecessors, le)[..i]))
    decreases n, i, 0
  {
    VisitedPrefixNext(n, i - 1, l, le);
    VisitedSound(Ascending(n.predecessors, le)[i - 1], VisitedPrefix(n, i - 1, l, le), le);
    VisitStep(l, VisitedPrefix(n, i - 1, l, le), VisitedPrefix(n, i, l, le), Ascending(n.predecessors, le), i - 1);
  }

  /** A visit from a consistent output keeps it duplicate-free and
      predecessor-first, only extends it and adds exactly what `n` reaches;
      a marked `n` changes nothing. */
  lemma {:induction false} VisitedSound<T(!new)>(n: DagNode<T>, l: seq<DagNode<T>>, le: Order<T>)
    requires TotalOrder(le) && NoDup(l) && PredecessorsFirst(l)
    ensures NoDup(Visited(n, l, le)) && PredecessorsFirst(Visited(n, l, le))
    ensures l <= Visited(n, l, le)
    ensures Elems(Visited(n, l, le)) == Elems(l) + Reach(n)
    ensures n in Elems(l) ==> Visited(n, l, le) == l
    decreases n, |n.predecessors| + 1
  {
    if n in Elems(l) {
      PredecessorsFirstClosed(l);
      ClosedHoldsReach(Elems(l), n);
    } else {
      VisitedPrefixSound(n, |n.predecessors|, l, le);
      VisitedSoundFinish(n, l, le);
    }
  }

  /** Appending an unmarked `n` after all its predecessors completes the visit. */
  lemma VisitedSoundFinish<T(!new)>(n: DagNode<T>, l: seq<DagNode<T>>, le: Order<T>)
    requires TotalOrder(le) && n !in Elems(l)
    requires NoDup(VisitedPrefix(n, |n.predecessors|, l, le)) && PredecessorsFirst(VisitedPrefix(n, |n.predecessors|, l, le))
    requires l <= VisitedPrefix(n, |n.predecessors|, l, le)
    requires Elems(VisitedPrefix(n, |n.predecessors|, l, le)) ==
      Elems(l) + ReachFrom(Elems(Ascending(n.predecessors, le)[..|n.predecessors|]))
    ensures NoDup(Visited(n, l, le)) && PredecessorsFirst(Visited(n, l, le))
    ensures l <= Visited(n, l, le)
    ensures Elems(Visited(n, l, le)) == Elems(l) + Reach(n)
  {
    assert Ascending(n.predecessors, le)[..|n.predecessors|] == Ascending(n.predecessors, le);
    FinishVisit(l, VisitedPrefix(n, |n.predecessors|, l, le), n);
    assert Visited(n, l, le) == VisitedPrefix(n, |n.predecessors|, l, le) + [n];
  }

  /** Visiting the first `i` predecessors in ascending order passes, for each `k <= i`,
      through a prefix holding exactly what the first `k` of them reach. */
  lemma VisitedPrefixInOrder<T(!new)>(n: DagNode<T>, i: nat, l: seq<DagNode<T>>, le: Order<T>)
    requires TotalOrder(le) && i <= |n.predecessors| && NoDup(l) && PredecessorsFirst(l)
    ensures forall k :: 0 <= k <= i ==>
      PrefixHolds(l, VisitedPrefix(n, i, l, le), Elems(l) + ReachFrom(Elems(Ascending(n.predecessors, le)[..k])))
  {
    forall k | 0 <= k <= i
      ensures PrefixHolds(l, VisitedPrefix(n, i, l, le), Elems(l) + ReachFrom(Elems(Ascending(n.predecessors, le)[..k])))
    {
      VisitedPrefixMono(n, k, i, l, le);
      VisitedPrefixSound(n, k, l, le);
      PrefixHoldsAt(l, VisitedPrefix(n, k, l, le), VisitedPrefix(n, i, l, le));
    }
  }

  /** Visiting more predecessors only extends the output. */
  lemma {:induction false} VisitedPrefixMono<T(!new)>(n: DagNode<T>, k: nat, i: nat, l: seq<DagNode<T>>, le: Order<T>)
    requires TotalOrder(le) && k <= i <= |n.predecessors| && NoDup(l) && PredecessorsFirst(l)
    ensures VisitedPrefix(n, k, l, le) <= VisitedPrefix(n, i, l, le)
  {
    if k < i {
      VisitedPrefixMono(n, k, i - 1, l, le);
      VisitedPrefixGrows(n, i, l, le);
    }
  }

  /** Visiting one more predecessor only extends the output. */
  lemma VisitedPrefixGrows<T(!new)>(n: DagNode<T>, i: nat, l: seq<DagNode<T>>, le: Order<T>)
    requires TotalOrder(le) && 0 < i <= |n.predecessors| && NoDup(l) && PredecessorsFirst(l)
    ensures VisitedPrefix(n, i - 1, l, le) <= VisitedPrefix(n, i, l, le)
  {
    VisitedPrefixSound(n, i - 1, l, le);
    assert Ascending(n.predecessors, le)[i - 1] in Elems(Ascending(n.predecessors, le));
    VisitedSound(Ascending(n.predecessors, le)[i - 1], VisitedPrefix(n, i - 1, l, le), le);
    assert VisitedPrefix(n, i, l, le) == Visited(Ascending(n.predecessors, le)[i - 1], VisitedPrefix(n, i - 1, l, le), le);
  }

  /** Visiting an unmarked `n` ends the output with `n`, after the closures of
      its predecessors in ascending order. */
  lemma VisitedUnmarked<T(!new)>(n: DagNode<T>, l: seq<DagNode<T>>, le: Order<T>)
    requires TotalOrder(le) && NoDup(l) && PredecessorsFirst(l) && n !in Elems(l)
    ensures |Visited(n, l, le)| > |l| && Visited(n, l, le)[|Visited(n, l, le)| - 1] == n
    ensures VisitedInOrder(l, Visited(n, l, le), Ascending(n.predecessors, le))
  {
    VisitedPrefixSound(n, |n.predecessors|, l, le);
    VisitedPrefixInOrder(n, |n.predecessors|, l, le);
    VisitedUnmarkedFinish(n, l, le);
  }

  /** Appending `n` keeps the prefixes its predecessors' visits passed through. */
  lemma VisitedUnmarkedFinish<T(!new)>(n: DagNode<T>, l: seq<DagNode<T>>, le: Order<T>)
    requires TotalOrder(le) && n !in Elems(l) && l <= VisitedPrefix(n, |n.predecessors|, l, le)
    requires forall k :: 0 <= k <= |n.predecessors| ==>
      PrefixHolds(l, VisitedPrefix(n, |n.predecessors|, l, le), Elems(l) + ReachFrom(Elems(Ascending(n.predecessors, le)[..k])))
    ensures |Visited(n, l, le)| > |l| && Visited(n, l, le)[|Visited(n, l, le)| - 1] == n
    ensures VisitedInOrder(l, Visited(n, l, le), Ascending(n.predecessors, le))
  {
    VisitedInOrderFinish(l, VisitedPrefix(n, |n.predecessors|, l, le), Ascending(n.predecessors, le), n);
    assert Visited(n, l, le) == VisitedPrefix(n, |n.predecessors|, l, le) + [n];
  }

  /** `topological_sort_visit`: unless `n` is already marked, visit its
      predecessors in ascending order, then mark `n` and append it. */
  method TopologicalSortVisit<T(==,!new)>(n: DagNode<T>, l: seq<DagNode<T>>, marked: set<DagNode<T>>, le: Order<T>)
    returns (l': seq<DagNode<T>>, marked': set<DagNode<T>>)
    requires TotalOrder(le)
    requires Valid(l, marked)
    ensures Valid(l', marked')
    ensures l <= l'
    ensures Elems(l') == Elems(l) + Reach(n)
    ensures n in marked ==> l' == l && marked' == marked
    ensures n !in marked ==> |l'| > |l| && l'[|l'| - 1] == n
    ensures n !in marked ==> VisitedInOrder(l, l', Ascending(n.predecessors, le))
    ensures l' == Visited(n, l, le)
    decreases n
  {
    if n in marked {
      VisitedSound(n, l, le);
      return l, marked;
    }
    var preds := Ascending(n.predecessors, le);
    l', marked' := l, marked;
    for i := 0 to |preds|
      invariant l' == VisitedPrefix(n, i, l, le) && marked' == Elems(l')
    {
      VisitedPrefixSound(n, i, l, le);
      VisitedPrefixNext(n, i, l, le);
      l', marked' := TopologicalSortVisit(preds[i], l', marked', le);
    }
    VisitedUnfold(n, l, le);
    marked' := marked' + {n};
    l' := l' + [n];
    VisitedSound(n, l, le);
    VisitedUnmarked(n, l, le);
  }

  /** Visiting one more predecessor visits the next one in ascending order. */
  lemma VisitedPrefixNext<T(!new)>(n: DagNode<T>, i: nat, l: seq<DagNode<T>>, le: Order<T>)
    requires TotalOrder(le) && i < |n.predecessors|
    ensures Ascending(n.predecessors, le)[i] < n
    ensures VisitedPrefix(n, i + 1, l, le) == Visited(Ascending(n.predecessors, le)[i], VisitedPrefix(n, i, l, le), le)
  {
    assert Ascending(n.predecessors, le)[i] in Elems(Ascending(n.predecessors, le));
  }

  /** Visiting an unmarked node outputs its predecessors' visits, then the node. */
  lemma VisitedUnfold<T(!new)>(n: DagNode<T>, l: seq<DagNode<T>>, le: Order<T>)
    requires TotalOrder(le) && n !in Elems(l)
    ensures Visited(n, l, le) == VisitedPrefix(n, |n.predecessors|, l, le) + [n]
    ensures Elems(Visited(n, l, le)) == Elems(VisitedPrefix(n, |n.predecessors|, l, le)) + {n}
  {
  }

  /** Popping `s[j - 1]` adds what it reaches to what the popped suffix reaches. */
  lemma ReachFromPop<T>(s: seq<DagNode<T>>, j: nat)
    requires 0 < j <= |s|
    ensures ReachFrom(Elems(s[j - 1..])) == ReachFrom(Elems(s[j..])) + Reach(s[j - 1])
  {
    assert s[j - 1..] == [s[j - 1]] + s[j..];
    assert Elems(s[j - 1..]) == Elems(s[j..]) + {s[j - 1]};
    ReachFromAdd(Elems(s[j..]), s[j - 1]);
  }

  /** `first` is what visiting `n` from the empty state outputs: exactly the
      nodes `n` reaches, ending with `n` itself. */
  ghost predicate FirstVisit<T>(first: seq<DagNode<T>>, n: DagNode<T>)
  {
    first != [] && Elems(first) == Reach(n) && first[|first| - 1] == n
  }

  /** Once `s[j..]` has been popped and visited, a prefix of `l` holds exactly
      what those start nodes reach; when `s[j]` was not reached before its own
      visit, that prefix ends with `s[j]`. */
  ghost predicate PoppedUpTo<T>(s: seq<DagNode<T>>, l: seq<DagNode<T>>, j: nat)
  {
    j <= |s| &&
    exists c :: 0 <= c <= |l| && Elems(l[..c]) == ReachFrom(Elems(s[j..])) &&
      (j < |s| && s[j] !in ReachFrom(Elems(s[j + 1..])) ==> 0 < c && l[c - 1] == s[j])
  }

  /** `PoppedUpTo` holds for every start position from `j` on. */
  ghost predicate PoppedFrom<T>(s: seq<DagNode<T>>, l: seq<DagNode<T>>, j: nat)
  {
    forall k :: j <= k <= |s| ==> PoppedUpTo(s, l, k)
  }

  /** What was popped before is still a prefix once the output grows. */
  lemma PoppedUpToExtend<T>(s: seq<DagNode<T>>, mid: seq<DagNode<T>>, l: seq<DagNode<T>>, j: nat)
    requires PoppedUpTo(s, mid, j) && mid <= l
    ensures PoppedUpTo(s, l, j)
  {
    var c :| 0 <= c <= |mid| && Elems(mid[..c]) == ReachFrom(Elems(s[j..])) &&
      (j < |s| && s[j] !in ReachFrom(Elems(s[j + 1..])) ==> 0 < c && mid[c - 1] == s[j]);
    assert l[..c] == mid[..c];
  }

  /** The output right after visiting `s[j]` witnesses `PoppedUpTo` at `j`. */
  lemma PoppedUpToWhole<T>(s: seq<DagNode<T>>, l: seq<DagNode<T>>, j: nat)
    requires j < |s| && Elems(l) == ReachFrom(Elems(s[j..]))
    requires s[j] !in ReachFrom(Elems(s[j + 1..])) ==> 0 < |l| && l[|l| - 1] == s[j]
    ensures PoppedUpTo(s, l, j)
  {
    assert l[..|l|] == l;
  }

  /** Visiting the popped `s[j]` keeps every earlier `PoppedUpTo` and adds the one at `j`. */
  lemma PopStep<T>(s: seq<DagNode<T>>, before: seq<DagNode<T>>, l: seq<DagNode<T>>, j: nat)
    requires j < |s| && before <= l
    requires PoppedFrom(s, before, j + 1)
    requires Elems(before) == ReachFrom(Elems(s[j + 1..])) && Elems(l) == ReachFrom(Elems(s[j..]))
    requires s[j] !in Elems(before) ==> 0 < |l| && l[|l| - 1] == s[j]
    ensures PoppedFrom(s, l, j)
  {
    forall k | j < k <= |s|
      ensures PoppedUpTo(s, l, k)
    {
      PoppedUpToExtend(s, before, l, k);
    }
    PoppedUpToWhole(s, l, j);
  }

  /** The first start node popped, the last of `s`, is output together with
      all it reaches as a prefix ending in that node. */
  lemma FirstPopped<T>(s: seq<DagNode<T>>, l: seq<DagNode<T>>)
    requires s != [] && PoppedFrom(s, l, 0)
    ensures exists first {:trigger FirstVisit(first, s[|s| - 1])} :: first <= l && FirstVisit(first, s[|s| - 1])
  {
    var x := s[|s| - 1];
    assert s[|s|..] == [] && s[|s| - 1..] == [x];
    assert Elems(s[|s| - 1..]) == {} + {x};
    ReachFromAdd({}, x);
    assert PoppedUpTo(s, l, |s| - 1);
    var c :| 0 <= c <= |l| && Elems(l[..c]) == ReachFrom(Elems(s[|s| - 1..])) &&
      (x !in ReachFrom(Elems(s[|s|..])) ==> 0 < c && l[c - 1] == x);
    assert FirstVisit(l[..c], x);
  }

  /** Reference definition of `topological_sort`: the start nodes are visited
      from the back of `s` to its front, each on the output left by those
      after it. */
  ghost function PoppedAll<T(!new)>(s: seq<DagNode<T>>, le: Order<T>): seq<DagNode<T>>
    requires TotalOrder(le)
    decreases |s|
  {
    if s == [] then [] else Visited(s[0], PoppedAll(s[1..], le), le)
  }

  /** What the pops of `s[j..]` leave: a duplicate-free, predecessor-first
      output holding exactly what `s[j..]` reaches, with each popped start
      node's closure a prefix. */
  lemma {:induction false} PoppedAllSound<T(!new)>(s: seq<DagNode<T>>, j: nat, le: Order<T>)
    requires TotalOrder(le) && j <= |s|
    ensures NoDup(PoppedAll(s[j..], le)) && PredecessorsFirst(PoppedAll(s[j..], le))
    ensures Elems(PoppedAll(s[j..], le)) == ReachFrom(Elems(s[j..]))
    ensures PoppedFrom(s, PoppedAll(s[j..], le), j)
    decreases |s| - j
  {
    if j == |s| {
      assert s[j..] == [];
      var l := PoppedAll(s[j..], le);
      assert l == [] && l[..0] == [];
      assert PoppedUpTo(s, l, |s|);
    } else {
      PoppedAllSound(s, j + 1, le);
      var before := PoppedAll(s[j + 1..], le);
      assert s[j..][1..] == s[j + 1..];
      var l := PoppedAll(s[j..], le);
      VisitedSound(s[j], before, le);
      if s[j] !in Elems(before) {
        VisitedUnmarked(s[j], before, le);
      }
      ReachFromPop(s, j + 1);
      PopStep(s, before, l, j);
    }
  }

  /** Every state the driver loop reaches is a consistent visiting state. */
  lemma PoppedAllValid<T(!new)>(s: seq<DagNode<T>>, j: nat, le: Order<T>)
    requires TotalOrder(le) && j <= |s|
    ensures Valid(PoppedAll(s[j..], le), Elems(PoppedAll(s[j..], le)))
  {
    PoppedAllSound(s, j, le);
  }

  /** What popping all of `s` outputs: each reachable node once, predecessors
      first, the start nodes consumed from the back. */
  lemma SortDone<T(!new)>(s: seq<DagNode<T>>, le: Order<T>)
    requires TotalOrder(le)
    ensures Elems(PoppedAll(s, le)) == ReachFrom(Elems(s))
    ensures NoDup(PoppedAll(s, le)) && |PoppedAll(s, le)| == |ReachFrom(Elems(s))|
    ensures PredecessorsFirst(PoppedAll(s, le))
    ensures s != [] ==> exists first {:trigger FirstVisit(first, s[|s| - 1])} :: first <= PoppedAll(s, le) && FirstVisit(first, s[|s| - 1])
    ensures PoppedFrom(s, PoppedAll(s, le), 0)
  {
    assert s[0..] == s;
    PoppedAllSound(s, 0, le);
    var l := PoppedAll(s, le);
    if s != [] {
      FirstPopped(s, l);
    }
    NoDupCard(l);
  }

  /** `topological_sort`: pop starting nodes off the back of `s` until it is
      empty and visit each one. */
  method TopologicalSort<T(==,!new)>(s: seq<DagNode<T>>, le: Order<T>) returns (l: seq<DagNode<T>>)
    requires TotalOrder(le)
    ensures Elems(l) == ReachFrom(Elems(s))
    ensures NoDup(l) && |l| == |ReachFrom(Elems(s))|
    ensures PredecessorsFirst(l)
    ensures s != [] ==> exists first {:trigger FirstVisit(first, s[|s| - 1])} :: first <= l && FirstVisit(first, s[|s| - 1])
    ensures PoppedFrom(s, l, 0)
    ensures l == PoppedAll(s, le)
  {
    var stack := s;
    var marked: set<DagNode<T>> := {};
    l := [];
    assert s[|s|..] == [];
    while stack != []
      invariant stack == s[..|stack|]
      invariant l == PoppedAll(s[|stack|..], le) && marked == Elems(l)
      decreases |stack|
    {
      ghost var j := |stack| - 1;
      var n := stack[|stack| - 1];
      assert n == s[j];
      PoppedAllValid(s, j + 1, le);
      stack := stack[..|stack| - 1];
      l, marked := TopologicalSortVisit(n, l, marked, le);
      assert s[j..][1..] == s[j + 1..];
    }
    assert s[0..] == s;
    SortDone(s, le);
  }

  /** What a node with a single, predecessor-free predecessor reaches. */
  lemma ReachOfPair<T>(root: DagNode<T>, top: DagNode<T>)
    requires root.predecessors == {} && top.predecessors == {root}
    ensures ReachFrom({top}) == {top, root}
  {
    ReachUnfold(root);
    ReachFromAdd({}, root);
    ReachUnfold(top);
    ReachFromAdd({}, top);
  }

  /** A duplicate-free list of two nodes that puts predecessors first lists a
      node's predecessor before it. */
  lemma PairOrder<T>(l: seq<DagNode<T>>, root: DagNode<T>, top: DagNode<T>)
    requires Elems(l) == {top, root} && root != top && NoDup(l)
    requires PredecessorsFirst(l) && root in top.predecessors
    ensures l == [root, top]
  {
    NoDupCard(l);
    assert |l| == 2;
    assert l[0] in Elems(l) && l[1] in Elems(l);
    assert l[..0] == [];
    assert Elems(l[..0]) == {};
    assert l[0] != top;
  }

  /** What the sort promises, applied to a starting list whose only node
      depends on one predecessor-free root, fixes the output completely. */
  lemma SortedPair<T>(l: seq<DagNode<T>>, root: DagNode<T>, top: DagNode<T>, s: seq<DagNode<T>>)
    requires root.predecessors == {} && top.predecessors == {root} && Elems(s) == {top}
    requires Elems(l) == ReachFrom(Elems(s)) && NoDup(l) && PredecessorsFirst(l)
    ensures l == [root, top]
  {
    ReachOfPair(root, top);
    PairOrder(l, root, top);
  }

  /** Two separately built but structurally equal nodes that depend on the same
      root are one key of the mark set, so sorting both yields the root and
      then that node, once, whatever the payloads. */
  method EqualNodesScenario<T(==,!new)>(rootData: T, data: T, le: Order<T>) returns (l: seq<DagNode<T>>)
    requires TotalOrder(le)
    ensures l == [DagNode({}, rootData), DagNode({DagNode({}, rootData)}, data)]
  {
    var root := DagNode({}, rootData);
    var first := DagNode({root}, data);
    var second := DagNode({root}, data);
    l := TopologicalSort([first, second], le);
    SortedPair(l, root, first, [first, second]);
  }

  /** A `BTreeSet` of two nodes is iterated smaller first. */
  lemma AscendingPair<T(!new)>(a: DagNode<T>, b: DagNode<T>, le: Order<T>)
    requires TotalOrder(le) && a != b && le(a, b)
    ensures Ascending({a, b}, le) == [a, b]
  {
    var r := Ascending({a, b}, le);
    AscendingSorted({a, b}, le);
    assert r[0] in Elems(r) && r[1] in Elems(r);
    assert le(r[0], r[1]);
  }

  /** Visiting an unmarked node without predecessors appends just that node. */
  lemma VisitedLeaf<T(!new)>(x: DagNode<T>, l: seq<DagNode<T>>, le: Order<T>)
    requires TotalOrder(le) && x.predecessors == {} && x !in Elems(l)
    ensures Visited(x, l, le) == l + [x]
  {
    assert VisitedPrefix(x, 0, l, le) == l;
  }

  /** Visiting a node with two predecessor-free predecessors visits them
      in ascending order, then the node. */
  lemma ForkVisited<T(!new)>(a: DagNode<T>, b: DagNode<T>, n: DagNode<T>, le: Order<T>)
    requires TotalOrder(le) && a != b && le(a, b)
    requires a.predecessors == {} && b.predecessors == {} && n.predecessors == {a, b}
    ensures Visited(n, [], le) == [a, b, n]
  {
    AscendingPair(a, b, le);
    VisitedLeaf(a, [], le);
    assert VisitedPrefix(n, 1, [], le) == [a];
    VisitedLeaf(b, [a], le);
    assert VisitedPrefix(n, 2, [], le) == [a, b];
  }

  /** Sorting a node with two distinct predecessor-free predecessors outputs
      them in ascending order, then the node. */
  method SortFork<T(==,!new)>(a: DagNode<T>, b: DagNode<T>, n: DagNode<T>, le: Order<T>) returns (l: seq<DagNode<T>>)
    requires TotalOrder(le) && a != b && le(a, b)
    requires a.predecessors == {} && b.predecessors == {} && n.predecessors == {a, b}
    ensures l == [a, b, n]
  {
    l := TopologicalSort([n], le);
    assert [n][1..] == [];
    assert PoppedAll([n], le) == Visited(n, [], le);
    ForkVisited(a, b, n, le);
  }
}
