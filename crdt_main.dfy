/** The depth-first topological sort of src/main.rs.

    A `DAGNode` there borrows its predecessors in a `Vec`, which may list one
    node twice, and derives `Eq` and `Hash` field by field, so the `HashSet` of
    permanent marks treats structurally equal nodes as one. Here a node is an
    immutable inductive value whose predecessors are a `seq` in `Vec` order:
    Dafny's structural equality on it is the derived equality, and a node can
    only name predecessors that already exist, so the graph is acyclic by
    construction. */
module CrdtMain {
  import opened Seqs

  /** One operation of the causal history: the operations it depends on, in
      `Vec` order, and its payload. */
  datatype DagNode<T(==)> = DagNode(predecessors: seq<DagNode<T>>, currentData: T)

  /** The nodes reachable from `n` along predecessor edges, `n` included. */
  ghost function Reach<T>(n: DagNode<T>): set<DagNode<T>>
    decreases n
  {
    {n} + (set p, x | p in n.predecessors && x in Reach(p) :: x)
  }

  /** The nodes reachable from any of `roots`. */
  ghost function ReachFrom<T>(roots: set<DagNode<T>>): set<DagNode<T>>
  {
    set p, x | p in roots && x in Reach(p) :: x
  }

  /** A node reaches itself and whatever its predecessors reach. */
  lemma ReachUnfold<T>(n: DagNode<T>)
    ensures Reach(n) == {n} + ReachFrom(Elems(n.predecessors))
  {
  }

  /** The same unfolding, beside a set of nodes already output. */
  lemma ReachUnfoldWith<T>(a: set<DagNode<T>>, n: DagNode<T>)
    ensures a + ReachFrom(Elems(n.predecessors)) + {n} == a + Reach(n)
  {
    ReachUnfold(n);
  }

  /** The roots themselves are reachable from the roots. */
  lemma ReachFromIncludesRoots<T>(roots: set<DagNode<T>>)
    ensures roots <= ReachFrom(roots)
  {
    forall p | p in roots ensures p in ReachFrom(roots) {
      assert p in Reach(p);
    }
  }

  /** Adding a root adds exactly what that root reaches. */
  lemma ReachFromAdd<T>(roots: set<DagNode<T>>, n: DagNode<T>)
    ensures ReachFrom(roots + {n}) == ReachFrom(roots) + Reach(n)
  {
    assert n in Reach(n);
  }

  /** Reachability is transitive: whatever a reachable node reaches, `n` reaches. */
  lemma {:induction false} ReachTrans<T>(n: DagNode<T>, x: DagNode<T>)
    requires x in Reach(n)
    ensures Reach(x) <= Reach(n)
    decreases n
  {
    if x != n {
      var p :| p in n.predecessors && x in Reach(p);
      ReachTrans(p, x);
    }
  }

  /** Acyclicity: no node can be reached from its own predecessors. */
  lemma {:induction false} NotReachableFromOwnPredecessors<T>(n: DagNode<T>)
    ensures n !in ReachFrom(Elems(n.predecessors))
    decreases n
  {
    if n in ReachFrom(Elems(n.predecessors)) {
      var p :| p in n.predecessors && n in Reach(p);
      assert p != n;
      ReachUnfold(p);
      var q :| q in p.predecessors && n in Reach(q);
      ReachTrans(q, n);
      ReachUnfold(n);
      assert p in Reach(p);
      assert p in Reach(q);
      NotReachableFromOwnPredecessors(p);
      assert false;
    }
  }

  /** A set closed under reachability that holds a node holds all it reaches. */
  lemma ClosedHoldsReach<T>(a: set<DagNode<T>>, n: DagNode<T>)
    requires ReachFrom(a) <= a && n in a
    ensures Reach(n) <= a
  {
  }

  /** Adding a node whose predecessors are all in a closed set keeps it closed. */
  lemma ClosedAdd<T>(a: set<DagNode<T>>, n: DagNode<T>)
    requires ReachFrom(a) <= a && Elems(n.predecessors) <= a
    ensures ReachFrom(a + {n}) <= a + {n}
  {
    forall x | x in ReachFrom(a + {n}) ensures x in a + {n} {
      var p :| p in a + {n} && x in Reach(p);
      if p == n && x != n {
        var q :| q in n.predecessors && x in Reach(q);
        assert x in ReachFrom(a);
      } else if p != n {
        assert x in ReachFrom(a);
      }
    }
  }

  /** Every predecessor of an entry of `l` occurs strictly before it. */
  ghost predicate PredecessorsFirst<T>(l: seq<DagNode<T>>)
  {
    forall i :: 0 <= i < |l| ==> Elems(l[i].predecessors) <= Elems(l[..i])
  }

  /** Dropping the last entry keeps predecessors first, and that entry's
      predecessors all occur before it. */
  lemma PredecessorsFirstInit<T>(l: seq<DagNode<T>>)
    requires l != [] && PredecessorsFirst(l)
    ensures PredecessorsFirst(l[..|l| - 1])
    ensures Elems(l[|l| - 1].predecessors) <= Elems(l[..|l| - 1])
  {
    var init := l[..|l| - 1];
    forall i | 0 <= i < |init| ensures Elems(init[i].predecessors) <= Elems(init[..i]) {
      assert init[i] == l[i] && init[..i] == l[..i];
    }
  }

  /** A list in which predecessors come first holds everything its entries reach. */
  lemma {:induction false} PredecessorsFirstClosed<T>(l: seq<DagNode<T>>)
    requires PredecessorsFirst(l)
    ensures ReachFrom(Elems(l)) <= Elems(l)
  {
    if l != [] {
      var init, last := l[..|l| - 1], l[|l| - 1];
      PredecessorsFirstInit(l);
      PredecessorsFirstClosed(init);
      assert Elems(last.predecessors) <= Elems(init);
      assert l == init + [last];
      assert Elems(l) == Elems(init) + {last};
      ClosedAdd(Elems(init), last);
    }
  }

  /** The state `topological_sort` threads through its visits: the marks are
      exactly the nodes already output, none twice, predecessors first. */
  ghost predicate Valid<T>(l: seq<DagNode<T>>, marked: set<DagNode<T>>)
  {
    marked == Elems(l) && NoDup(l) && PredecessorsFirst(l)
  }

  /** Marking and appending a node whose predecessors are all output keeps the state valid. */
  lemma MarkAndAppend<T>(l: seq<DagNode<T>>, n: DagNode<T>)
    requires Valid(l, Elems(l)) && n !in Elems(l) && Elems(n.predecessors) <= Elems(l)
    ensures Valid(l + [n], Elems(l) + {n})
  {
    NoDupAppend(l, n);
    var l' := l + [n];
    forall i | 0 <= i < |l'| ensures Elems(l'[i].predecessors) <= Elems(l'[..i]) {
      if i < |l| {
        assert l'[i] == l[i] && l'[..i] == l[..i];
      } else {
        assert l'[..i] == l;
      }
    }
  }

  /** Visiting `ps[i]` after `ps[..i]` extends the output and adds what
      `ps[i]` reaches. */
  lemma VisitStep<T>(l: seq<DagNode<T>>, mid: seq<DagNode<T>>, next: seq<DagNode<T>>, ps: seq<DagNode<T>>, i: nat)
    requires i < |ps|
    requires l <= mid && Elems(mid) == Elems(l) + ReachFrom(Elems(ps[..i]))
    requires mid <= next && Elems(next) == Elems(mid) + Reach(ps[i])
    ensures l <= next && Elems(next) == Elems(l) + ReachFrom(Elems(ps[..i + 1]))
  {
    assert next[..|l|] == mid[..|l|];
    assert ps[..i + 1] == ps[..i] + [ps[i]];
    assert Elems(ps[..i + 1]) == Elems(ps[..i]) + {ps[i]};
    ReachFromAdd(Elems(ps[..i]), ps[i]);
  }

  /** Once the predecessors of an unmarked `n` are visited, marking and
      appending `n` keeps the state valid and completes what `n` reaches. */
  lemma FinishVisit<T>(l: seq<DagNode<T>>, l': seq<DagNode<T>>, n: DagNode<T>)
    requires Valid(l', Elems(l')) && n !in Elems(l)
    requires Elems(l') == Elems(l) + ReachFrom(Elems(n.predecessors))
    ensures Valid(l' + [n], Elems(l') + {n})
    ensures Elems(l' + [n]) == Elems(l) + Reach(n)
  {
    NotReachableFromOwnPredecessors(n);
    ReachFromIncludesRoots(Elems(n.predecessors));
    MarkAndAppend(l', n);
    ReachUnfoldWith(Elems(l), n);
  }

  /** After visiting each prefix `ps[..i]` of the predecessor list in turn, a
      prefix of the output held exactly what that prefix of `ps` reaches. */
  ghost predicate VisitedInOrder<T>(l: seq<DagNode<T>>, l': seq<DagNode<T>>, ps: seq<DagNode<T>>)
  {
    forall i :: 0 <= i <= |ps| ==> PrefixHolds(l, l', Elems(l) + ReachFrom(Elems(ps[..i])))
  }

  /** Appending `n` after all predecessors keeps the visited stages. */
  lemma VisitedInOrderFinish<T>(l: seq<DagNode<T>>, mid: seq<DagNode<T>>, ps: seq<DagNode<T>>, n: DagNode<T>)
    requires l <= mid
    requires forall k :: 0 <= k <= |ps| ==> PrefixHolds(l, mid, Elems(l) + ReachFrom(Elems(ps[..k])))
    ensures VisitedInOrder(l, mid + [n], ps)
  {
    forall k | 0 <= k <= |ps|
      ensures PrefixHolds(l, mid + [n], Elems(l) + ReachFrom(Elems(ps[..k])))
    {
      PrefixHoldsExtend(l, mid, mid + [n], Elems(l) + ReachFrom(Elems(ps[..k])));
    }
  }

  /** Reference definition of a visit: the output `topological_sort_visit`
      leaves when it starts on `n` with output `l` and marks `Elems(l)`. A
      marked node adds nothing; otherwise its predecessors are visited one
      after another in `Vec` order, and then `n` is appended. */
  ghost function Visited<T>(n: DagNode<T>, l: seq<DagNode<T>>): seq<DagNode<T>>
    decreases n, |n.predecessors| + 1
  {
    if n in Elems(l) then l else VisitedPrefix(n, |n.predecessors|, l) + [n]
  }

  /** The output after visiting `n.predecessors[..i]` in turn, starting from `l`. */
  ghost function VisitedPrefix<T>(n: DagNode<T>, i: nat, l: seq<DagNode<T>>): seq<DagNode<T>>
    requires i <= |n.predecessors|
    decreases n, i
  {
    if i == 0 then l else Visited(n.predecessors[i - 1], VisitedPrefix(n, i - 1, l))
  }

  /** Visiting the first `i` predecessors of `n`, in `Vec` order, from a
      consistent output keeps it duplicate-free and predecessor-first, only
      extends it and adds exactly what those predecessors reach. */
  lemma {:induction false} VisitedPrefixSound<T>(n: DagNode<T>, i: nat, l: seq<DagNode<T>>)
    requires i <= |n.predecessors| && NoDup(l) && PredecessorsFirst(l)
    ensures NoDup(VisitedPrefix(n, i, l)) && PredecessorsFirst(VisitedPrefix(n, i, l))
    ensures l <= VisitedPrefix(n, i, l)
    ensures Elems(VisitedPrefix(n, i, l)) == Elems(l) + ReachFrom(Elems(n.predecessors[..i]))
    decreases n, i, 1
  {
    if i == 0 {
      assert Elems(n.predecessors[..0]) == {};
    } else {
      VisitedPrefixSound(n, i - 1, l);
      VisitedPrefixSoundStep(n, i, l);
    }
  }

  /** Visiting predecessor `i - 1` after the ones before it carries the facts
      about the output over to the first `i` predecessors. */
  lemma {:induction false} VisitedPrefixSoundStep<T>(n: DagNode<T>, i: nat, l: seq<DagNode<T>>)
    requires 0 < i <= |n.predecessors|
    requires NoDup(VisitedPrefix(n, i - 1, l)) && PredecessorsFirst(VisitedPrefix(n, i - 1, l))
    requires l <= VisitedPrefix(n, i - 1, l)
    requires Elems(VisitedPrefix(n, i - 1, l)) == Elems(l) + ReachFrom(Elems(n.predecessors[..i - 1]))
    ensures NoDup(VisitedPrefix(n, i, l)) && PredecessorsFirst(VisitedPrefix(n, i, l))
    ensures l <= VisitedPrefix(n, i, l)
    ensures Elems(VisitedPrefix(n, i, l)) == Elems(l) + ReachFrom(Elems(n.predecessors[..i]))
    decreases n, i, 0
  {
    VisitedPrefixNext(n, i - 1, l);
    VisitedSound(n.predecessors[i - 1], VisitedPrefix(n, i - 1, l));
    VisitStep(l, VisitedPrefix(n, i - 1, l), VisitedPrefix(n, i, l), n.predecessors, i - 1);
  }

  /** A visit from a consistent output keeps it duplicate-free and
      predecessor-first, only extends it and adds exactly what `n` reaches;
      a marked `n` changes nothing. */
  lemma {:induction false} VisitedSound<T>(n: DagNode<T>, l: seq<DagNode<T>>)
    requires NoDup(l) && PredecessorsFirst(l)
    ensures NoDup(Visited(n, l)) && PredecessorsFirst(Visited(n, l))
    ensures l <= Visited(n, l)
    ensures Elems(Visited(n, l)) == Elems(l) + Reach(n)
    ensures n in Elems(l) ==> Visited(n, l) == l
    decreases n, |n.predecessors| + 1
  {
    if n in Elems(l) {
      PredecessorsFirstClosed(l);
      ClosedHoldsReach(Elems(l), n);
    } else {
      VisitedPrefixSound(n, |n.predecessors|, l);
      VisitedSoundFinish(n, l);
    }
  }

  /** Appending an unmarked `n` after all its predecessors completes the visit. */
  lemma VisitedSoundFinish<T>(n: DagNode<T>, l: seq<DagNode<T>>)
    requires n !in Elems(l)
    requires NoDup(VisitedPrefix(n, |n.predecessors|, l)) && PredecessorsFirst(VisitedPrefix(n, |n.predecessors|, l))
    requires l <= VisitedPrefix(n, |n.predecessors|, l)
    requires Elems(VisitedPrefix(n, |n.predecessors|, l)) ==
      Elems(l) + ReachFrom(Elems(n.predecessors[..|n.predecessors|]))
    ensures NoDup(Visited(n, l)) && PredecessorsFirst(Visited(n, l))
    ensures l <= Visited(n, l)
    ensures Elems(Visited(n, l)) == Elems(l) + Reach(n)
  {
    assert n.predecessors[..|n.predecessors|] == n.predecessors;
    FinishVisit(l, VisitedPrefix(n, |n.predecessors|, l), n);
    assert Visited(n, l) == VisitedPrefix(n, |n.predecessors|, l) + [n];
  }

  /** Visiting the first `i` predecessors in `Vec` order passes, for each `k <= i`,
      through a prefix holding exactly what the first `k` of them reach. */
  lemma VisitedPrefixInOrder<T>(n: DagNode<T>, i: nat, l: seq<DagNode<T>>)
    requires i <= |n.predecessors| && NoDup(l) && PredecessorsFirst(l)
    ensures forall k :: 0 <= k <= i ==>
      PrefixHolds(l, VisitedPrefix(n, i, l), Elems(l) + ReachFrom(Elems(n.predecessors[..k])))
  {
    forall k | 0 <= k <= i
      ensures PrefixHolds(l, VisitedPrefix(n, i, l), Elems(l) + ReachFrom(Elems(n.predecessors[..k])))
    {
      VisitedPrefixMono(n, k, i, l);
      VisitedPrefixSound(n, k, l);
      PrefixHoldsAt(l, VisitedPrefix(n, k, l), VisitedPrefix(n, i, l));
    }
  }

  /** Visiting more predecessors only extends the output. */
  lemma {:induction false} VisitedPrefixMono<T>(n: DagNode<T>, k: nat, i: nat, l: seq<DagNode<T>>)
    requires k <= i <= |n.predecessors| && NoDup(l) && PredecessorsFirst(l)
    ensures VisitedPrefix(n, k, l) <= VisitedPrefix(n, i, l)
  {
    if k < i {
      VisitedPrefixMono(n, k, i - 1, l);
      VisitedPrefixGrows(n, i, l);
    }
  }

  /** Visiting one more predecessor only extends the output. */
  lemma VisitedPrefixGrows<T>(n: DagNode<T>, i: nat, l: seq<DagNode<T>>)
    requires 0 < i <= |n.predecessors| && NoDup(l) && PredecessorsFirst(l)
    ensures VisitedPrefix(n, i - 1, l) <= VisitedPrefix(n, i, l)
  {
    VisitedPrefixSound(n, i - 1, l);
    VisitedSound(n.predecessors[i - 1], VisitedPrefix(n, i - 1, l));
    assert VisitedPrefix(n, i, l) == Visited(n.predecessors[i - 1], VisitedPrefix(n, i - 1, l));
  }

  /** Visiting an unmarked `n` ends the output with `n`, after the closures of
      its predecessors in `Vec` order. */
  lemma VisitedUnmarked<T>(n: DagNode<T>, l: seq<DagNode<T>>)
    requires NoDup(l) && PredecessorsFirst(l) && n !in Elems(l)
    ensures |Visited(n, l)| > |l| && Visited(n, l)[|Visited(n, l)| - 1] == n
    ensures VisitedInOrder(l, Visited(n, l), n.predecessors)
  {
    VisitedPrefixSound(n, |n.predecessors|, l);
    VisitedPrefixInOrder(n, |n.predecessors|, l);
    VisitedUnmarkedFinish(n, l);
  }

  /** Appending `n` keeps the prefixes its predecessors' visits passed through. */
  lemma VisitedUnmarkedFinish<T>(n: DagNode<T>, l: seq<DagNode<T>>)
    requires n !in Elems(l) && l <= VisitedPrefix(n, |n.predecessors|, l)
    requires forall k :: 0 <= k <= |n.predecessors| ==>
      PrefixHolds(l, VisitedPrefix(n, |n.predecessors|, l), Elems(l) + ReachFrom(Elems(n.predecessors[..k])))
    ensures |Visited(n, l)| > |l| && Visited(n, l)[|Visited(n, l)| - 1] == n
    ensures VisitedInOrder(l, Visited(n, l), n.predecessors)
  {
    VisitedInOrderFinish(l, VisitedPrefix(n, |n.predecessors|, l), n.predecessors, n);
    assert Visited(n, l) == VisitedPrefix(n, |n.predecessors|, l) + [n];
  }

  /** `topological_sort_visit`: unless `n` is already marked, visit its
      predecessors in `Vec` order, then mark `n` and append it. */
  method TopologicalSortVisit<T(==)>(n: DagNode<T>, l: seq<DagNode<T>>, marked: set<DagNode<T>>)
    returns (l': seq<DagNode<T>>, marked': set<DagNode<T>>)
    requires Valid(l, marked)
    ensures Valid(l', marked')
    ensures l <= l'
    ensures Elems(l') == Elems(l) + Reach(n)
    ensures n in marked ==> l' == l && marked' == marked
    ensures n !in marked ==> |l'| > |l| && l'[|l'| - 1] == n
    ensures n !in marked ==> VisitedInOrder(l, l', n.predecessors)
    ensures l' == Visited(n, l)
    decreases n
  {
    if n in marked {
      VisitedSound(n, l);
      return l, marked;
    }
    var preds := n.predecessors;
    l', marked' := l, marked;
    for i := 0 to |preds|
      invariant l' == VisitedPrefix(n, i, l) && marked' == Elems(l')
    {
      VisitedPrefixSound(n, i, l);
      VisitedPrefixNext(n, i, l);
      l', marked' := TopologicalSortVisit(preds[i], l', marked');
    }
    VisitedUnfold(n, l);
    marked' := marked' + {n};
    l' := l' + [n];
    VisitedSound(n, l);
    VisitedUnmarked(n, l);
  }

  /** Visiting one more predecessor visits the next one in `Vec` order. */
  lemma VisitedPrefixNext<T>(n: DagNode<T>, i: nat, l: seq<DagNode<T>>)
    requires i < |n.predecessors|
    ensures VisitedPrefix(n, i + 1, l) == Visited(n.predecessors[i], VisitedPrefix(n, i, l))
  {
  }

  /** Visiting an unmarked node outputs its predecessors' visits, then the node. */
  lemma VisitedUnfold<T>(n: DagNode<T>, l: seq<DagNode<T>>)
    requires n !in Elems(l)
    ensures Visited(n, l) == VisitedPrefix(n, |n.predecessors|, l) + [n]
    ensures Elems(Visited(n, l)) == Elems(VisitedPrefix(n, |n.predecessors|, l)) + {n}
  {
  }

  /** Popping `s[j - 1]` adds what it reaches to what the popped suffix reaches. */
  lemma ReachFromPop<T>(s: seq<DagNode<T>>, j: nat)
    requires 0 < j <= |s|
    ensures ReachFrom(Elems(s[j - 1..])) == ReachFrom(Elems(s[j..])) + Reach(s[j - 1])
  {
    assert s[j - 1..] == [s[j - 1]] + s[j..];
    assert Elems(s[j - 1..]) == Elems(s[j..]) + {s[j - 1]};
    ReachFromAdd(Elems(s[j..]), s[j - 1]);
  }

  /** `first` is what visiting `n` from the empty state outputs: exactly the
      nodes `n` reaches, ending with `n` itself. */
  ghost predicate FirstVisit<T>(first: seq<DagNode<T>>, n: DagNode<T>)
  {
    first != [] && Elems(first) == Reach(n) && first[|first| - 1] == n
  }

  /** Once `s[j..]` has been popped and visited, a prefix of `l` holds exactly
      what those start nodes reach; when `s[j]` was not reached before its own
      visit, that prefix ends with `s[j]`. */
  ghost predicate PoppedUpTo<T>(s: seq<DagNode<T>>, l: seq<DagNode<T>>, j: nat)
  {
    j <= |s| &&
    exists c :: 0 <= c <= |l| && Elems(l[..c]) == ReachFrom(Elems(s[j..])) &&
      (j < |s| && s[j] !in ReachFrom(Elems(s[j + 1..])) ==> 0 < c && l[c - 1] == s[j])
  }

  /** `PoppedUpTo` holds for every start position from `j` on. */
  ghost predicate PoppedFrom<T>(s: seq<DagNode<T>>, l: seq<DagNode<T>>, j: nat)
  {
    forall k :: j <= k <= |s| ==> PoppedUpTo(s, l, k)
  }

  /** What was popped before is still a prefix once the output grows. */
  lemma PoppedUpToExtend<T>(s: seq<DagNode<T>>, mid: seq<DagNode<T>>, l: seq<DagNode<T>>, j: nat)
    requires PoppedUpTo(s, mid, j) && mid <= l
    ensures PoppedUpTo(s, l, j)
  {
    var c :| 0 <= c <= |mid| && Elems(mid[..c]) == ReachFrom(Elems(s[j..])) &&
      (j < |s| && s[j] !in ReachFrom(Elems(s[j + 1..])) ==> 0 < c && mid[c - 1] == s[j]);
    assert l[..c] == mid[..c];
  }

  /** The output right after visiting `s[j]` witnesses `PoppedUpTo` at `j`. */
  lemma PoppedUpToWhole<T>(s: seq<DagNode<T>>, l: seq<DagNode<T>>, j: nat)
    requires j < |s| && Elems(l) == ReachFrom(Elems(s[j..]))
    requires s[j] !in ReachFrom(Elems(s[j + 1..])) ==> 0 < |l| && l[|l| - 1] == s[j]
    ensures PoppedUpTo(s, l, j)
  {
    assert l[..|l|] == l;
  }

  /** Visiting the popped `s[j]` keeps every earlier `PoppedUpTo` and adds the one at `j`. */
  lemma PopStep<T>(s: seq<DagNode<T>>, before: seq<DagNode<T>>, l: seq<DagNode<T>>, j: nat)
    requires j < |s| && before <= l
    requires PoppedFrom(s, before, j + 1)
    requires Elems(before) == ReachFrom(Elems(s[j + 1..])) && Elems(l) == ReachFrom(Elems(s[j..]))
    requires s[j] !in Elems(before) ==> 0 < |l| && l[|l| - 1] == s[j]
    ensures PoppedFrom(s, l, j)
  {
    forall k | j < k <= |s|
      ensures PoppedUpTo(s, l, k)
    {
      PoppedUpToExtend(s, before, l, k);
    }
    PoppedUpToWhole(s, l, j);
  }

  /** The first start node popped, the last of `s`, is output together with
      all it reaches as a prefix ending in that node. */
  lemma FirstPopped<T>(s: seq<DagNode<T>>, l: seq<DagNode<T>>)
    requires s != [] && PoppedFrom(s, l, 0)
    ensures exists first {:trigger FirstVisit(first, s[|s| - 1])} :: first <= l && FirstVisit(first, s[|s| - 1])
  {
    var x := s[|s| - 1];
    assert s[|s|..] == [] && s[|s| - 1..] == [x];
    assert Elems(s[|s| - 1..]) == {} + {x};
    ReachFromAdd({}, x);
    assert PoppedUpTo(s, l, |s| - 1);
    var c :| 0 <= c <= |l| && Elems(l[..c]) == ReachFrom(Elems(s[|s| - 1..])) &&
      (x !in ReachFrom(Elems(s[|s|..])) ==> 0 < c && l[c - 1] == x);
    assert FirstVisit(l[..c], x);
  }

  /** Reference definition of `topological_sort`: the start nodes are visited
      from the back of `s` to its front, each on the output left by those
      after it. */
  ghost function PoppedAll<T>(s: seq<DagNode<T>>): seq<DagNode<T>>
    decreases |s|
  {
    if s == [] then [] else Visited(s[0], PoppedAll(s[1..]))
  }

  /** What the pops of `s[j..]` leave: a duplicate-free, predecessor-first
      output holding exactly what `s[j..]` reaches, with each popped start
      node's closure a prefix. */
  lemma {:induction false} PoppedAllSound<T>(s: seq<DagNode<T>>, j: nat)
    requires j <= |s|
    ensures NoDup(PoppedAll(s[j..])) && PredecessorsFirst(PoppedAll(s[j..]))
    ensures Elems(PoppedAll(s[j..])) == ReachFrom(Elems(s[j..]))
    ensures PoppedFrom(s, PoppedAll(s[j..]), j)
    decreases |s| - j
  {
    if j == |s| {
      assert s[j..] == [];
      var l := PoppedAll(s[j..]);
      assert l == [] && l[..0] == [];
      assert PoppedUpTo(s, l, |s|);
    } else {
      PoppedAllSound(s, j + 1);
      var before := PoppedAll(s[j + 1..]);
      assert s[j..][1..] == s[j + 1..];
      var l := PoppedAll(s[j..]);
      VisitedSound(s[j], before);
      if s[j] !in Elems(before) {
        VisitedUnmarked(s[j], before);
      }
      ReachFromPop(s, j + 1);
      PopStep(s, before, l, j);
    }
  }

  /** Every state the driver loop reaches is a consistent visiting state. */
  lemma PoppedAllValid<T>(s: seq<DagNode<T>>, j: nat)
    requires j <= |s|
    ensures Valid(PoppedAll(s[j..]), Elems(PoppedAll(s[j..])))
  {
    PoppedAllSound(s, j);
  }

  /** What popping all of `s` outputs: each reachable node once, predecessors
      first, the start nodes consumed from the back. */
  lemma SortDone<T>(s: seq<DagNode<T>>)
    ensures Elems(PoppedAll(s)) == ReachFrom(Elems(s))
    ensures NoDup(PoppedAll(s)) && |PoppedAll(s)| == |ReachFrom(Elems(s))|
    ensures PredecessorsFirst(PoppedAll(s))
    ensures s != [] ==> exists first {:trigger FirstVisit(first, s[|s| - 1])} :: first <= PoppedAll(s) && FirstVisit(first, s[|s| - 1])
    ensures PoppedFrom(s, PoppedAll(s), 0)
  {
    assert s[0..] == s;
    PoppedAllSound(s, 0);
    var l := PoppedAll(s);
    if s != [] {
      FirstPopped(s, l);
    }
    NoDupCard(l);
  }

  /** `topological_sort`: pop starting nodes off the back of `s` until it is
      empty and visit each one. */
  method TopologicalSort<T(==)>(s: seq<DagNode<T>>) returns (l: seq<DagNode<T>>)
    ensures Elems(l) == ReachFrom(Elems(s))
    ensures NoDup(l) && |l| == |ReachFrom(Elems(s))|
    ensures PredecessorsFirst(l)
    ensures s != [] ==> exists first {:trigger FirstVisit(first, s[|s| - 1])} :: first <= l && FirstVisit(first, s[|s| - 1])
    ensures PoppedFrom(s, l, 0)
    ensures l == PoppedAll(s)
  {
    var stack := s;
    var marked: set<DagNode<T>> := {};
    l := [];
    assert s[|s|..] == [];
    while stack != []
      invariant stack == s[..|stack|]
      invariant l == PoppedAll(s[|stack|..]) && marked == Elems(l)
      decreases |stack|
    {
      ghost var j := |stack| - 1;
      var n := stack[|stack| - 1];
      assert n == s[j];
      PoppedAllValid(s, j + 1);
      stack := stack[..|stack| - 1];
      l, marked := TopologicalSortVisit(n, l, marked);
      assert s[j..][1..] == s[j + 1..];
    }
    assert s[0..] == s;
    SortDone(s);
  }

  /** What a node whose predecessors are all one predecessor-free node reaches. */
  lemma ReachOfPair<T>(root: DagNode<T>, top: DagNode<T>)
    requires root.predecessors == [] && Elems(top.predecessors) == {root}
    ensures ReachFrom({top}) == {top, root}
  {
    ReachUnfold(root);
    ReachFromAdd({}, root);
    ReachUnfold(top);
    ReachFromAdd({}, top);
  }

  /** A duplicate-free list of two nodes that puts predecessors first lists a
      node's predecessor before it. */
  lemma PairOrder<T>(l: seq<DagNode<T>>, root: DagNode<T>, top: DagNode<T>)
    requires Elems(l) == {top, root} && root != top && NoDup(l)
    requires PredecessorsFirst(l) && root in top.predecessors
    ensures l == [root, top]
  {
    NoDupCard(l);
    assert |l| == 2;
    assert l[0] in Elems(l) && l[1] in Elems(l);
    assert l[..0] == [];
    assert Elems(l[..0]) == {};
    assert root in Elems(top.predecessors);
    assert l[0] != top;
  }

  /** Sorting from a node whose predecessors are all `root` outputs `root`
      and then that node, each once. */
  method SortPair<T(==)>(root: DagNode<T>, top: DagNode<T>) returns (l: seq<DagNode<T>>)
    requires root.predecessors == [] && top.predecessors != [] && Elems(top.predecessors) == {root}
    ensures l == [root, top]
  {
    l := TopologicalSort([top]);
    assert Elems([top]) == {top};
    ReachOfPair(root, top);
    PairOrder(l, root, top);
  }

  /** The run in `main`: `test2` (data 5) depends on `test1` (data 0), and
      sorting `[test2]` outputs `[test1, test2]`. */
  method MainScenario() returns (l: seq<DagNode<int>>)
    ensures l == [DagNode([], 0), DagNode([DagNode([], 0)], 5)]
  {
    var test1 := DagNode([], 0);
    var test2 := DagNode([test1], 5);
    l := SortPair(test1, test2);
  }

  /** A predecessor listed twice in the `Vec` is visited twice but output once. */
  method RepeatedPredecessorScenario() returns (l: seq<DagNode<int>>)
    ensures l == [DagNode([], 0), DagNode([DagNode([], 0), DagNode([], 0)], 5)]
  {
    var test1 := DagNode([], 0);
    var test2 := DagNode([test1, test1], 5);
    l := SortPair(test1, test2);
  }

  /** Visiting an unmarked node without predecessors appends just that node. */
  lemma VisitedLeaf<T>(x: DagNode<T>, l: seq<DagNode<T>>)
    requires x.predecessors == [] && x !in Elems(l)
    ensures Visited(x, l) == l + [x]
  {
    assert VisitedPrefix(x, 0, l) == l;
  }

  /** Visiting a node with two predecessor-free predecessors visits them
      in `Vec` order, then the node. */
  lemma ForkVisited<T>(a: DagNode<T>, b: DagNode<T>, n: DagNode<T>)
    requires a.predecessors == [] && b.predecessors == [] && a != b && n.predecessors == [a, b]
    ensures Visited(n, []) == [a, b, n]
  {
    VisitedLeaf(a, []);
    assert VisitedPrefix(n, 1, []) == [a];
    VisitedLeaf(b, [a]);
    assert VisitedPrefix(n, 2, []) == [a, b];
  }

  /** Sorting a node with two distinct predecessor-free predecessors outputs
      them in `Vec` order, then the node. */
  method SortFork<T(==)>(a: DagNode<T>, b: DagNode<T>, n: DagNode<T>) returns (l: seq<DagNode<T>>)
    requires a.predecessors == [] && b.predecessors == [] && a != b && n.predecessors == [a, b]
    ensures l == [a, b, n]
  {
    l := TopologicalSort([n]);
    assert [n][1..] == [];
    assert PoppedAll([n]) == Visited(n, []);
    ForkVisited(a, b, n);
  }

  /** `main`'s DAG with a second root (data 1) listed after `test1` among
      `test2`'s predecessors: the sort follows that `Vec` order. */
  method ForkScenario() returns (l: seq<DagNode<int>>)
    ensures l == [DagNode([], 0), DagNode([], 1), DagNode([DagNode([], 0), DagNode([], 1)], 5)]
  {
    var test1 := DagNode([], 0);
    var root := DagNode([], 1);
    var test2 := DagNode([test1, root], 5);
    l := SortFork(test1, root, test2);
  }
}
