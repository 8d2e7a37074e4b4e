/** Facts about sequences shared by both topological-sort variants: the set of
    elements of a list, and lists in which no element appears twice. */
module Seqs {

  /** The elements of `s`, forgetting order and multiplicity. */
  function Elems<X>(s: seq<X>): set<X>
  {
    set x | x in s
  }

  /** No element occurs at two positions of `s`. */
  ghost predicate NoDup<X>(s: seq<X>)
  {
    forall i, j :: 0 <= i < j < |s| ==> s[i] != s[j]
  }

  /** A list without duplicates has exactly as many elements as its element set. */
  lemma {:induction false} NoDupCard<X>(s: seq<X>)
    requires NoDup(s)
    ensures |Elems(s)| == |s|
  {
    if s != [] {
      var init := s[..|s| - 1];
      assert NoDup(init);
      NoDupCard(init);
      assert s == init + [s[|s| - 1]];
      assert s[|s| - 1] !in Elems(init);
      assert Elems(s) == Elems(init) + {s[|s| - 1]};
    }
  }

  /** Appending an element absent from a duplicate-free list keeps it duplicate-free. */
  lemma NoDupAppend<X>(s: seq<X>, x: X)
    requires NoDup(s) && x !in Elems(s)
    ensures NoDup(s + [x]) && Elems(s + [x]) == Elems(s) + {x}
  {
  }

  /** Some prefix of `hi`, no shorter than `lo`, holds exactly the elements `reached`. */
  ghost predicate PrefixHolds<X>(lo: seq<X>, hi: seq<X>, reached: set<X>)
  {
    exists c :: |lo| <= c <= |hi| && Elems(hi[..c]) == reached
  }

  /** A prefix of `mid` is still a prefix once `mid` is extended. */
  lemma PrefixHoldsExtend<X>(lo: seq<X>, mid: seq<X>, hi: seq<X>, reached: set<X>)
    requires PrefixHolds(lo, mid, reached) && mid <= hi
    ensures PrefixHolds(lo, hi, reached)
  {
    var c :| |lo| <= c <= |mid| && Elems(mid[..c]) == reached;
    assert hi[..c] == mid[..c];
  }

  /** A prefix `mid` of `hi`, no shorter than `lo`, is one of the prefixes `PrefixHolds` means. */
  lemma PrefixHoldsAt<X>(lo: seq<X>, mid: seq<X>, hi: seq<X>)
    requires |lo| <= |mid| && mid <= hi
    ensures PrefixHolds(lo, hi, Elems(mid))
  {
    assert hi[..|mid|] == mid;
  }
}
