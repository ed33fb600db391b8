/** Cardinalities of finite sets. */
module FiniteSets {

  /** The first `n` numbers. */
  ghost function Below(n: nat): (s: set<nat>)
    ensures |s| == n && forall i: nat :: i in s <==> i < n
  {
    if n == 0 then {} else Below(n - 1) + {n - 1}
  }

  lemma {:induction false} SubsetCard<T>(part: set<T>, all: set<T>)
    requires part <= all
    ensures |part| <= |all|
  {
    if x :| x in part {
      SubsetCard(part - {x}, all - {x});
    }
  }

  lemma FullSubset<T>(part: set<T>, all: set<T>)
    requires part <= all && |part| >= |all|
    ensures part == all
  {
    if x :| x in all && x !in part {
      SubsetCard(part, all - {x});
    }
  }

  /** A list without repetitions is as long as the set of its elements. */
  lemma {:induction false} ListCard<T>(s: seq<T>, all: set<T>)
    requires forall j, k :: 0 <= j < k < |s| ==> s[j] != s[k]
    requires forall x :: x in s <==> x in all
    ensures |s| == |all|
  {
    if s == [] {
      assert all == {};
    } else {
      var last := s[|s| - 1];
      assert last in s;
      assert s == s[..|s| - 1] + [last];
      ListCard(s[..|s| - 1], all - {last});
    }
  }
}
