/** Counting distinct numbers. */
module Counting {

  ghost predicate Distinct(q: seq<int>) {
    forall i, j :: 0 <= i < j < |q| ==> q[i] != q[j]
  }

  lemma {:induction false} DistinctSize(q: seq<int>)
    requires Distinct(q)
    ensures |set p | p in q| == |q|
  {
    if q != [] {
      var rest := q[..|q| - 1];
      DistinctSize(rest);
      assert (set p | p in q) == (set p | p in rest) + {q[|q| - 1]};
    }
  }

  ghost function Below(n: nat): (r: set<int>)
    ensures |r| == n
    ensures forall i :: i in r <==> 0 <= i < n
  {
    if n == 0 then {} else Below(n - 1) + {n - 1}
  }

  /** Distinct numbers below `n` are fewer than `n`, unless every one is among them. */
  lemma FullOrFewer(q: seq<int>, n: nat)
    requires Distinct(q) && forall k :: 0 <= k < |q| ==> 0 <= q[k] < n
    ensures |q| <= n
    ensures |q| == n <==> forall i :: 0 <= i < n ==> i in q
  {
    DistinctSize(q);
    var used := set p | p in q;
    var all := Below(n);
    assert used <= all;
    assert all == used + (all - used);
    if forall i :: 0 <= i < n ==> i in q {
      assert used == all;
    } else {
      var i :| 0 <= i < n && i !in q;
      assert i in all - used;
    }
  }
}
