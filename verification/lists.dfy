/** Array-list idioms shared by the heuristics: duplicate-free lists and
    Java's removal by moving the last entry into the freed slot. */
module Lists {
  /** No value occurs twice. */
  ghost predicate Distinct(s: seq<int>) {
    forall i, j :: 0 <= i < j < |s| ==> s[i] != s[j]
  }

  /** A duplicate-free list has as many members as entries. */
  lemma {:induction false} DistinctCard(s: seq<int>)
    requires Distinct(s)
    ensures |set x | x in s| == |s|
  {
    if |s| > 0 {
      var t := s[..|s| - 1];
      assert Distinct(t);
      DistinctCard(t);
      assert (set x | x in s) == (set x | x in t) + {s[|s| - 1]};
      assert s[|s| - 1] !in t;
    }
  }

  /** Java's removal a[idx] = a[--size]: the last entry takes the place
      of the removed one. */
  function RemoveSwap(nb: seq<int>, idx: int): (r: seq<int>)
    requires 0 <= idx < |nb|
    ensures |r| == |nb| - 1
  {
    nb[idx := nb[|nb| - 1]][..|nb| - 1]
  }

  /** Removal by swap drops exactly the entry at idx. */
  lemma RemoveSwapMembers(nb: seq<int>, idx: int)
    requires Distinct(nb) && 0 <= idx < |nb|
    ensures Distinct(RemoveSwap(nb, idx))
    ensures forall x :: x in RemoveSwap(nb, idx) <==> x in nb && x != nb[idx]
  {
    var r := RemoveSwap(nb, idx);
    var last := |nb| - 1;
    forall i | 0 <= i < |r|
      ensures r[i] == if i == idx then nb[last] else nb[i]
    {
    }
    forall x | x in nb && x != nb[idx]
      ensures x in r
    {
      var j :| 0 <= j < |nb| && nb[j] == x;
      if j == last {
        assert r[idx] == x;
      } else {
        assert r[j] == x;
      }
    }
  }

  /** The numbers 0, .., dim - 1 in order. */
  function Iota(dim: nat): (r: seq<int>)
    ensures |r| == dim && forall i :: 0 <= i < dim ==> r[i] == i
  {
    seq(dim, i => i)
  }
}
