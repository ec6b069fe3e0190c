/** The random kick of FCTPls and its random permutation helper.  The random
    number generator becomes an explicit input: rand(t) is the t-th raw draw,
    and Java's nextInt(b) on that draw is rand(t) % b. */
module Kick {
  import opened FctpData
  import opened Solution
  import opened Basis
  import opened Evaluate
  import opened MoveEngine
  import opened Lists

  /** The arcs that are not BASIC. */
  ghost function NonBasics(inst: Instance, st: seq<Status>): set<int>
    requires |st| == inst.m * inst.n
  {
    set a | 0 <= a < inst.m * inst.n && st[a] != Basic
  }

  /** The number of exchanges of a kick: the given number if non-zero;
      otherwise 3, or a draw between 5 and a fifth of the m + n - 1 basic
      arcs when that fifth exceeds 5. */
  function KickCount(inst: Instance, numExchanges: int, r: nat): (k: int)
    requires inst.m >= 1 && inst.n >= 1
    ensures numExchanges != 0 ==> k == numExchanges
    ensures numExchanges == 0 && (inst.m + inst.n - 1) / 5 <= 5 ==> k == 3
    ensures numExchanges == 0 && (inst.m + inst.n - 1) / 5 > 5 ==> 5 <= k <= (inst.m + inst.n - 1) / 5
  {
    if numExchanges != 0 then numExchanges
    else
      var numBasic := inst.m + inst.n - 1;
      if numBasic / 5 > 5 then 5 + r % (numBasic / 5 - 4) else 3
  }

  /** The first loop of Kicksolution: the non-basic arcs in increasing order. */
  method ListNonBasic(inst: Instance, st: seq<Status>) returns (nb: seq<int>)
    requires |st| == inst.m * inst.n
    ensures Distinct(nb)
    ensures forall i :: 0 <= i < |nb| ==> 0 <= nb[i] < inst.m * inst.n && st[nb[i]] != Basic
    ensures forall a :: 0 <= a < inst.m * inst.n && st[a] != Basic ==> a in nb
  {
    nb := [];
    var arc := 0;
    while arc < inst.m * inst.n
      invariant 0 <= arc <= inst.m * inst.n
      invariant forall i, j :: 0 <= i < j < |nb| ==> nb[i] < nb[j]
      invariant forall i :: 0 <= i < |nb| ==> 0 <= nb[i] < arc && st[nb[i]] != Basic
      invariant forall a :: 0 <= a < arc && st[a] != Basic ==> a in nb
    {
      if st[arc] != Basic {
        nb := nb + [arc];
      }
      arc := arc + 1;
    }
  }

  /** What the exchange loop of a kick keeps: a valid basis with the same
      node balances and cost gap, a duplicate-free list nb of arcs that were
      and still are non-basic, the arcs entered so far (each one non-basic
      at the start and no longer listed), and every arc non-basic at the
      start either still listed or entered. */
  ghost predicate KickLoop(inst: Instance, s0: Sol, s: Sol, nb: seq<int>, entered: seq<int>)
  {
    && ValidBasis(inst, s0) && ValidBasis(inst, s)
    && Distinct(nb) && Distinct(entered)
    && (forall i :: 0 <= i < |nb| ==>
          0 <= nb[i] < inst.m * inst.n && s0.arcStat[nb[i]] != Basic && s.arcStat[nb[i]] != Basic)
    && (forall i :: 0 <= i < |entered| ==>
          0 <= entered[i] < inst.m * inst.n && s0.arcStat[entered[i]] != Basic && entered[i] !in nb)
    && (forall a :: 0 <= a < inst.m * inst.n && s0.arcStat[a] != Basic ==> a in nb || a in entered)
    && (forall a :: 0 <= a < inst.m * inst.n && s0.arcStat[a] != Basic && a !in entered ==> s.arcStat[a] != Basic)
    && s.totalCost - Cost(inst, s.flow) == s0.totalCost - Cost(inst, s0.flow)
    && (forall v :: 0 <= v < inst.m + inst.n ==> Balance(inst, s.flow, v) == Balance(inst, s0.flow, v))
  }

  /** One exchange of a kick: the listed arc at idx enters the basis
      whatever its saving, and leaves the list. */
  method KickStep(inst: Instance, s0: Sol, e: Engine, nb: seq<int>, entered: seq<int>, idx: int)
    returns (e2: Engine, nb2: seq<int>, entered2: seq<int>)
    requires KickLoop(inst, s0, e.sol, nb, entered) && 0 <= idx < |nb|
    ensures KickLoop(inst, s0, e2.sol, nb2, entered2)
    ensures nb2 == RemoveSwap(nb, idx) && entered2 == entered + [nb[idx]]
  {
    var arc := nb[idx];
    var saving;
    e2, saving := ExecuteMove(inst, e, arc);
    nb2 := RemoveSwap(nb, idx);
    entered2 := entered + [arc];
    KickKeeps(inst, s0, e.sol, e2.sol, nb, entered, idx);
  }

  lemma KickKeeps(inst: Instance, s0: Sol, s: Sol, s2: Sol, nb: seq<int>, entered: seq<int>, idx: int)
    requires KickLoop(inst, s0, s, nb, entered) && 0 <= idx < |nb| && ValidBasis(inst, s2)
    requires var arc := nb[idx]; var out := CompCostSav(inst, s, arc).outArc;
      && 0 <= out < inst.m * inst.n && s.arcStat[out] == Basic
      && s2.arcStat == s.arcStat[arc := Basic][out := NonBas0]
    requires s2.totalCost - Cost(inst, s2.flow) == s.totalCost - Cost(inst, s.flow)
    requires forall v :: 0 <= v < inst.m + inst.n ==> Balance(inst, s2.flow, v) == Balance(inst, s.flow, v)
    ensures KickLoop(inst, s0, s2, RemoveSwap(nb, idx), entered + [nb[idx]])
  {
    var arc, out := nb[idx], CompCostSav(inst, s, nb[idx]).outArc;
    var nb2, en2 := RemoveSwap(nb, idx), entered + [arc];
    RemoveSwapMembers(nb, idx);
    forall i | 0 <= i < |nb2|
      ensures 0 <= nb2[i] < inst.m * inst.n && s0.arcStat[nb2[i]] != Basic && s2.arcStat[nb2[i]] != Basic
    {
      var x := nb2[i];
      assert x in nb && x != arc;
      var j :| 0 <= j < |nb| && nb[j] == x;
      assert s.arcStat[x] != Basic;
      assert x != out;
    }
    forall i, j | 0 <= i < j < |en2|
      ensures en2[i] != en2[j]
    {
      if j == |entered| {
        assert en2[i] == entered[i];
      }
    }
    forall i | 0 <= i < |en2|
      ensures 0 <= en2[i] < inst.m * inst.n && s0.arcStat[en2[i]] != Basic && en2[i] !in nb2
    {
      if i < |entered| {
        assert en2[i] == entered[i];
      }
    }
    forall a | 0 <= a < inst.m * inst.n && s0.arcStat[a] != Basic
      ensures a in nb2 || a in en2
    {
      if a !in nb2 && a != arc {
        assert a in entered;
      }
      if a == arc {
        assert en2[|entered|] == a;
      }
    }
    forall a | 0 <= a < inst.m * inst.n && s0.arcStat[a] != Basic && a !in en2
      ensures s2.arcStat[a] != Basic
    {
      assert a !in entered && a != arc;
      assert a in nb;
      assert s.arcStat[a] != Basic;
      assert a != out;
    }
  }

  /** Kicksolution: every exchange draws one arc of the list of arcs that
      were non-basic before the kick, brings it into the basis whatever its
      saving and removes it from the list.  When the list runs empty before
      the last exchange, Java's nextInt(0) throws; the kick then stops with
      ok false. */
  method Kick(inst: Instance, e: Engine, numExchanges: int, rand: nat -> nat)
    returns (e2: Engine, ok: bool, entered: seq<int>)
    requires ValidBasis(inst, e.sol)
    ensures ValidBasis(inst, e2.sol)
    ensures Distinct(entered)
    ensures forall i :: 0 <= i < |entered| ==> 0 <= entered[i] < inst.m * inst.n && e.sol.arcStat[entered[i]] != Basic
    ensures forall a :: 0 <= a < inst.m * inst.n && e.sol.arcStat[a] != Basic && a !in entered ==> e2.sol.arcStat[a] != Basic
    ensures e2.sol.totalCost - Cost(inst, e2.sol.flow) == e.sol.totalCost - Cost(inst, e.sol.flow)
    ensures forall v :: 0 <= v < inst.m + inst.n ==> Balance(inst, e2.sol.flow, v) == Balance(inst, e.sol.flow, v)
    ensures ok <==> KickCount(inst, numExchanges, rand(0)) <= |NonBasics(inst, e.sol.arcStat)|
    ensures ok ==> |entered| == if KickCount(inst, numExchanges, rand(0)) > 0 then KickCount(inst, numExchanges, rand(0)) else 0
    ensures !ok ==> forall a :: 0 <= a < inst.m * inst.n && e.sol.arcStat[a] != Basic ==> a in entered
  {
    var nb := ListNonBasic(inst, e.sol.arcStat);
    NonBasicsListed(inst, e.sol.arcStat, nb);
    ghost var total := |nb|;
    var k := KickCount(inst, numExchanges, rand(0));
    var first := if numExchanges == 0 && (inst.m + inst.n - 1) / 5 > 5 then 1 else 0;
    e2, ok, entered := e, true, [];
    var itr := 0;
    while itr < k
      invariant KickLoop(inst, e.sol, e2.sol, nb, entered)
      invariant 0 <= itr == |entered| && |nb| + itr == total
      invariant itr <= k || itr == 0
    {
      if |nb| == 0 {
        ok := false;
        KickExhausted(inst, e.sol, e2.sol, nb, entered);
        return;
      }
      var idx := rand(first + itr) % |nb|;
      e2, nb, entered := KickStep(inst, e.sol, e2, nb, entered, idx);
      itr := itr + 1;
    }
  }

  /** Once the list is empty every arc non-basic at the start has entered. */
  lemma KickExhausted(inst: Instance, s0: Sol, s: Sol, nb: seq<int>, entered: seq<int>)
    requires KickLoop(inst, s0, s, nb, entered) && |nb| == 0
    ensures forall a :: 0 <= a < inst.m * inst.n && s0.arcStat[a] != Basic ==> a in entered
  {
  }

  /** The list of the first loop holds each non-basic arc once, so its
      length is their number. */
  lemma NonBasicsListed(inst: Instance, st: seq<Status>, nb: seq<int>)
    requires |st| == inst.m * inst.n && Distinct(nb)
    requires forall i :: 0 <= i < |nb| ==> 0 <= nb[i] < inst.m * inst.n && st[nb[i]] != Basic
    requires forall a :: 0 <= a < inst.m * inst.n && st[a] != Basic ==> a in nb
    ensures |nb| == |NonBasics(inst, st)|
  {
    DistinctCard(nb);
    assert (set x | x in nb) == NonBasics(inst, st);
  }

  /** RandOrder: a Fisher-Yates shuffle of 0, .., dim - 1; draw t picks the
      position, among the first dim - t, that moves to position dim - 1 - t. */
  method RandOrder(dim: nat, rand: nat -> nat) returns (r: seq<int>)
    ensures |r| == dim && multiset(r) == multiset(Iota(dim))
  {
    r := Iota(dim);
    var d := dim;
    var t := 0;
    while d > 0
      invariant 0 <= d <= dim && |r| == dim && multiset(r) == multiset(Iota(dim))
    {
      var i := rand(t) % d;
      var ii := r[i];
      d := d - 1;
      r := r[i := r[d]][d := ii];
      t := t + 1;
    }
  }

  /** Each of 0, .., dim - 1 occurs exactly once in Iota(dim). */
  lemma {:induction false} IotaCount(dim: nat, x: int)
    ensures multiset(Iota(dim))[x] == if 0 <= x < dim then 1 else 0
  {
    if dim > 0 {
      IotaCount(dim - 1, x);
      assert Iota(dim) == Iota(dim - 1) + [dim - 1];
    }
  }

  /** A reordering of 0, .., dim - 1 lists each of these numbers exactly
      once and nothing else. */
  lemma PermutationMembers(dim: nat, r: seq<int>)
    requires multiset(r) == multiset(Iota(dim))
    ensures |r| == dim && Distinct(r)
    ensures forall x :: x in r <==> 0 <= x < dim
  {
    assert |r| == |multiset(r)| == |multiset(Iota(dim))| == dim;
    forall x
      ensures x in r <==> 0 <= x < dim
    {
      IotaCount(dim, x);
      assert x in r <==> x in multiset(r);
    }
    forall i, j | 0 <= i < j < |r|
      ensures r[i] != r[j]
    {
      IotaCount(dim, r[i]);
      RepeatCount(r, i, j);
    }
  }

  /** A value at two positions counts at least twice. */
  lemma RepeatCount(r: seq<int>, i: int, j: int)
    requires 0 <= i < j < |r|
    ensures r[i] == r[j] ==> multiset(r)[r[i]] >= 2
  {
    if r[i] == r[j] {
      assert r == r[..j] + [r[j]] + r[j + 1..];
      assert r[i] in r[..j];
    }
  }
}
