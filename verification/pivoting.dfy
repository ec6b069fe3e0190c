/** FCTPbas.DoMove: carrying out a basis exchange evaluated by compCostSav.
    The entering arc becomes basic and the leaving arc non-basic, the flow
    is shifted round the cycle, the parent pointers on the pivot stem are
    reversed and the subtree sizes are repaired in three passes.  Each loop
    of the Java method is a method here, tied to the reference definition
    it computes; DoMove puts them together and proves that the result is
    again a valid basic solution with the same balances and with the cost
    lowered by the evaluated saving. */
module Pivoting {
  import opened FctpData
  import opened Trees
  import opened Reroot
  import opened Solution
  import opened Basis
  import opened Evaluate
  import opened Cycle
  import opened Rewire

  // ---------------------------------------------------------------------------
  // The loops of DoMove
  // ---------------------------------------------------------------------------

  /** One of the two flow loops: walking from x up to apex, the arc between
      each node and its parent changes by delta, with the sign given by
      whether the parent is a supplier. */
  method PushLoop(inst: Instance, s: Sol, g: seq<int>, x: int, apex: int, delta: int) returns (h: seq<int>)
    requires ValidBasis(inst, s) && |g| == inst.m * inst.n
    requires 0 <= x < |s.treeP| && apex in Path(s.treeP, Rk(s), x)
    ensures h == PushPath(inst, s, g, x, apex, delta)
  {
    h := g;
    var i := x;
    while i != apex
      invariant 0 <= i < |s.treeP| && apex in Path(s.treeP, Rk(s), i) && |h| == |g|
      invariant PushPath(inst, s, h, i, apex, delta) == PushPath(inst, s, g, x, apex, delta)
      decreases Rk(s)[i]
    {
      UpStep(inst, s, i, apex);
      var pred := s.treeP[i];
      h := PushArc(inst, h, pred, i, delta);
      i := pred;
    }
  }

  /** One step of a flow loop: the arc between i and its parent pred gains
      delta when pred is a supplier and loses it otherwise. */
  method PushArc(inst: Instance, h: seq<int>, pred: int, i: int, delta: int) returns (h2: seq<int>)
    requires inst.m >= 1 && inst.n >= 1 && |h| == inst.m * inst.n && Adjacent(inst, i, pred)
    ensures h2 == Push(inst, h, pred, i, delta)
  {
    ArcBetweenEnds(inst, i, pred);
    if pred < inst.m {
      var arc := pred * inst.n + (i - inst.m);
      h2 := h[arc := h[arc] + delta];
    } else {
      var arc := i * inst.n + (pred - inst.m);
      h2 := h[arc := h[arc] - delta];
    }
  }

  /** The parent array after the stem loop has turned round the pointers of
      P[1], .., P[c]: each of them now points to its predecessor on P. */
  ghost function Reversed(p: seq<int>, P: seq<int>, c: nat): (np: seq<int>)
    requires c < |P|
    ensures |np| == |p|
    decreases c
  {
    if c == 0 then p
    else
      var prev := Reversed(p, P, c - 1);
      if 0 <= P[c] < |prev| then prev[P[c] := P[c - 1]] else prev
  }

  lemma {:induction false} ReversedAt(p: seq<int>, r: seq<nat>, u: int, v: int, k: int, c: int, t: int)
    requires Pivot(p, r, u, v, k) && 1 <= t <= c <= k
    ensures 0 <= Path(p, r, u)[t] < |p|
    ensures Reversed(p, Path(p, r, u), c)[Path(p, r, u)[t]] == Path(p, r, u)[t - 1]
    decreases c
  {
    StemFacts(p, r, u, v, k, t);
    StemFacts(p, r, u, v, k, c);
    if t < c {
      ReversedAt(p, r, u, v, k, c - 1, t);
      PathDistinct(p, r, u, t, c);
    }
  }

  lemma {:induction false} ReversedOff(p: seq<int>, P: seq<int>, c: int, x: int)
    requires 0 <= c < |P| && 0 <= x < |p|
    requires forall t :: 1 <= t <= c ==> P[t] != x
    ensures Reversed(p, P, c)[x] == p[x]
  {
    if c > 0 {
      ReversedOff(p, P, c - 1, x);
    }
  }

  /** A stem node not yet reached still has its old parent. */
  lemma ReversedAhead(p: seq<int>, r: seq<nat>, u: int, v: int, k: int, c: int, t0: int)
    requires Pivot(p, r, u, v, k) && 0 <= c < t0 <= k + 1 && t0 < |Path(p, r, u)|
    ensures 0 <= Path(p, r, u)[t0] < |p|
    ensures Reversed(p, Path(p, r, u), c)[Path(p, r, u)[t0]] == p[Path(p, r, u)[t0]]
  {
    StemFacts(p, r, u, v, k, t0 - 1);
    PathShape(p, r, u);
    forall t | 1 <= t <= c ensures Path(p, r, u)[t] != Path(p, r, u)[t0] {
      PathDistinct(p, r, u, t, t0);
    }
    ReversedOff(p, Path(p, r, u), c, Path(p, r, u)[t0]);
  }

  /** Reversing the whole stem and hanging u below v is the rewiring. */
  lemma ReversedRewired(p: seq<int>, r: seq<nat>, u: int, v: int, k: int)
    requires Pivot(p, r, u, v, k)
    ensures k < |Path(p, r, u)| && 0 <= u < |p|
    ensures Rewired(p, r, u, v, k, Reversed(p, Path(p, r, u), k)[u := v])
  {
    var P := Path(p, r, u);
    var np := Reversed(p, P, k)[u := v];
    PathShape(p, r, u);
    forall t | 1 <= t <= k
      ensures 0 <= P[t] < |np| && np[P[t]] == P[t - 1]
    {
      ReversedAt(p, r, u, v, k, k, t);
      PathDistinct(p, r, u, 0, t);
    }
    forall x | 0 <= x < |p| && x !in P[..k + 1]
      ensures np[x] == p[x]
    {
      forall t | 1 <= t <= k ensures P[t] != x {
        assert P[..k + 1][t] == P[t];
      }
      assert P[..k + 1][0] == u;
      ReversedOff(p, P, k, x);
    }
  }

  /** The stem loop stops exactly at q: P[c] is an end of the leaving arc
      only for c = k. */
  lemma StemStops(inst: Instance, p: seq<int>, r: seq<nat>, u: int, v: int, k: int, outArc: int, c: int)
    requires Bipartite(inst, p, r) && Pivot(p, r, u, v, k) && 0 <= outArc < inst.m * inst.n
    requires 0 < Path(p, r, u)[k] < |p| && EdgeArc(inst, p, Path(p, r, u)[k]) == outArc
    requires 0 <= c <= k
    ensures c + 1 < |Path(p, r, u)|
    ensures Path(p, r, u)[c] == Tail(inst, outArc) || Path(p, r, u)[c] == Head(inst, outArc) <==> c == k
  {
    var P := Path(p, r, u);
    StemFacts(p, r, u, v, k, k);
    ArcBetweenEnds(inst, P[k], P[k + 1]);
    if c < k {
      PathDistinct(p, r, u, c, k);
      PathDistinct(p, r, u, c, k + 1);
    }
  }

  /** The stem loop: walking from u towards the root until an end node of
      the leaving arc is reached, every parent pointer on the way is turned
      round; finally u is hung below v.  The result is the rewired tree and
      the last node reached is the leaving arc's lower end q = Path(u)[k]. */
  method ReverseStem(inst: Instance, p: seq<int>, ghost r: seq<nat>, u: int, v: int, outArc: int, ghost k: int)
    returns (np: seq<int>, q: int)
    requires Bipartite(inst, p, r) && Pivot(p, r, u, v, k) && 0 <= outArc < inst.m * inst.n
    requires 0 < Path(p, r, u)[k] < |p| && EdgeArc(inst, p, Path(p, r, u)[k]) == outArc
    ensures Rewired(p, r, u, v, k, np)
    ensures q == Path(p, r, u)[k]
  {
    ghost var P := Path(p, r, u);
    StemFacts(p, r, u, v, k, 0);
    var i := u;
    var j := p[i];
    np := p;
    ghost var c := 0;
    while i != Tail(inst, outArc) && i != Head(inst, outArc)
      invariant 0 <= c <= k && c + 1 < |P| && i == P[c] && j == P[c + 1]
      invariant np == Reversed(p, P, c)
      decreases k - c
    {
      StemStops(inst, p, r, u, v, k, outArc, c);
      ReversedAhead(p, r, u, v, k, c, c + 1);
      StemFacts(p, r, u, v, k, c + 1);
      var pred := j;
      j := np[pred];
      np := np[pred := i];
      i := pred;
      c := c + 1;
    }
    StemStops(inst, p, r, u, v, k, outArc, c);
    ReversedRewired(p, r, u, v, k);
    np := np[u := v];
    q := i;
  }

  /** The first and the last size pass: every node from j0 up to (not
      including) apex gains amount.  The loop follows the current parent
      array cur, which agrees with the tree p along that path. */
  method AddOnPath(cur: seq<int>, ghost p: seq<int>, ghost r: seq<nat>, tt: seq<int>, j0: int, apex: int, amount: int)
    returns (t2: seq<int>)
    requires Ranked(p, r) && |cur| == |p| && |tt| == |p| && 0 <= j0 < |p| && 0 <= apex < |p|
    requires apex in Path(p, r, j0)
    requires forall x :: 0 <= x < |p| && x in Path(p, r, j0) && x !in Path(p, r, apex) ==> cur[x] == p[x]
    ensures |t2| == |tt|
    ensures forall x :: 0 <= x < |p| ==>
      t2[x] == tt[x] + (if x in Path(p, r, j0) && x !in Path(p, r, apex) then amount else 0)
  {
    t2 := tt;
    var j := j0;
    while j != apex
      invariant 0 <= j < |p| && apex in Path(p, r, j) && j in Path(p, r, j0) && |t2| == |tt|
      invariant forall x :: 0 <= x < |p| ==>
        t2[x] == tt[x] + (if x in Path(p, r, j0) && x !in Path(p, r, j) then amount else 0)
      decreases r[j]
    {
      if j == 0 {
        PathOfRoot(p, r);
        assert false;
      }
      ParentOnPath(p, r, j);
      AncestorTrans(p, r, p[j], j, j0);
      if j in Path(p, r, apex) {
        AncestorAntisym(p, r, j, apex);
      }
      if j in Path(p, r, p[j]) {
        AncestorRank(p, r, j, p[j]);
      }
      t2 := t2[j := t2[j] + amount];
      j := cur[j];
    }
  }

  /** The last position at or before k where x occurs in P, or -1. */
  ghost function Position(P: seq<int>, k: int, x: int): (i: int)
    requires -1 <= k < |P|
    ensures -1 <= i <= k
    decreases k
  {
    if k < 0 then -1 else if P[k] == x then k else Position(P, k - 1, x)
  }

  /** P[0], .., P[k] are k + 1 distinct nodes of a tree with N nodes: each
      one occurs in P[..k + 1] at its own position only. */
  ghost predicate Chain(P: seq<int>, N: int, k: int) {
    && 0 <= k < |P|
    && (forall t :: 0 <= t <= k ==> 0 <= P[t] < N && Position(P, k, P[t]) == t)
  }

  lemma {:induction false} PathPosition(p: seq<int>, r: seq<nat>, u: int, c: int, t: int)
    requires Ranked(p, r) && 0 <= u < |p| && 0 <= t <= c < |Path(p, r, u)|
    ensures Position(Path(p, r, u), c, Path(p, r, u)[t]) == t
    decreases c
  {
    if t < c {
      PathDistinct(p, r, u, t, c);
      PathPosition(p, r, u, c - 1, t);
    }
  }

  /** The stem of a pivot is a chain. */
  lemma StemChain(p: seq<int>, r: seq<nat>, u: int, v: int, k: int)
    requires Pivot(p, r, u, v, k)
    ensures Chain(Path(p, r, u), |p|, k)
  {
    forall t | 0 <= t <= k
      ensures 0 <= Path(p, r, u)[t] < |p| && Position(Path(p, r, u), k, Path(p, r, u)[t]) == t
    {
      StemFacts(p, r, u, v, k, t);
      PathPosition(p, r, u, k, t);
    }
  }

  /** The sizes after the middle pass has treated P[k], .., P[c] (from q
      down towards u): q keeps its old size minus that of its new parent's
      old subtree, and each further node gains what its new child holds now
      and loses its new parent's old size. */
  ghost function StemPass(tt: seq<int>, P: seq<int>, k: int, c: int): (t2: seq<int>)
    requires 1 <= c <= k < |P|
    ensures |t2| == |tt|
    decreases k - c
  {
    if c == k then
      if 0 <= P[k] < |tt| && 0 <= P[k - 1] < |tt| then tt[P[k] := tt[P[k]] - tt[P[k - 1]]] else tt
    else
      var prev := StemPass(tt, P, k, c + 1);
      if 0 <= P[c] < |tt| && 0 <= P[c + 1] < |tt| && 0 <= P[c - 1] < |tt|
      then prev[P[c] := prev[P[c]] + prev[P[c + 1]] - prev[P[c - 1]]]
      else prev
  }

  lemma {:induction false} StemPassOff(tt: seq<int>, P: seq<int>, k: int, c: int, x: int)
    requires 1 <= c <= k < |P| && 0 <= x < |tt|
    requires forall t :: c <= t <= k ==> P[t] != x
    ensures StemPass(tt, P, k, c)[x] == tt[x]
    decreases k - c
  {
    if c < k {
      StemPassOff(tt, P, k, c + 1, x);
    }
  }

  lemma StemPassBefore(tt: seq<int>, P: seq<int>, k: int, c: int, t: int)
    requires Chain(P, |tt|, k) && 1 <= c <= k && 0 <= t < c
    ensures StemPass(tt, P, k, c)[P[t]] == tt[P[t]]
  {
    StemPassOff(tt, P, k, c, P[t]);
  }

  lemma {:induction false} StemPassAt(tt: seq<int>, P: seq<int>, k: int, c: int, t: int)
    requires Chain(P, |tt|, k) && 1 <= c <= t <= k
    ensures StemPass(tt, P, k, c)[P[t]] == tt[P[k]] - tt[P[t - 1]]
    decreases k - c
  {
    if c < k {
      StemPassAt(tt, P, k, c + 1, c + 1);
      StemPassBefore(tt, P, k, c + 1, c);
      StemPassBefore(tt, P, k, c + 1, c - 1);
      if t > c {
        StemPassAt(tt, P, k, c + 1, t);
      }
    }
  }

  /** What the middle pass leaves: u = P[0] holds the whole cut subtree
      (the old size of q = P[k]), every other stem node the part of it that
      is not below its old child on the stem, and nodes off the stem keep
      their sizes. */
  ghost predicate StemSized(P: seq<int>, k: int, tt: seq<int>, t2: seq<int>)
    requires Chain(P, |tt|, k)
  {
    && |t2| == |tt|
    && (forall t {:trigger t2[P[t]]} :: 0 <= t <= k ==>
          t2[P[t]] == if t == 0 then tt[P[k]] else tt[P[k]] - tt[P[t - 1]])
    && (forall x :: 0 <= x < |tt| && x !in P[..k + 1] ==> t2[x] == tt[x])
  }

  /** The pass over a stem of more than one node ends in StemSized. */
  lemma StemPassDone(tt: seq<int>, P: seq<int>, k: int)
    requires Chain(P, |tt|, k) && k >= 1
    ensures var S := StemPass(tt, P, k, 1);
      StemSized(P, k, tt, S[P[0] := S[P[0]] + S[P[1]]])
  {
    var S := StemPass(tt, P, k, 1);
    var t2 := S[P[0] := S[P[0]] + S[P[1]]];
    StemPassBefore(tt, P, k, 1, 0);
    StemPassAt(tt, P, k, 1, 1);
    assert t2[P[0]] == tt[P[k]];
    forall t {:trigger t2[P[t]]} | 0 <= t <= k
      ensures t2[P[t]] == if t == 0 then tt[P[k]] else tt[P[k]] - tt[P[t - 1]]
    {
      if t > 0 {
        assert Position(P, k, P[t]) == t;
        assert P[t] != P[0];
        StemPassAt(tt, P, k, 1, t);
      }
    }
    forall x | 0 <= x < |tt| && x !in P[..k + 1]
      ensures t2[x] == tt[x]
    {
      forall t | 1 <= t <= k ensures P[t] != x {
        assert P[..k + 1][t] == P[t];
      }
      assert P[..k + 1][0] == P[0];
      StemPassOff(tt, P, k, 1, x);
    }
  }

  /** A stem of one node is left alone. */
  lemma StemSingle(tt: seq<int>, P: seq<int>, k: int)
    requires Chain(P, |tt|, k) && P[k] == P[0]
    ensures StemSized(P, k, tt, tt)
  {
    assert Position(P, k, P[k]) == k;
  }

  /** The middle size pass, over the stem from q = P[k] down to u = P[0] in
      the rewired tree np, where each P[c] hangs below P[c - 1]. */
  method StemSizes(np: seq<int>, ghost P: seq<int>, ghost k: int, tt: seq<int>, q: int, u: int)
    returns (t2: seq<int>)
    requires Chain(P, |tt|, k) && |np| == |tt| && P[0] == u && P[k] == q
    requires forall c {:trigger np[P[c]]} :: 1 <= c <= k ==> np[P[c]] == P[c - 1]
    ensures StemSized(P, k, tt, t2)
  {
    if q != u {
      var t1, i := StemWalk(np, P, k, tt, q, u);
      StemPassDone(tt, P, k);
      t2 := t1[u := t1[u] + t1[i]];
    } else {
      t2 := tt;
      StemSingle(tt, P, k);
    }
  }

  /** The walk of the middle pass from q down to u's child on the stem. */
  method StemWalk(np: seq<int>, ghost P: seq<int>, ghost k: int, tt: seq<int>, q: int, u: int)
    returns (t2: seq<int>, i: int)
    requires Chain(P, |tt|, k) && |np| == |tt| && P[0] == u && P[k] == q && q != u
    requires forall c {:trigger np[P[c]]} :: 1 <= c <= k ==> np[P[c]] == P[c - 1]
    ensures 1 <= k && i == P[1] && t2 == StemPass(tt, P, k, 1)
  {
    i := q;
    var j := np[i];
    t2 := tt[i := tt[i] - tt[j]];
    ghost var c := k - 1;
    while j != u
      invariant 0 <= c < k && j == P[c] && i == P[c + 1]
      invariant t2 == StemPass(tt, P, k, c + 1)
      decreases c
    {
      var pred := np[j];
      t2 := t2[j := t2[j] + t2[i] - t2[pred]];
      i := j;
      j := pred;
      c := c - 1;
    }
  }
}
