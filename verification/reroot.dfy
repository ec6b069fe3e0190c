/** What a basis exchange does to the basis tree.  Node q = Path(u)[k] lies
    strictly below the meet of u and v; the tree edge (q, p[q]) leaves and
    the edge (u, v) enters.  The parent pointers on the stem u .. q are
    reversed and u is hung below v.  This module proves that the result is
    again a tree rooted at 0 and states every node's new subtree. */
module Reroot {
  import opened Trees

  /** The preconditions of a pivot on the tree (p, r): q = Path(u)[k] is not
      an ancestor of v, so the edge from q to its parent lies on the cycle
      closed by the new edge (u, v). */
  ghost predicate Pivot(p: seq<int>, r: seq<nat>, u: int, v: int, k: int) {
    && Stem(p, r, u, k) && 0 <= v < |p|
    && Path(p, r, u)[k] !in Path(p, r, v)
  }

  /** A stem of length k + 1 starting at u. */
  ghost predicate Stem(p: seq<int>, r: seq<nat>, u: int, k: int) {
    Ranked(p, r) && 0 <= u < |p| && 0 <= k < |Path(p, r, u)|
  }

  /** The stem u = P[0], .., P[k] = q, walked downwards from P[j]. */
  ghost function Down(P: seq<int>, j: int): seq<int>
    requires 0 <= j < |P|
  {
    if j == 0 then [P[0]] else [P[j]] + Down(P, j - 1)
  }

  lemma {:induction false} DownMem(P: seq<int>, j: int, x: int)
    requires 0 <= j < |P|
    ensures x in Down(P, j) <==> exists i :: 0 <= i <= j && P[i] == x
  {
    if j > 0 {
      DownMem(P, j - 1, x);
    }
  }

  /** np is p with the stem reversed and u hung below v. */
  ghost predicate Rewired(p: seq<int>, r: seq<nat>, u: int, v: int, k: int, np: seq<int>)
    requires Pivot(p, r, u, v, k)
  {
    var P := Path(p, r, u);
    && |np| == |p| && np[u] == v
    && (forall t :: 1 <= t <= k ==> 0 <= P[t] < |np| && np[P[t]] == P[t - 1])
    && (forall x :: 0 <= x < |p| && x !in P[..k + 1] ==> np[x] == p[x])
  }

  /** The subtree that is cut off by removing the leaving edge. */
  ghost function Cut(p: seq<int>, r: seq<nat>, u: int, v: int, k: int): set<int>
    requires Stem(p, r, u, k)
  {
    Sub(p, r, Path(p, r, u)[k])
  }

  /** The leaving node q is not the root, and the root is not in the cut subtree. */
  lemma QNotRoot(p: seq<int>, r: seq<nat>, u: int, v: int, k: int)
    requires Pivot(p, r, u, v, k)
    ensures PathShapeHolds(p, r, u)
    ensures Path(p, r, u)[k] != 0 && 0 <= Path(p, r, u)[k] < |p|
    ensures 0 !in Cut(p, r, u, v, k)
  {
    var P := Path(p, r, u);
    PathShape(p, r, u);
    PathShape(p, r, v);
    assert P[k] !in Path(p, r, v);
    assert 0 in Path(p, r, v);
    PathOfRoot(p, r);
  }

  /** Every stem node lies in the cut subtree. */
  lemma StemInCut(p: seq<int>, r: seq<nat>, u: int, v: int, k: int, t: int)
    requires Pivot(p, r, u, v, k) && 0 <= t <= k
    ensures PathShapeHolds(p, r, u)
    ensures Path(p, r, u)[t] in Cut(p, r, u, v, k)
  {
    var P := Path(p, r, u);
    PathSuffix(p, r, u, t);
    assert P[k] == P[t..][k - t];
  }

  /** v's path avoids the cut subtree. */
  lemma PathVOutsideCut(p: seq<int>, r: seq<nat>, u: int, v: int, k: int, y: int)
    requires Pivot(p, r, u, v, k) && y in Path(p, r, v)
    ensures y !in Cut(p, r, u, v, k)
  {
    var q := Path(p, r, u)[k];
    assert q !in Path(p, r, v);
    if y in Cut(p, r, u, v, k) {
      AncestorTrans(p, r, q, y, v);
    }
  }

  /** A node of the cut subtree that lies on u's path belongs to the stem. */
  lemma CutOnPathIsStem(p: seq<int>, r: seq<nat>, u: int, v: int, k: int, w: int)
    requires Stem(p, r, u, k)
    requires w in Cut(p, r, u, v, k) && w in Path(p, r, u)
    ensures IndexOf(Path(p, r, u), w) <= k
    ensures w in Path(p, r, u)[..k + 1]
  {
    var P := Path(p, r, u);
    var t := IndexOf(P, w);
    if t > k {
      assert P[k] in Path(p, r, w);
      LaterNotAncestor(p, r, u, k, t);
      assert false;
    }
    assert P[..k + 1][t] == w;
  }

  /** A node of u's path is not an ancestor of the nodes above it. */
  lemma LaterNotAncestor(p: seq<int>, r: seq<nat>, u: int, k: int, t: int)
    requires Ranked(p, r) && 0 <= u < |p| && 0 <= k < t < |Path(p, r, u)|
    ensures 0 <= Path(p, r, u)[t] < |p|
    ensures Path(p, r, u)[k] !in Path(p, r, Path(p, r, u)[t])
  {
    var P := Path(p, r, u);
    PathSuffix(p, r, u, t);
    if P[k] in P[t..] {
      var i := IndexOf(P[t..], P[k]);
      assert P[t + i] == P[k];
      PathDistinct(p, r, u, t + i, k);
    }
  }

  /** Everything before the meet on w's path lies in the cut subtree, when w does. */
  lemma CutPrefix(p: seq<int>, r: seq<nat>, u: int, v: int, k: int, w: int, j: int)
    requires Pivot(p, r, u, v, k)
    requires w in Cut(p, r, u, v, k)
    requires 0 <= j < MeetIdx(p, r, w, u)
    ensures Path(p, r, w)[j] in Cut(p, r, u, v, k)
    ensures Path(p, r, w)[j] !in Path(p, r, u)
  {
    var P := Path(p, r, u);
    var W := Path(p, r, w);
    var iq := IndexOf(W, P[k]);
    PathShape(p, r, w);
    PathShape(p, r, u);
    assert P[k] in P;
    assert j < iq;
    PathSuffix(p, r, w, j);
    assert P[k] == W[j..][iq - j];
  }

  /** The meet index of u with a node of the cut subtree is at most k. */
  lemma CutMeetBound(p: seq<int>, r: seq<nat>, u: int, v: int, k: int, w: int)
    requires Pivot(p, r, u, v, k)
    requires w in Cut(p, r, u, v, k)
    ensures MeetIdx(p, r, u, w) <= k
  {
    PathShape(p, r, u);
  }

  /** The new path of w after the pivot, stated without the new tree. */
  ghost function NewPath(p: seq<int>, r: seq<nat>, u: int, v: int, k: int, w: int): seq<int>
    requires Pivot(p, r, u, v, k) && 0 <= w < |p|
  {
    if w in Cut(p, r, u, v, k) then
      CutMeetBound(p, r, u, v, k, w);
      Path(p, r, w)[..MeetIdx(p, r, w, u)] + Down(Path(p, r, u), MeetIdx(p, r, u, w)) + Path(p, r, v)
    else
      Path(p, r, w)
  }

  /** Stem nodes: the meet with u is the node itself. */
  lemma StemMeet(p: seq<int>, r: seq<nat>, u: int, v: int, k: int, t: int)
    requires Pivot(p, r, u, v, k) && 0 <= t <= k
    ensures PathShapeHolds(p, r, u)
    ensures MeetIdx(p, r, Path(p, r, u)[t], u) == 0
    ensures MeetIdx(p, r, u, Path(p, r, u)[t]) == t
  {
    var P := Path(p, r, u);
    var w := P[t];
    PathSuffix(p, r, u, t);
    var W := Path(p, r, w);
    assert W == P[t..];
    assert W[0] == w;
    MeetIdxIs(p, r, w, u, 0);
    forall j | 0 <= j < t
      ensures P[j] !in W
    {
      if P[j] in W {
        var i := IndexOf(W, P[j]);
        assert W[i] == P[t + i];
        PathDistinct(p, r, u, t + i, j);
      }
    }
    MeetIdxIs(p, r, u, w, t);
  }

  /** One step of the new path: it starts at w and continues with the new parent. */
  lemma NewPathStep(p: seq<int>, r: seq<nat>, u: int, v: int, k: int, np: seq<int>, w: int)
    requires Pivot(p, r, u, v, k) && Rewired(p, r, u, v, k, np) && 0 <= w < |p|
    ensures w == 0 ==> NewPath(p, r, u, v, k, w) == [0] && np[0] == -1
    ensures w != 0 ==> 0 <= np[w] < |p|
    ensures w != 0 ==> NewPath(p, r, u, v, k, w) == [w] + NewPath(p, r, u, v, k, np[w])
  {
    var P := Path(p, r, u);
    QNotRoot(p, r, u, v, k);
    if w == 0 {
      PathOfRoot(p, r);
    } else if w in Cut(p, r, u, v, k) {
      if w in P {
        CutOnPathIsStem(p, r, u, v, k, w);
        StemStep(p, r, u, v, k, np, IndexOf(P, w));
      } else {
        NonStemStep(p, r, u, v, k, np, w);
      }
    } else {
      OutsideStep(p, r, u, v, k, np, w);
    }
  }

  lemma StemStep(p: seq<int>, r: seq<nat>, u: int, v: int, k: int, np: seq<int>, t: int)
    requires Pivot(p, r, u, v, k) && Rewired(p, r, u, v, k, np) && 0 <= t <= k
    ensures PathShapeHolds(p, r, u)
    ensures 0 <= np[Path(p, r, u)[t]] < |p|
    ensures NewPath(p, r, u, v, k, Path(p, r, u)[t])
         == [Path(p, r, u)[t]] + NewPath(p, r, u, v, k, np[Path(p, r, u)[t]])
  {
    var P := Path(p, r, u);
    StemNewPath(p, r, u, v, k, t);
    if t == 0 {
      PathVOutsideCut(p, r, u, v, k, v);
    } else {
      StemNewPath(p, r, u, v, k, t - 1);
      var w, w' := P[t], P[t - 1];
      var D, Pv := Down(P, t - 1), Path(p, r, v);
      assert np[w] == w';
      assert Down(P, t) == [w] + D;
      ConcatAssoc([w], D, Pv);
    }
  }

  /** The new path of a stem node walks down the stem and then up from v. */
  lemma StemNewPath(p: seq<int>, r: seq<nat>, u: int, v: int, k: int, t: int)
    requires Pivot(p, r, u, v, k) && 0 <= t <= k
    ensures PathShapeHolds(p, r, u)
    ensures NewPath(p, r, u, v, k, Path(p, r, u)[t]) == Down(Path(p, r, u), t) + Path(p, r, v)
  {
    var P := Path(p, r, u);
    StemInCut(p, r, u, v, k, t);
    var w := P[t];
    CutNewPath(p, r, u, v, k, w);
    StemMeet(p, r, u, v, k, t);
    var W := Path(p, r, w);
    var D := Down(P, t);
    assert W[..0] + D == D;
  }

  lemma OutsideStep(p: seq<int>, r: seq<nat>, u: int, v: int, k: int, np: seq<int>, w: int)
    requires Pivot(p, r, u, v, k) && Rewired(p, r, u, v, k, np) && 0 < w < |p|
    requires w !in Cut(p, r, u, v, k)
    ensures 0 <= np[w] < |p|
    ensures NewPath(p, r, u, v, k, w) == [w] + NewPath(p, r, u, v, k, np[w])
  {
    var P := Path(p, r, u);
    if w in P[..k + 1] {
      var t := IndexOf(P[..k + 1], w);
      StemInCut(p, r, u, v, k, t);
    }
    assert np[w] == p[w];
    ParentOnPath(p, r, w);
    if p[w] in Cut(p, r, u, v, k) {
      QNotRoot(p, r, u, v, k);
      AncestorTrans(p, r, P[k], p[w], w);
    }
  }

  lemma NonStemStep(p: seq<int>, r: seq<nat>, u: int, v: int, k: int, np: seq<int>, w: int)
    requires Pivot(p, r, u, v, k) && Rewired(p, r, u, v, k, np) && 0 < w < |p|
    requires w in Cut(p, r, u, v, k) && w !in Path(p, r, u)
    ensures 0 <= np[w] < |p|
    ensures NewPath(p, r, u, v, k, w) == [w] + NewPath(p, r, u, v, k, np[w])
  {
    var P := Path(p, r, u);
    assert w !in P[..k + 1];
    assert np[w] == p[w];
    var pw := p[w];
    NonStemMeet(p, r, u, v, k, w);
    var i' := MeetIdx(p, r, pw, u);
    var jz := MeetIdx(p, r, u, pw);
    CutNewPath(p, r, u, v, k, w);
    CutNewPath(p, r, u, v, k, pw);
    var W, PW := Path(p, r, w), Path(p, r, pw);
    PrefixCons(W, w, PW, i');
    ConcatAssoc4([w], PW[..i'], Down(P, jz), Path(p, r, v));
  }

  /** The parent of a non-stem node of the cut subtree is in it too, one step
      closer to u's path. */
  lemma NonStemMeet(p: seq<int>, r: seq<nat>, u: int, v: int, k: int, w: int)
    requires Pivot(p, r, u, v, k) && 0 < w < |p|
    requires w in Cut(p, r, u, v, k) && w !in Path(p, r, u)
    ensures 0 <= p[w] < |p| && p[w] in Cut(p, r, u, v, k)
    ensures Path(p, r, w) == [w] + Path(p, r, p[w])
    ensures MeetIdx(p, r, w, u) == 1 + MeetIdx(p, r, p[w], u)
    ensures MeetIdx(p, r, u, w) == MeetIdx(p, r, u, p[w])
  {
    var q := Path(p, r, u)[k];
    MeetStep(p, r, w, u);
    assert q in Path(p, r, w) && q != w;
  }

  /** The new path of a node in the cut subtree, unfolded. */
  lemma CutNewPath(p: seq<int>, r: seq<nat>, u: int, v: int, k: int, w: int)
    requires Pivot(p, r, u, v, k) && 0 <= w < |p| && w in Cut(p, r, u, v, k)
    ensures MeetIdx(p, r, u, w) <= k
    ensures NewPath(p, r, u, v, k, w)
         == Path(p, r, w)[..MeetIdx(p, r, w, u)] + Down(Path(p, r, u), MeetIdx(p, r, u, w)) + Path(p, r, v)
  {
    CutMeetBound(p, r, u, v, k, w);
  }

  /** The depth of every node in the new tree. */
  ghost function NewDepth(p: seq<int>, r: seq<nat>, u: int, v: int, k: int): seq<nat>
    requires Pivot(p, r, u, v, k)
  {
    seq(|p|, w requires 0 <= w < |p| =>
      PathShape(p, r, w);
      |NewPath(p, r, u, v, k, w)| - 1)
  }

  /** The rewired parent array is again a tree rooted at 0. */
  lemma NewRanked(p: seq<int>, r: seq<nat>, u: int, v: int, k: int, np: seq<int>)
    requires Pivot(p, r, u, v, k) && Rewired(p, r, u, v, k, np)
    ensures Ranked(np, NewDepth(p, r, u, v, k))
  {
    var d := NewDepth(p, r, u, v, k);
    NewPathStep(p, r, u, v, k, np, 0);
    forall w | 0 < w < |np|
      ensures 0 <= np[w] < |np| && d[np[w]] < d[w]
    {
      NewPathStep(p, r, u, v, k, np, w);
    }
  }

  /** In the new tree, the path of every node is NewPath. */
  lemma {:induction false} NewPathIsPath(p: seq<int>, r: seq<nat>, u: int, v: int, k: int, np: seq<int>, w: int)
    requires Pivot(p, r, u, v, k) && Rewired(p, r, u, v, k, np) && 0 <= w < |p|
    ensures Ranked(np, NewDepth(p, r, u, v, k))
    ensures Path(np, NewDepth(p, r, u, v, k), w) == NewPath(p, r, u, v, k, w)
    decreases NewDepth(p, r, u, v, k)[w]
  {
    NewRanked(p, r, u, v, k, np);
    NewPathStep(p, r, u, v, k, np, w);
    if w != 0 {
      NewPathIsPath(p, r, u, v, k, np, np[w]);
    }
  }

  // ---------------------------------------------------------------------------
  // Membership in the new paths
  // ---------------------------------------------------------------------------

  /** Every node of the new path of a cut node, before v's path, is in the cut. */
  lemma CutNewPathSplit(p: seq<int>, r: seq<nat>, u: int, v: int, k: int, w: int, x: int)
    requires Pivot(p, r, u, v, k) && 0 <= w < |p| && w in Cut(p, r, u, v, k)
    ensures x in NewPath(p, r, u, v, k, w) <==>
      x in Path(p, r, w)[..MeetIdx(p, r, w, u)] ||
      x in Down(Path(p, r, u), MeetIdx(p, r, u, w)) ||
      x in Path(p, r, v)
  {
    CutNewPath(p, r, u, v, k, w);
  }

  /** A node outside the cut keeps its subtree, and gains the cut when it lies on v's path. */
  lemma OutsideMember(p: seq<int>, r: seq<nat>, u: int, v: int, k: int, w: int, x: int)
    requires Pivot(p, r, u, v, k) && 0 <= w < |p| && x !in Cut(p, r, u, v, k)
    ensures x in NewPath(p, r, u, v, k, w) <==>
      if w in Cut(p, r, u, v, k) then x in Path(p, r, v) else x in Path(p, r, w)
  {
    if w in Cut(p, r, u, v, k) {
      var P := Path(p, r, u);
      var W := Path(p, r, w);
      var iz := MeetIdx(p, r, w, u);
      var jz := MeetIdx(p, r, u, w);
      CutMeetBound(p, r, u, v, k, w);
      CutNewPathSplit(p, r, u, v, k, w, x);
      if x in W[..iz] {
        var j := IndexOf(W[..iz], x);
        CutPrefix(p, r, u, v, k, w, j);
      }
      if x in Down(P, jz) {
        DownMem(P, jz, x);
        var i :| 0 <= i <= jz && P[i] == x;
        StemInCut(p, r, u, v, k, i);
      }
    }
  }

  /** A cut node off the stem keeps its subtree. */
  lemma NonStemMember(p: seq<int>, r: seq<nat>, u: int, v: int, k: int, w: int, x: int)
    requires Pivot(p, r, u, v, k) && 0 <= w < |p|
    requires x in Cut(p, r, u, v, k) && x !in Path(p, r, u)
    ensures x in NewPath(p, r, u, v, k, w) <==> x in Path(p, r, w)
  {
    var P := Path(p, r, u);
    var q := P[k];
    var W := Path(p, r, w);
    if w in Cut(p, r, u, v, k) {
      var iz := MeetIdx(p, r, w, u);
      var jz := MeetIdx(p, r, u, w);
      CutMeetBound(p, r, u, v, k, w);
      CutNewPathSplit(p, r, u, v, k, w, x);
      if x in Down(P, jz) {
        DownMem(P, jz, x);
      }
      if x in Path(p, r, v) {
        PathVOutsideCut(p, r, u, v, k, x);
      }
      if x in W && x !in W[..iz] {
        var i := IndexOf(W, x);
        assert i >= iz;
        PathSuffix(p, r, w, iz);
        assert x == W[iz..][i - iz];
        AncestorTrans(p, r, x, W[iz], u);
      }
    } else if x in W {
      AncestorTrans(p, r, q, x, w);
    }
  }

  /** Stem node P[t] is on the new path of w exactly when w is in the cut and
      u's path meets w's path at index t or later. */
  lemma StemMember(p: seq<int>, r: seq<nat>, u: int, v: int, k: int, w: int, t: int)
    requires Pivot(p, r, u, v, k) && 0 <= w < |p| && 0 <= t <= k
    ensures Path(p, r, u)[t] in NewPath(p, r, u, v, k, w) <==>
      w in Cut(p, r, u, v, k) && t <= MeetIdx(p, r, u, w)
  {
    var P := Path(p, r, u);
    var x := P[t];
    StemInCut(p, r, u, v, k, t);
    if w in Cut(p, r, u, v, k) {
      var W := Path(p, r, w);
      var iz := MeetIdx(p, r, w, u);
      var jz := MeetIdx(p, r, u, w);
      CutMeetBound(p, r, u, v, k, w);
      CutNewPathSplit(p, r, u, v, k, w, x);
      if x in W[..iz] {
        var j := IndexOf(W[..iz], x);
        CutPrefix(p, r, u, v, k, w, j);
      }
      if x in Path(p, r, v) {
        PathVOutsideCut(p, r, u, v, k, x);
      }
      DownMem(P, jz, x);
      if x in Down(P, jz) {
        var i :| 0 <= i <= jz && P[i] == x;
        if i != t { PathDistinct(p, r, u, i, t); }
      }
    } else if x in Path(p, r, w) {
      AncestorTrans(p, r, P[k], x, w);
    }
  }

  /** Below the first stem node, meeting u's path at index t or later means
      not having the previous stem node as an ancestor. */
  lemma MeetIdxStem(p: seq<int>, r: seq<nat>, u: int, w: int, t: int)
    requires Ranked(p, r) && 0 <= u < |p| && 0 <= w < |p|
    requires 1 <= t < |Path(p, r, u)|
    ensures t <= MeetIdx(p, r, u, w) <==> Path(p, r, u)[t - 1] !in Path(p, r, w)
  {
    var P := Path(p, r, u);
    var jz := MeetIdx(p, r, u, w);
    if jz <= t - 1 {
      PathShape(p, r, u);
      PathSuffix(p, r, u, jz);
      assert P[t - 1] == P[jz..][t - 1 - jz];
      AncestorTrans(p, r, P[t - 1], P[jz], w);
    }
  }

  // ---------------------------------------------------------------------------
  // Subtrees of the new tree
  // ---------------------------------------------------------------------------

  /** The subtree of x in the rewired tree. */
  ghost function NewSub(p: seq<int>, r: seq<nat>, u: int, v: int, k: int, np: seq<int>, x: int): set<int>
    requires Pivot(p, r, u, v, k) && Rewired(p, r, u, v, k, np)
  {
    NewRanked(p, r, u, v, k, np);
    Sub(np, NewDepth(p, r, u, v, k), x)
  }

  lemma NewSubMem(p: seq<int>, r: seq<nat>, u: int, v: int, k: int, np: seq<int>, x: int, w: int)
    requires Pivot(p, r, u, v, k) && Rewired(p, r, u, v, k, np)
    ensures w in NewSub(p, r, u, v, k, np, x) <==> 0 <= w < |p| && x in NewPath(p, r, u, v, k, w)
  {
    if 0 <= w < |p| {
      NewPathIsPath(p, r, u, v, k, np, w);
    }
  }

  lemma NewSubOutside(p: seq<int>, r: seq<nat>, u: int, v: int, k: int, np: seq<int>, x: int)
    requires Pivot(p, r, u, v, k) && Rewired(p, r, u, v, k, np)
    requires 0 <= x < |p| && x !in Cut(p, r, u, v, k)
    ensures NewSub(p, r, u, v, k, np, x) ==
      (Sub(p, r, x) - Cut(p, r, u, v, k)) + (if x in Path(p, r, v) then Cut(p, r, u, v, k) else {})
  {
    var C := Cut(p, r, u, v, k);
    forall w
      ensures w in NewSub(p, r, u, v, k, np, x) <==>
        w in (Sub(p, r, x) - C) + (if x in Path(p, r, v) then C else {})
    {
      NewSubMem(p, r, u, v, k, np, x, w);
      if 0 <= w < |p| {
        OutsideMember(p, r, u, v, k, w, x);
      }
    }
  }

  lemma NewSubNonStem(p: seq<int>, r: seq<nat>, u: int, v: int, k: int, np: seq<int>, x: int)
    requires Pivot(p, r, u, v, k) && Rewired(p, r, u, v, k, np)
    requires x in Cut(p, r, u, v, k) && x !in Path(p, r, u)
    ensures NewSub(p, r, u, v, k, np, x) == Sub(p, r, x)
  {
    forall w
      ensures w in NewSub(p, r, u, v, k, np, x) <==> w in Sub(p, r, x)
    {
      NewSubMem(p, r, u, v, k, np, x, w);
      if 0 <= w < |p| {
        NonStemMember(p, r, u, v, k, w, x);
      }
    }
  }

  lemma NewSubStem(p: seq<int>, r: seq<nat>, u: int, v: int, k: int, np: seq<int>, t: int)
    requires Pivot(p, r, u, v, k) && Rewired(p, r, u, v, k, np) && 0 <= t <= k
    ensures PathShapeHolds(p, r, u)
    ensures t == 0 ==> NewSub(p, r, u, v, k, np, Path(p, r, u)[t]) == Cut(p, r, u, v, k)
    ensures t > 0 ==>
      NewSub(p, r, u, v, k, np, Path(p, r, u)[t]) == Cut(p, r, u, v, k) - Sub(p, r, Path(p, r, u)[t - 1])
  {
    var P := Path(p, r, u);
    var C := Cut(p, r, u, v, k);
    StemInCut(p, r, u, v, k, t);
    forall w
      ensures w in NewSub(p, r, u, v, k, np, P[t]) <==>
        w in C && (t == 0 || w !in Sub(p, r, P[t - 1]))
    {
      NewSubMem(p, r, u, v, k, np, P[t], w);
      if 0 <= w < |p| {
        StemMember(p, r, u, v, k, w, t);
        if t > 0 {
          MeetIdxStem(p, r, u, w, t);
        }
      }
    }
  }

  // ---------------------------------------------------------------------------
  // Subtree sizes of the new tree
  // ---------------------------------------------------------------------------

  /** The subtree sizes after the pivot, in terms of the sizes before it:
      the stem nodes take what is left of the cut subtree below them, the
      nodes between q and the apex lose it, the nodes between v and the apex
      gain it, and every other node keeps its size. */
  ghost function SizeAfter(p: seq<int>, r: seq<nat>, u: int, v: int, k: int, tt: seq<int>, x: int): int
    requires Pivot(p, r, u, v, k) && |tt| == |p| && 0 <= x < |p|
  {
    var P := Path(p, r, u);
    QNotRoot(p, r, u, v, k);
    var q := P[k];
    if x in P[..k + 1] then
      var t := IndexOf(P[..k + 1], x);
      if t == 0 then tt[q] else tt[q] - tt[P[t - 1]]
    else if x in Path(p, r, q) && x !in Path(p, r, v) then tt[x] - tt[q]
    else if x !in Path(p, r, q) && x in Path(p, r, v) then tt[x] + tt[q]
    else tt[x]
  }

  /** The subtree sizes of the rewired tree are SizeAfter. */
  lemma NewSizes(p: seq<int>, r: seq<nat>, u: int, v: int, k: int, np: seq<int>, tt: seq<int>, x: int)
    requires Pivot(p, r, u, v, k) && Rewired(p, r, u, v, k, np)
    requires SizesOf(p, r, tt) && 0 <= x < |p|
    ensures |NewSub(p, r, u, v, k, np, x)| == SizeAfter(p, r, u, v, k, tt, x)
  {
    var P := Path(p, r, u);
    if x in P[..k + 1] {
      SizeStem(p, r, u, v, k, np, tt, IndexOf(P[..k + 1], x));
    } else if x in Cut(p, r, u, v, k) {
      SizeNonStem(p, r, u, v, k, np, tt, x);
    } else {
      SizeOutside(p, r, u, v, k, np, tt, x);
    }
  }

  lemma SizeStem(p: seq<int>, r: seq<nat>, u: int, v: int, k: int, np: seq<int>, tt: seq<int>, t: int)
    requires Pivot(p, r, u, v, k) && Rewired(p, r, u, v, k, np)
    requires SizesOf(p, r, tt) && 0 <= t <= k
    ensures PathShapeHolds(p, r, u)
    ensures t == 0 ==> |NewSub(p, r, u, v, k, np, Path(p, r, u)[t])| == tt[Path(p, r, u)[k]]
    ensures t > 0 ==>
      |NewSub(p, r, u, v, k, np, Path(p, r, u)[t])| == tt[Path(p, r, u)[k]] - tt[Path(p, r, u)[t - 1]]
  {
    var P := Path(p, r, u);
    QNotRoot(p, r, u, v, k);
    NewSubStem(p, r, u, v, k, np, t);
    if t > 0 {
      StemInCut(p, r, u, v, k, t - 1);
      SubInSub(p, r, P[k], P[t - 1]);
      SubsetCard(Sub(p, r, P[t - 1]), Cut(p, r, u, v, k));
    }
  }

  lemma SizeNonStem(p: seq<int>, r: seq<nat>, u: int, v: int, k: int, np: seq<int>, tt: seq<int>, x: int)
    requires Pivot(p, r, u, v, k) && Rewired(p, r, u, v, k, np)
    requires SizesOf(p, r, tt) && 0 <= x < |p|
    requires x !in Path(p, r, u)[..k + 1] && x in Cut(p, r, u, v, k)
    ensures PathShapeHolds(p, r, u)
    ensures x !in Path(p, r, Path(p, r, u)[k]) && x !in Path(p, r, v)
    ensures |NewSub(p, r, u, v, k, np, x)| == tt[x]
  {
    var P := Path(p, r, u);
    QNotRoot(p, r, u, v, k);
    if x in P {
      CutOnPathIsStem(p, r, u, v, k, x);
    }
    NewSubNonStem(p, r, u, v, k, np, x);
    if x in Path(p, r, v) {
      PathVOutsideCut(p, r, u, v, k, x);
    }
    if x in Path(p, r, P[k]) {
      AncestorAntisym(p, r, x, P[k]);
    }
  }

  lemma SizeOutside(p: seq<int>, r: seq<nat>, u: int, v: int, k: int, np: seq<int>, tt: seq<int>, x: int)
    requires Pivot(p, r, u, v, k) && Rewired(p, r, u, v, k, np)
    requires SizesOf(p, r, tt) && 0 <= x < |p|
    requires x !in Cut(p, r, u, v, k)
    ensures PathShapeHolds(p, r, u)
    ensures |NewSub(p, r, u, v, k, np, x)| ==
      tt[x] + (if x in Path(p, r, v) then tt[Path(p, r, u)[k]] else 0)
            - (if x in Path(p, r, Path(p, r, u)[k]) then tt[Path(p, r, u)[k]] else 0)
  {
    var P := Path(p, r, u);
    QNotRoot(p, r, u, v, k);
    var q := P[k];
    var C := Cut(p, r, u, v, k);
    var S := Sub(p, r, x);
    NewSubOutside(p, r, u, v, k, np, x);
    if x in Path(p, r, q) {
      SubInSub(p, r, x, q);
      CardAbove(C, S, x in Path(p, r, v));
    } else {
      forall w | w in S && w in C
        ensures false
      {
        AncestorsComparable(p, r, x, q, w);
      }
      CardBeside(C, S, x in Path(p, r, v));
    }
  }

  lemma CardAbove(C: set<int>, S: set<int>, b: bool)
    requires C <= S
    ensures |(S - C) + (if b then C else {})| == |S| + (if b then |C| else 0) - |C|
  {
    SubsetCard(C, S);
    if b {
      assert (S - C) + C == S;
    } else {
      assert (S - C) + {} == S - C;
    }
  }

  lemma CardBeside(C: set<int>, S: set<int>, b: bool)
    requires forall w :: w in S ==> w !in C
    ensures |(S - C) + (if b then C else {})| == |S| + (if b then |C| else 0)
  {
    forall w | w in S ensures w in S - C {
    }
    assert S - C == S;
    if !b {
      assert (S - C) + {} == S;
    }
  }
}
