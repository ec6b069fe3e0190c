/** Rooted trees over nodes 0..N-1 given by a parent array p with p[0] == -1.
    A rank r that strictly decreases from a node to its parent witnesses that
    every node reaches the root 0; the basis tree of a solution uses
    N - tree_t[v] as that rank. */
module Trees {

  /** p is a parent array rooted at node 0, with r a rank that strictly
      drops from child to parent. */
  ghost predicate Ranked(p: seq<int>, r: seq<nat>) {
    && |p| > 0 && |r| == |p| && p[0] == -1
    && (forall v :: 0 < v < |p| ==> 0 <= p[v] < |p| && r[p[v]] < r[v])
  }

  /** The nodes from v up to the root, v first and 0 last. */
  ghost function Path(p: seq<int>, r: seq<nat>, v: int): seq<int>
    requires Ranked(p, r) && 0 <= v < |p|
    decreases r[v]
  {
    if v == 0 then [0] else [v] + Path(p, r, p[v])
  }

  /** The subtree rooted at x: every node whose path to the root visits x. */
  ghost function Sub(p: seq<int>, r: seq<nat>, x: int): set<int>
    requires Ranked(p, r)
  {
    set w | 0 <= w < |p| && x in Path(p, r, w)
  }

  lemma {:induction false} PathShape(p: seq<int>, r: seq<nat>, v: int)
    requires Ranked(p, r) && 0 <= v < |p|
    ensures var P := Path(p, r, v);
      && |P| >= 1 && P[0] == v && P[|P| - 1] == 0
      && (forall k :: 0 <= k < |P| ==> 0 <= P[k] < |p|)
      && (forall k :: 0 <= k < |P| - 1 ==> P[k] != 0 && P[k + 1] == p[P[k]])
    decreases r[v]
  {
    if v != 0 {
      PathShape(p, r, p[v]);
      var P := Path(p, r, v);
      assert P == [v] + Path(p, r, p[v]);
      forall k | 0 <= k < |P| - 1
        ensures P[k] != 0 && P[k + 1] == p[P[k]]
      {
        if k > 0 {
          assert P[k] == Path(p, r, p[v])[k - 1];
        }
      }
    }
  }

  /** Only the root is at the end of its own path. */
  lemma PathOfRoot(p: seq<int>, r: seq<nat>)
    requires Ranked(p, r)
    ensures Path(p, r, 0) == [0]
  {
  }

  /** From any node of v's path, the rest of the path is that node's path. */
  lemma {:induction false} PathSuffix(p: seq<int>, r: seq<nat>, v: int, k: int)
    requires Ranked(p, r) && 0 <= v < |p|
    requires 0 <= k < |Path(p, r, v)|
    ensures PathShapeHolds(p, r, v)
    ensures Path(p, r, v)[k..] == Path(p, r, Path(p, r, v)[k])
    decreases r[v]
  {
    PathShape(p, r, v);
    if k > 0 {
      assert v != 0;
      var P := Path(p, r, v);
      assert P == [v] + Path(p, r, p[v]);
      PathSuffix(p, r, p[v], k - 1);
      assert P[k..] == Path(p, r, p[v])[k - 1..];
    }
  }

  /** PathShape packaged as a predicate, so other modules can ask for it. */
  ghost predicate PathShapeHolds(p: seq<int>, r: seq<nat>, v: int)
    requires Ranked(p, r) && 0 <= v < |p|
  {
    var P := Path(p, r, v);
    && |P| >= 1 && P[0] == v && P[|P| - 1] == 0
    && (forall k :: 0 <= k < |P| ==> 0 <= P[k] < |p|)
    && (forall k :: 0 <= k < |P| - 1 ==> P[k] != 0 && P[k + 1] == p[P[k]])
  }

  /** Ranks strictly drop along a path. */
  lemma {:induction false} PathRanks(p: seq<int>, r: seq<nat>, v: int, k1: int, k2: int)
    requires Ranked(p, r) && 0 <= v < |p|
    requires 0 <= k1 < k2 < |Path(p, r, v)|
    ensures PathShapeHolds(p, r, v)
    ensures r[Path(p, r, v)[k2]] < r[Path(p, r, v)[k1]]
    decreases k2 - k1
  {
    PathShape(p, r, v);
    var P := Path(p, r, v);
    if k2 > k1 + 1 {
      PathRanks(p, r, v, k1 + 1, k2);
    }
  }

  /** A path never visits a node twice. */
  lemma PathDistinct(p: seq<int>, r: seq<nat>, v: int, k1: int, k2: int)
    requires Ranked(p, r) && 0 <= v < |p|
    requires 0 <= k1 < |Path(p, r, v)| && 0 <= k2 < |Path(p, r, v)| && k1 != k2
    ensures Path(p, r, v)[k1] != Path(p, r, v)[k2]
  {
    if k1 < k2 { PathRanks(p, r, v, k1, k2); } else { PathRanks(p, r, v, k2, k1); }
  }

  /** Position of a node on a path. */
  ghost function IndexOf(s: seq<int>, x: int): (k: int)
    requires x in s
    ensures 0 <= k < |s| && s[k] == x
    ensures forall j :: 0 <= j < k ==> s[j] != x
  {
    if s[0] == x then 0 else 1 + IndexOf(s[1..], x)
  }

  /** If y is on w's path, y's path is the tail of w's path from y on. */
  lemma AncestorPath(p: seq<int>, r: seq<nat>, w: int, y: int)
    requires Ranked(p, r) && 0 <= w < |p| && y in Path(p, r, w)
    ensures 0 <= y < |p|
    ensures Path(p, r, y) == Path(p, r, w)[IndexOf(Path(p, r, w), y)..]
  {
    var k := IndexOf(Path(p, r, w), y);
    PathSuffix(p, r, w, k);
  }

  /** Indexing the path of the node at position t of v's path. */
  lemma PathOfPathIndex(p: seq<int>, r: seq<nat>, v: int, t: int, i: int)
    requires Ranked(p, r) && 0 <= v < |p| && 0 <= t < |Path(p, r, v)|
    requires 0 <= Path(p, r, v)[t] < |p|
    requires 0 <= i < |Path(p, r, Path(p, r, v)[t])|
    ensures t + i < |Path(p, r, v)|
    ensures Path(p, r, Path(p, r, v)[t])[i] == Path(p, r, v)[t + i]
  {
    PathSuffix(p, r, v, t);
  }

  /** The ancestor relation is transitive. */
  lemma AncestorTrans(p: seq<int>, r: seq<nat>, x: int, y: int, w: int)
    requires Ranked(p, r) && 0 <= w < |p| && y in Path(p, r, w)
    requires 0 <= y < |p| && x in Path(p, r, y)
    ensures x in Path(p, r, w)
  {
    AncestorPath(p, r, w, y);
  }

  /** Ranks of proper ancestors are smaller. */
  lemma AncestorRank(p: seq<int>, r: seq<nat>, x: int, w: int)
    requires Ranked(p, r) && 0 <= w < |p| && x in Path(p, r, w)
    ensures 0 <= x < |p| && r[x] <= r[w]
    ensures x != w ==> r[x] < r[w]
  {
    PathShape(p, r, w);
    var k := IndexOf(Path(p, r, w), x);
    if k > 0 { PathRanks(p, r, w, 0, k); }
  }

  /** Two nodes that are each other's ancestors are equal. */
  lemma AncestorAntisym(p: seq<int>, r: seq<nat>, x: int, w: int)
    requires Ranked(p, r) && 0 <= w < |p| && 0 <= x < |p|
    requires x in Path(p, r, w) && w in Path(p, r, x)
    ensures x == w
  {
    AncestorRank(p, r, x, w);
    AncestorRank(p, r, w, x);
  }

  /** Two ancestors of the same node are comparable. */
  lemma AncestorsComparable(p: seq<int>, r: seq<nat>, x: int, y: int, w: int)
    requires Ranked(p, r) && 0 <= w < |p|
    requires x in Path(p, r, w) && y in Path(p, r, w)
    ensures 0 <= x < |p| && 0 <= y < |p|
    ensures x in Path(p, r, y) || y in Path(p, r, x)
  {
    var P := Path(p, r, w);
    var kx, ky := IndexOf(P, x), IndexOf(P, y);
    AncestorPath(p, r, w, x);
    AncestorPath(p, r, w, y);
    if kx <= ky {
      SuffixMember(P, kx, ky);
    } else {
      SuffixMember(P, ky, kx);
    }
  }

  lemma SuffixMember(P: seq<int>, i: int, j: int)
    requires 0 <= i <= j < |P|
    ensures P[j] in P[i..]
  {
    assert P[i..][j - i] == P[j];
  }

  /** The parent of a non-root node is on its path. */
  lemma ParentOnPath(p: seq<int>, r: seq<nat>, w: int)
    requires Ranked(p, r) && 0 < w < |p|
    ensures p[w] in Path(p, r, w) && w in Path(p, r, w)
    ensures Path(p, r, w) == [w] + Path(p, r, p[w])
  {
    PathShape(p, r, p[w]);
  }

  /** The path does not depend on which rank witnesses it. */
  lemma {:induction false} PathRankFree(p: seq<int>, r1: seq<nat>, r2: seq<nat>, v: int)
    requires Ranked(p, r1) && Ranked(p, r2) && 0 <= v < |p|
    ensures Path(p, r1, v) == Path(p, r2, v)
    decreases r1[v]
  {
    if v != 0 {
      PathRankFree(p, r1, r2, p[v]);
    }
  }

  lemma SubRankFree(p: seq<int>, r1: seq<nat>, r2: seq<nat>, x: int)
    requires Ranked(p, r1) && Ranked(p, r2)
    ensures Sub(p, r1, x) == Sub(p, r2, x)
  {
    forall w | 0 <= w < |p|
      ensures x in Path(p, r1, w) <==> x in Path(p, r2, w)
    {
      PathRankFree(p, r1, r2, w);
    }
  }

  /** A subtree contains its root and only nodes in range. */
  lemma SubBasics(p: seq<int>, r: seq<nat>, x: int)
    requires Ranked(p, r) && 0 <= x < |p|
    ensures x in Sub(p, r, x)
    ensures Sub(p, r, x) <= Range(|p|)
  {
    forall w | w in Sub(p, r, x) ensures w in Range(|p|) { RangeMem(|p|, w); }
    PathShape(p, r, x);
  }

  /** The subtree of the root is everything. */
  lemma SubRoot(p: seq<int>, r: seq<nat>)
    requires Ranked(p, r)
    ensures Sub(p, r, 0) == Range(|p|)
  {
    forall w | 0 <= w < |p|
      ensures 0 in Path(p, r, w)
    {
      PathShape(p, r, w);
    }
    forall w ensures w in Sub(p, r, 0) <==> w in Range(|p|) { RangeMem(|p|, w); }
  }

  /** The node set 0..n-1. */
  ghost function Range(n: nat): set<int> {
    if n == 0 then {} else Range(n - 1) + {n - 1}
  }

  lemma RangeMem(n: nat, w: int)
    ensures w in Range(n) <==> 0 <= w < n
  {
    if n > 0 { RangeMem(n - 1, w); }
  }

  lemma RangeCard(n: nat)
    ensures |Range(n)| == n
  {
    if n > 0 {
      RangeCard(n - 1);
      RangeMem(n - 1, n - 1);
    }
  }

  /** A proper subset is strictly smaller; a subset's complement adds up. */
  lemma SubsetCard<T>(a: set<T>, b: set<T>)
    requires a <= b
    ensures |b| == |a| + |b - a|
    ensures a < b ==> |a| < |b|
  {
    assert b == a + (b - a);
    if a < b {
      var y :| y in b && y !in a;
      assert y in b - a;
    }
  }

  /** The subtree of a node contains the subtree of each of its descendants. */
  lemma SubInSub(p: seq<int>, r: seq<nat>, x: int, y: int)
    requires Ranked(p, r) && 0 <= y < |p| && x in Path(p, r, y)
    ensures Sub(p, r, y) <= Sub(p, r, x)
  {
    forall w | w in Sub(p, r, y)
      ensures x in Path(p, r, w)
    {
      AncestorTrans(p, r, x, y, w);
    }
  }

  /** A proper ancestor's subtree is strictly larger. */
  lemma SubStrict(p: seq<int>, r: seq<nat>, x: int, y: int)
    requires Ranked(p, r) && 0 <= x < |p| && y in Path(p, r, x) && y != x
    ensures Sub(p, r, x) < Sub(p, r, y)
    ensures |Sub(p, r, x)| < |Sub(p, r, y)|
  {
    AncestorRank(p, r, y, x);
    forall w | w in Sub(p, r, x)
      ensures w in Sub(p, r, y)
    {
      AncestorTrans(p, r, y, x, w);
    }
    SubBasics(p, r, y);
    if x in Path(p, r, y) {
      AncestorAntisym(p, r, x, y);
    }
    assert y !in Sub(p, r, x);
    SubsetCard(Sub(p, r, x), Sub(p, r, y));
  }

  // ---------------------------------------------------------------------------
  // Meet (lowest common ancestor)
  // ---------------------------------------------------------------------------

  ghost function MeetFrom(p: seq<int>, r: seq<nat>, x: int, y: int, k: int): (i: int)
    requires Ranked(p, r) && 0 <= x < |p| && 0 <= y < |p|
    requires 0 <= k < |Path(p, r, x)|
    ensures k <= i < |Path(p, r, x)| && Path(p, r, x)[i] in Path(p, r, y)
    ensures forall j :: k <= j < i ==> Path(p, r, x)[j] !in Path(p, r, y)
    decreases |Path(p, r, x)| - k
  {
    PathShape(p, r, x);
    PathShape(p, r, y);
    if Path(p, r, x)[k] in Path(p, r, y) then k else MeetFrom(p, r, x, y, k + 1)
  }

  /** Index on x's path of the first node that is also on y's path. */
  ghost function MeetIdx(p: seq<int>, r: seq<nat>, x: int, y: int): (i: int)
    requires Ranked(p, r) && 0 <= x < |p| && 0 <= y < |p|
    ensures 0 <= i < |Path(p, r, x)| && Path(p, r, x)[i] in Path(p, r, y)
    ensures forall j :: 0 <= j < i ==> Path(p, r, x)[j] !in Path(p, r, y)
  {
    PathShape(p, r, x);
    MeetFrom(p, r, x, y, 0)
  }

  /** The lowest common ancestor of x and y. */
  ghost function Meet(p: seq<int>, r: seq<nat>, x: int, y: int): int
    requires Ranked(p, r) && 0 <= x < |p| && 0 <= y < |p|
  {
    Path(p, r, x)[MeetIdx(p, r, x, y)]
  }

  /** The common ancestors of x and y are exactly the ancestors of their meet. */
  lemma MeetCommon(p: seq<int>, r: seq<nat>, x: int, y: int, z: int)
    requires Ranked(p, r) && 0 <= x < |p| && 0 <= y < |p|
    ensures 0 <= Meet(p, r, x, y) < |p|
    ensures Meet(p, r, x, y) in Path(p, r, x) && Meet(p, r, x, y) in Path(p, r, y)
    ensures (z in Path(p, r, x) && z in Path(p, r, y)) <==> z in Path(p, r, Meet(p, r, x, y))
  {
    var i := MeetIdx(p, r, x, y);
    var a := Meet(p, r, x, y);
    PathShape(p, r, x);
    AncestorPath(p, r, x, a);
    PathDistinctIndex(p, r, x, a, i);
    if z in Path(p, r, x) && z in Path(p, r, y) {
      var kz := IndexOf(Path(p, r, x), z);
      assert kz >= i;
      assert z == Path(p, r, x)[i..][kz - i];
    }
    if z in Path(p, r, a) {
      AncestorTrans(p, r, z, a, y);
    }
  }

  lemma PathDistinctIndex(p: seq<int>, r: seq<nat>, v: int, x: int, i: int)
    requires Ranked(p, r) && 0 <= v < |p|
    requires 0 <= i < |Path(p, r, v)| && Path(p, r, v)[i] == x
    ensures IndexOf(Path(p, r, v), x) == i
  {
    var k := IndexOf(Path(p, r, v), x);
    if k != i { PathDistinct(p, r, v, k, i); }
  }

  /** The meet is symmetric. */
  lemma MeetSymmetric(p: seq<int>, r: seq<nat>, x: int, y: int)
    requires Ranked(p, r) && 0 <= x < |p| && 0 <= y < |p|
    ensures Meet(p, r, x, y) == Meet(p, r, y, x)
  {
    var a := Meet(p, r, x, y);
    var b := Meet(p, r, y, x);
    MeetCommon(p, r, x, y, b);
    MeetCommon(p, r, y, x, a);
    AncestorAntisym(p, r, a, b);
  }

  /** The meet of x and an ancestor y of x is y. */
  lemma MeetOfAncestor(p: seq<int>, r: seq<nat>, x: int, y: int)
    requires Ranked(p, r) && 0 <= x < |p| && 0 <= y < |p| && y in Path(p, r, x)
    ensures Meet(p, r, x, y) == y
    ensures MeetIdx(p, r, x, y) == IndexOf(Path(p, r, x), y)
  {
    PathShape(p, r, y);
    var a := Meet(p, r, x, y);
    MeetCommon(p, r, x, y, y);
    MeetCommon(p, r, x, y, a);
    AncestorAntisym(p, r, a, y);
    PathDistinctIndex(p, r, x, y, MeetIdx(p, r, x, y));
  }

  /** tt holds the subtree size of every node. */
  ghost predicate SizesOf(p: seq<int>, r: seq<nat>, tt: seq<int>)
    requires Ranked(p, r)
  {
    |tt| == |p| && forall x {:trigger Sub(p, r, x)} :: 0 <= x < |p| ==> tt[x] == |Sub(p, r, x)|
  }

  /** Every subtree holds between one node and all of them; only the root's
      holds all of them. */
  lemma SubSize(p: seq<int>, r: seq<nat>, x: int)
    requires Ranked(p, r) && 0 <= x < |p|
    ensures 1 <= |Sub(p, r, x)| <= |p|
    ensures |Sub(p, r, x)| == |p| ==> x == 0
  {
    SubBasics(p, r, x);
    RangeCard(|p|);
    SubsetCard(Sub(p, r, x), Range(|p|));
    assert {x} <= Sub(p, r, x);
    SubsetCard({x}, Sub(p, r, x));
    if |Sub(p, r, x)| == |p| {
      assert Sub(p, r, x) == Range(|p|);
      RangeMem(|p|, 0);
      assert 0 in Sub(p, r, x);
      PathOfRoot(p, r);
    }
  }

  /** One step of the apex walk: when x is not an ancestor of y, moving x to
      its parent keeps the meet and shortens x's part of the walk by one. */
  lemma MeetStep(p: seq<int>, r: seq<nat>, x: int, y: int)
    requires Ranked(p, r) && 0 < x < |p| && 0 <= y < |p| && x !in Path(p, r, y)
    ensures 0 <= p[x] < |p|
    ensures MeetIdx(p, r, x, y) == 1 + MeetIdx(p, r, p[x], y)
    ensures MeetIdx(p, r, y, x) == MeetIdx(p, r, y, p[x])
    ensures Meet(p, r, x, y) == Meet(p, r, p[x], y)
    ensures Path(p, r, x) == [x] + Path(p, r, p[x])
  {
    ParentOnPath(p, r, x);
    MeetStepOwn(p, r, x, y);
    MeetStepOther(p, r, x, y);
  }

  /** x's own index of the meet drops by one as x moves to its parent. */
  lemma MeetStepOwn(p: seq<int>, r: seq<nat>, x: int, y: int)
    requires Ranked(p, r) && 0 < x < |p| && 0 <= y < |p| && x !in Path(p, r, y)
    requires 0 <= p[x] < |p| && Path(p, r, x) == [x] + Path(p, r, p[x])
    ensures MeetIdx(p, r, x, y) == 1 + MeetIdx(p, r, p[x], y)
  {
    var X := Path(p, r, x);
    var PX := Path(p, r, p[x]);
    var Y := Path(p, r, y);
    var i' := MeetIdx(p, r, p[x], y);
    assert X[1 + i'] == PX[i'];
    forall j | 0 <= j < 1 + i'
      ensures X[j] !in Y
    {
      if j > 0 {
        assert X[j] == PX[j - 1];
      }
    }
    MeetIdxIs(p, r, x, y, 1 + i');
  }

  /** y's index of the meet stays put as x moves to its parent. */
  lemma MeetStepOther(p: seq<int>, r: seq<nat>, x: int, y: int)
    requires Ranked(p, r) && 0 < x < |p| && 0 <= y < |p| && x !in Path(p, r, y)
    requires 0 <= p[x] < |p| && Path(p, r, x) == [x] + Path(p, r, p[x])
    ensures MeetIdx(p, r, y, x) == MeetIdx(p, r, y, p[x])
  {
    var X := Path(p, r, x);
    var PX := Path(p, r, p[x]);
    var Y := Path(p, r, y);
    var jz := MeetIdx(p, r, y, p[x]);
    forall j | 0 <= j < jz
      ensures Y[j] !in X
    {
      assert Y[j] !in PX;
    }
    MeetIdxIs(p, r, y, x, jz);
  }

  lemma MeetIdxIs(p: seq<int>, r: seq<nat>, x: int, y: int, i: int)
    requires Ranked(p, r) && 0 <= x < |p| && 0 <= y < |p|
    requires 0 <= i < |Path(p, r, x)| && Path(p, r, x)[i] in Path(p, r, y)
    requires forall j :: 0 <= j < i ==> Path(p, r, x)[j] !in Path(p, r, y)
    ensures MeetIdx(p, r, x, y) == i
  {
  }

  // Sequence helpers

  lemma ConcatAssoc(a: seq<int>, b: seq<int>, c: seq<int>)
    ensures (a + b) + c == a + (b + c)
  {
  }

  lemma PrefixCons(W: seq<int>, w: int, PW: seq<int>, i: int)
    requires W == [w] + PW && 0 <= i <= |PW|
    ensures W[..1 + i] == [w] + PW[..i]
  {
  }

  lemma ConcatAssoc4(a: seq<int>, b: seq<int>, c: seq<int>, d: seq<int>)
    ensures ((a + b) + c) + d == a + ((b + c) + d)
  {
  }
}
