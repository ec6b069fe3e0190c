/** The last part of setBasis: the size of every subtree of the tree the
    depth-first walk built, computed level by level from the deepest nodes
    up to node 0. */
module Levels {
  import opened Trees
  import opened Basis
  import opened Explore

  /** The depths of a layered tree, as the rank the tree lemmas expect. */
  ghost function AsRank(depth: seq<int>): (r: seq<nat>)
    ensures |r| == |depth|
    ensures forall i :: 0 <= i < |depth| && depth[i] >= 0 ==> r[i] == depth[i]
  {
    seq(|depth|, i requires 0 <= i < |depth| => if depth[i] >= 0 then depth[i] else 0)
  }

  /** D is exactly the distance of every node from node 0. */
  ghost predicate Levelled(p: seq<int>, D: seq<nat>) {
    && Ranked(p, D) && D[0] == 0
    && (forall v :: 0 < v < |p| ==> D[v] == D[p[v]] + 1)
  }

  lemma LayeredLevelled(p: seq<int>, depth: seq<int>)
    requires Layered(p, depth)
    ensures Levelled(p, AsRank(depth))
  {
  }

  /** The ancestor of w at level k. */
  ghost function Anc(p: seq<int>, D: seq<nat>, w: int, k: nat): (a: int)
    requires Levelled(p, D) && 0 <= w < |p| && k <= D[w]
    ensures 0 <= a < |p| && D[a] == k
    decreases D[w]
  {
    if D[w] == k then w else Anc(p, D, p[w], k)
  }

  lemma {:induction false} AncOnPath(p: seq<int>, D: seq<nat>, w: int, k: nat)
    requires Levelled(p, D) && 0 <= w < |p| && k <= D[w]
    ensures Anc(p, D, w, k) in Path(p, D, w)
    decreases D[w]
  {
    if D[w] != k {
      AncOnPath(p, D, p[w], k);
      ParentOnPath(p, D, w);
    } else if w != 0 {
      ParentOnPath(p, D, w);
    }
  }

  /** A node on the path from w is w's ancestor at its own level. */
  lemma {:induction false} AncOfOnPath(p: seq<int>, D: seq<nat>, w: int, y: int)
    requires Levelled(p, D) && 0 <= w < |p| && y in Path(p, D, w)
    ensures 0 <= y < |p| && D[y] <= D[w] && Anc(p, D, w, D[y]) == y
    decreases D[w]
  {
    if w != 0 && y != w {
      ParentOnPath(p, D, w);
      AncOfOnPath(p, D, p[w], y);
    }
  }

  /** The ancestor one level up is the parent of the ancestor. */
  lemma {:induction false} AncParent(p: seq<int>, D: seq<nat>, w: int, k: nat)
    requires Levelled(p, D) && 0 <= w < |p| && 1 <= k <= D[w]
    ensures Anc(p, D, w, k - 1) == p[Anc(p, D, w, k)]
    decreases D[w]
  {
    if D[w] != k {
      AncParent(p, D, p[w], k);
    }
  }

  ghost function Size(p: seq<int>, D: seq<nat>, x: int): int
    requires Ranked(p, D)
  {
    |Sub(p, D, x)|
  }

  /** The nodes below x (at level L - 1) that hang from a child of x with
      index below z: what the pass over level L has added to x so far. */
  ghost function Part(p: seq<int>, D: seq<nat>, L: nat, x: int, z: int): set<int>
    requires Levelled(p, D) && L >= 1
  {
    set w | 0 <= w < |p| && L <= D[w] && Anc(p, D, w, L - 1) == x && Anc(p, D, w, L) < z
  }

  lemma PartNone(p: seq<int>, D: seq<nat>, L: nat, x: int)
    requires Levelled(p, D) && L >= 1
    ensures Part(p, D, L, x, 0) == {}
  {
  }

  /** Passing node z adds z's subtree to its parent's part, and nothing to
      any other part. */
  lemma PartStep(p: seq<int>, D: seq<nat>, L: nat, x: int, z: int)
    requires Levelled(p, D) && L >= 1 && 0 <= z < |p|
    ensures |Part(p, D, L, x, z + 1)| == |Part(p, D, L, x, z)| + if D[z] == L && p[z] == x then Size(p, D, z) else 0
  {
    var A, B := Part(p, D, L, x, z), Part(p, D, L, x, z + 1);
    var C := if D[z] == L && p[z] == x then Sub(p, D, z) else {};
    forall w | w in B && w !in A
      ensures w in C
    {
      AncOnPath(p, D, w, L);
      AncParent(p, D, w, L);
    }
    forall w | w in C
      ensures w in B && w !in A
    {
      AncOfOnPath(p, D, w, z);
      AncParent(p, D, w, L);
    }
    assert B == A + C;
  }

  /** Once level L is passed, the part of a node x at level L - 1 is its
      whole subtree but x itself. */
  lemma PartAll(p: seq<int>, D: seq<nat>, L: nat, x: int)
    requires Levelled(p, D) && L >= 1 && 0 <= x < |p| && D[x] == L - 1
    ensures |Part(p, D, L, x, |p|)| == Size(p, D, x) - 1
  {
    var P := Part(p, D, L, x, |p|);
    forall w | w in Sub(p, D, x) && w != x
      ensures w in P
    {
      AncOfOnPath(p, D, w, x);
    }
    forall w | w in P
      ensures w in Sub(p, D, x) && w != x
    {
      AncOnPath(p, D, w, L - 1);
    }
    SubBasics(p, D, x);
    assert P == Sub(p, D, x) - {x};
  }

  /** A node at the deepest level is a leaf. */
  lemma Leaf(p: seq<int>, D: seq<nat>, x: int)
    requires Levelled(p, D) && 0 <= x < |p|
    requires forall y :: 0 <= y < |p| ==> D[y] <= D[x]
    ensures Size(p, D, x) == 1
  {
    forall w | w in Sub(p, D, x)
      ensures w == x
    {
      AncestorRank(p, D, x, w);
    }
    SubBasics(p, D, x);
    assert Sub(p, D, x) == {x};
  }

  /** Before the pass over level L (and after the pass over L + 1): nodes
      below L are done, nodes at L miss only themselves, and nodes above
      L hold zero. */
  ghost predicate LevelInv(p: seq<int>, D: seq<nat>, t: seq<int>, L: nat)
    requires Levelled(p, D)
  {
    && |t| == |p|
    && forall x :: 0 <= x < |p| ==>
         t[x] == if D[x] > L then Size(p, D, x) else if D[x] == L then Size(p, D, x) - 1 else 0
  }

  /** Within the pass over level L, before node z. */
  ghost predicate PassInv(p: seq<int>, D: seq<nat>, t: seq<int>, L: nat, z: int)
    requires Levelled(p, D) && L >= 1
  {
    && |t| == |p|
    && forall x :: 0 <= x < |p| ==>
         t[x] == if D[x] > L then Size(p, D, x)
                 else if D[x] == L then (if x < z then Size(p, D, x) else Size(p, D, x) - 1)
                 else if D[x] == L - 1 then |Part(p, D, L, x, z)|
                 else 0
  }

  lemma PassStart(p: seq<int>, D: seq<nat>, t: seq<int>, L: nat)
    requires Levelled(p, D) && L >= 1 && LevelInv(p, D, t, L)
    ensures PassInv(p, D, t, L, 0)
  {
    forall x | 0 <= x < |p| && D[x] == L - 1
      ensures |Part(p, D, L, x, 0)| == 0
    {
      PartNone(p, D, L, x);
    }
  }

  lemma PassEnd(p: seq<int>, D: seq<nat>, t: seq<int>, L: nat)
    requires Levelled(p, D) && L >= 1 && PassInv(p, D, t, L, |p|)
    ensures LevelInv(p, D, t, L - 1)
  {
    forall x | 0 <= x < |p| && D[x] == L - 1
      ensures |Part(p, D, L, x, |p|)| == Size(p, D, x) - 1
    {
      PartAll(p, D, L, x);
    }
  }

  /** Node z at a level other than L changes nothing. */
  lemma PassOver(p: seq<int>, D: seq<nat>, t: seq<int>, L: nat, z: int)
    requires Levelled(p, D) && L >= 1 && 0 <= z < |p| && D[z] != L
    requires PassInv(p, D, t, L, z)
    ensures PassInv(p, D, t, L, z + 1)
  {
    forall x | 0 <= x < |p| && D[x] == L - 1
      ensures |Part(p, D, L, x, z + 1)| == |Part(p, D, L, x, z)|
    {
      PartStep(p, D, L, x, z);
    }
  }

  /** Node z at level L is completed by its increment and then added to
      its parent. */
  lemma PassAt(p: seq<int>, D: seq<nat>, t: seq<int>, L: nat, z: int)
    requires Levelled(p, D) && L >= 1 && 0 <= z < |p| && D[z] == L
    requires PassInv(p, D, t, L, z)
    ensures var t1 := t[z := t[z] + 1];
      PassInv(p, D, t1[p[z] := t1[p[z]] + t1[z]], L, z + 1)
  {
    var t1 := t[z := t[z] + 1];
    var t2 := t1[p[z] := t1[p[z]] + t1[z]];
    assert 0 <= p[z] < |p| && D[p[z]] == L - 1;
    forall x | 0 <= x < |p|
      ensures t2[x] == if D[x] > L then Size(p, D, x)
                 else if D[x] == L then (if x < z + 1 then Size(p, D, x) else Size(p, D, x) - 1)
                 else if D[x] == L - 1 then |Part(p, D, L, x, z + 1)|
                 else 0
    {
      if D[x] == L - 1 {
        PartStep(p, D, L, x, z);
      }
    }
  }

  /** Zero counts before the deepest level form the first level invariant. */
  lemma LevelStart(p: seq<int>, D: seq<nat>, t: seq<int>, maxlevel: nat)
    requires Levelled(p, D) && |t| == |p|
    requires forall x :: 0 <= x < |p| ==> D[x] <= maxlevel && t[x] == 0
    ensures LevelInv(p, D, t, maxlevel)
  {
    forall x | 0 <= x < |p| && D[x] == maxlevel
      ensures Size(p, D, x) == 1
    {
      Leaf(p, D, x);
    }
  }

  /** After the pass over level 1 only node 0 misses itself, and setting
      its count to the number of nodes completes it. */
  lemma LevelEnd(p: seq<int>, D: seq<nat>, t: seq<int>)
    requires Levelled(p, D) && LevelInv(p, D, t, 0)
    ensures forall x :: 0 <= x < |p| ==> t[0 := |p|][x] == |Sub(p, D, x)|
  {
    forall x | 0 <= x < |p|
      ensures t[0 := |p|][x] == |Sub(p, D, x)|
    {
      if x == 0 {
        SubRoot(p, D);
        RangeCard(|p|);
      } else {
        assert 0 <= p[x] < |p| && D[x] == D[p[x]] + 1;
      }
    }
  }

  /** Node z of the pass over level L, as setBasis treats it. */
  method PassNode(p: seq<int>, depth: seq<int>, t: seq<int>, L: int, z: int) returns (t2: seq<int>)
    requires Layered(p, depth) && L >= 1 && 0 <= z < |p|
    requires Levelled(p, AsRank(depth)) && PassInv(p, AsRank(depth), t, L, z)
    ensures PassInv(p, AsRank(depth), t2, L, z + 1)
  {
    ghost var D := AsRank(depth);
    t2 := t;
    if depth[z] == L {
      PassAt(p, D, t, L, z);
      t2 := t2[z := t2[z] + 1];
      t2 := t2[p[z] := t2[p[z]] + t2[z]];
    } else {
      PassOver(p, D, t, L, z);
    }
  }

  /** One pass of setBasis's level loop: every node at level L adds one
      (itself) to its own count and then its finished count to its
      parent's. */
  method LevelPass(p: seq<int>, depth: seq<int>, t0: seq<int>, L: int) returns (t: seq<int>)
    requires Layered(p, depth) && L >= 1 && Levelled(p, AsRank(depth)) && LevelInv(p, AsRank(depth), t0, L)
    ensures LevelInv(p, AsRank(depth), t, L - 1)
  {
    PassStart(p, AsRank(depth), t0, L);
    t := t0;
    var node := 0;
    while node < |p|
      invariant 0 <= node <= |p| && PassInv(p, AsRank(depth), t, L, node)
    {
      t := PassNode(p, depth, t, L, node);
      node := node + 1;
    }
    PassEnd(p, AsRank(depth), t, L);
  }

  /** setBasis's subtree sizes: every node of the layered tree gets the
      number of nodes in its subtree, so together with p they encode the
      tree. */
  method SubtreeSizes(p: seq<int>, depth: seq<int>) returns (t: seq<int>)
    requires Layered(p, depth)
    ensures |t| == |p|
    ensures forall x :: 0 <= x < |p| ==> t[x] == |Sub(p, AsRank(depth), x)|
    ensures TreeEncoding(p, t)
  {
    LayeredLevelled(p, depth);
    var maxlevel := 0;
    t := [];
    var node := 0;
    while node < |p|
      invariant 0 <= node <= |p| && 0 <= maxlevel && |t| == node
      invariant forall x :: 0 <= x < node ==> depth[x] <= maxlevel && t[x] == 0
    {
      if depth[node] > maxlevel {
        maxlevel := depth[node];
      }
      t := t + [0];
      node := node + 1;
    }
    LevelStart(p, AsRank(depth), t, maxlevel);
    var level := maxlevel;
    while level > 0
      invariant 0 <= level && LevelInv(p, AsRank(depth), t, level)
    {
      t := LevelPass(p, depth, t, level);
      level := level - 1;
    }
    LevelEnd(p, AsRank(depth), t);
    t := t[0 := |p|];
    EncodingOfSizes(p, AsRank(depth), t);
  }
}
