/** The union-find forest setBasis uses to detect cycles: father[x] is x's
    father, or negative when x is the root of its tree, and size[t] the
    node count of the tree rooted at t.  A ghost rank, growing towards the
    roots and bounded by B, shows that following fathers ends at a root. */
module UnionFind {
  import opened Trees

  /** father is a forest ranked by rk: every father has a higher rank. */
  ghost predicate Forest(father: seq<int>, rk: seq<nat>, B: nat) {
    && |rk| == |father|
    && forall x :: 0 <= x < |father| ==>
         rk[x] <= B && (father[x] >= 0 ==> father[x] < |father| && rk[x] < rk[father[x]])
  }

  /** The root of x's tree. */
  ghost function Root(father: seq<int>, rk: seq<nat>, B: nat, x: int): (root: int)
    requires Forest(father, rk, B) && 0 <= x < |father|
    ensures 0 <= root < |father| && father[root] < 0
    decreases B - rk[x]
  {
    if father[x] < 0 then x else Root(father, rk, B, father[x])
  }

  /** The nodes from x up to its root, x first. */
  ghost function Up(father: seq<int>, rk: seq<nat>, B: nat, x: int): (w: seq<int>)
    requires Forest(father, rk, B) && 0 <= x < |father|
    ensures |w| >= 1 && w[0] == x
    decreases B - rk[x]
  {
    if father[x] < 0 then [x] else [x] + Up(father, rk, B, father[x])
  }

  /** The roots of the forest. */
  ghost function Roots(father: seq<int>): set<int> {
    set x | 0 <= x < |father| && father[x] < 0
  }

  /** Every node of x's way up lies in range, shares x's root and, unless
      it is the root, has a lower rank than the root. */
  lemma {:induction false} UpFacts(father: seq<int>, rk: seq<nat>, B: nat, x: int, y: int)
    requires Forest(father, rk, B) && 0 <= x < |father| && y in Up(father, rk, B, x)
    ensures 0 <= y < |father| && Root(father, rk, B, y) == Root(father, rk, B, x)
    ensures father[y] >= 0 ==> rk[y] < rk[Root(father, rk, B, x)]
    decreases B - rk[x]
  {
    if father[x] >= 0 && y != x {
      UpFacts(father, rk, B, father[x], y);
    }
    if father[x] >= 0 && y == x {
      RootAbove(father, rk, B, father[x]);
    }
  }

  lemma {:induction false} RootAbove(father: seq<int>, rk: seq<nat>, B: nat, x: int)
    requires Forest(father, rk, B) && 0 <= x < |father|
    ensures rk[x] <= rk[Root(father, rk, B, x)]
    decreases B - rk[x]
  {
    if father[x] >= 0 {
      RootAbove(father, rk, B, father[x]);
    }
  }

  /** Re-pointing nodes straight at their roots keeps the forest and every
      node's root. */
  lemma {:induction false} RepointKeepsRoots(father: seq<int>, f2: seq<int>, rk: seq<nat>, B: nat, x: int)
    requires Forest(father, rk, B) && |f2| == |father|
    requires forall y :: 0 <= y < |father| ==>
      f2[y] == father[y] || (father[y] >= 0 && f2[y] == Root(father, rk, B, y))
    requires 0 <= x < |father|
    ensures Forest(f2, rk, B)
    ensures Root(f2, rk, B, x) == Root(father, rk, B, x)
    decreases B - rk[x]
  {
    RepointForest(father, f2, rk, B);
    if f2[x] >= 0 {
      if f2[x] == father[x] {
        RepointKeepsRoots(father, f2, rk, B, father[x]);
      } else {
        var root := Root(father, rk, B, x);
        assert f2[root] == father[root];
        assert Root(f2, rk, B, root) == root;
      }
    }
  }

  lemma RepointForest(father: seq<int>, f2: seq<int>, rk: seq<nat>, B: nat)
    requires Forest(father, rk, B) && |f2| == |father|
    requires forall y :: 0 <= y < |father| ==>
      f2[y] == father[y] || (father[y] >= 0 && f2[y] == Root(father, rk, B, y))
    ensures Forest(f2, rk, B)
    ensures Roots(f2) == Roots(father)
  {
    forall y | 0 <= y < |father| && f2[y] >= 0
      ensures f2[y] < |f2| && rk[y] < rk[f2[y]]
    {
      if f2[y] != father[y] {
        UpFacts(father, rk, B, y, y);
      }
    }
  }

  /** Java's FindTree: walk up to the root, then walk the same way again
      pointing every node on it straight at the root. */
  method FindTree(node: int, father: seq<int>, ghost rk: seq<nat>, ghost B: nat)
    returns (root: int, f2: seq<int>)
    requires Forest(father, rk, B) && 0 <= node < |father|
    ensures root == Root(father, rk, B, node) && father[root] < 0
    ensures |f2| == |father| && Forest(f2, rk, B) && Roots(f2) == Roots(father)
    ensures forall y :: 0 <= y < |father| ==> Root(f2, rk, B, y) == Root(father, rk, B, y)
    ensures forall y :: 0 <= y < |father| ==>
      f2[y] == if y in Up(father, rk, B, node) && father[y] >= 0 then root else father[y]
  {
    root := node;
    while father[root] >= 0
      invariant 0 <= root < |father| && Root(father, rk, B, root) == Root(father, rk, B, node)
      decreases B - rk[root]
    {
      root := father[root];
    }
    ghost var W := Up(father, rk, B, node);
    f2 := father;
    var x := node;
    ghost var i := 0;
    while f2[x] >= 0
      invariant 0 <= i < |W| && x == W[i] && |f2| == |father| && 0 <= x < |father|
      invariant W[i..] == Up(father, rk, B, x)
      invariant x !in W[..i]
      invariant forall y :: 0 <= y < |father| ==>
        f2[y] == if y in W[..i] && father[y] >= 0 then root else father[y]
      decreases |W| - i
    {
      UpFacts(father, rk, B, node, x);
      var pred := f2[x];
      f2 := f2[x := root];
      x := pred;
      assert W[i..] == [W[i]] + W[i + 1..];
      i := i + 1;
      assert W[..i] == W[..i - 1] + [W[i - 1]];
      UpDistinct(father, rk, B, node, i);
    }
    assert W == W[..i] + W[i..];
    assert W[i..] == [x];
    forall y | 0 <= y < |father|
      ensures f2[y] == father[y] || (father[y] >= 0 && f2[y] == Root(father, rk, B, y))
    {
      if y in W && father[y] >= 0 {
        UpFacts(father, rk, B, node, y);
      }
    }
    RepointForest(father, f2, rk, B);
    forall y | 0 <= y < |father|
      ensures Root(f2, rk, B, y) == Root(father, rk, B, y)
    {
      RepointKeepsRoots(father, f2, rk, B, y);
    }
  }

  /** The way up never revisits a node. */
  lemma {:induction false} UpDistinct(father: seq<int>, rk: seq<nat>, B: nat, x: int, i: int)
    requires Forest(father, rk, B) && 0 <= x < |father|
    requires 0 <= i < |Up(father, rk, B, x)|
    ensures Up(father, rk, B, x)[i] !in Up(father, rk, B, x)[..i]
    decreases B - rk[x]
  {
    var W := Up(father, rk, B, x);
    if i > 0 {
      UpDistinct(father, rk, B, father[x], i - 1);
      assert W[..i] == [x] + Up(father, rk, B, father[x])[..i - 1];
      UpRanks(father, rk, B, father[x], i - 1);
    }
  }

  lemma {:induction false} UpRanks(father: seq<int>, rk: seq<nat>, B: nat, x: int, i: int)
    requires Forest(father, rk, B) && 0 <= x < |father|
    requires 0 <= i < |Up(father, rk, B, x)|
    ensures 0 <= Up(father, rk, B, x)[i] < |father| && rk[x] <= rk[Up(father, rk, B, x)[i]]
    decreases B - rk[x]
  {
    if i > 0 {
      UpRanks(father, rk, B, father[x], i - 1);
    }
  }

  /** The nodes whose root is t. */
  ghost function Component(father: seq<int>, rk: seq<nat>, B: nat, t: int): set<int>
    requires Forest(father, rk, B)
  {
    set y | 0 <= y < |father| && Root(father, rk, B, y) == t
  }

  /** size[t] counts the nodes of the tree rooted at t. */
  ghost predicate Counted(father: seq<int>, rk: seq<nat>, B: nat, size: seq<int>)
    requires Forest(father, rk, B)
  {
    |size| == |father| &&
    forall t :: 0 <= t < |father| && father[t] < 0 ==> size[t] == |Component(father, rk, B, t)|
  }

  /** The tree of which a root is the root of the merged tree. */
  function Keeper(size: seq<int>, t1: int, t2: int): int
    requires 0 <= t1 < |size| && 0 <= t2 < |size|
  {
    if size[t1] < size[t2] then t2 else t1
  }

  /** Java's MergeTrees: the root of the smaller tree becomes a child of the
      root of the bigger one, whose size grows by the other's. */
  method MergeTrees(t1: int, t2: int, size: seq<int>, father: seq<int>, ghost rk: seq<nat>, ghost B: nat)
    returns (size2: seq<int>, f2: seq<int>, ghost rk2: seq<nat>)
    requires Forest(father, rk, B) && Counted(father, rk, B, size)
    requires 0 <= t1 < |father| && 0 <= t2 < |father| && t1 != t2
    requires father[t1] < 0 && father[t2] < 0
    ensures var a := Keeper(size, t1, t2); var b := if a == t1 then t2 else t1;
      && size[b] <= size[a] && (size[t1] == size[t2] ==> a == t1)
      && size2 == size[a := size[a] + size[b]] && f2 == father[b := a]
      && Roots(f2) == Roots(father) - {b}
    ensures var a := Keeper(size, t1, t2); var b := if a == t1 then t2 else t1;
      && Forest(f2, rk2, B + 1) && Counted(f2, rk2, B + 1, size2)
      && forall y :: 0 <= y < |father| ==>
           Root(f2, rk2, B + 1, y) == if Root(father, rk, B, y) == b then a else Root(father, rk, B, y)
  {
    var a, b := t1, t2;
    if size[t1] < size[t2] {
      a, b := t2, t1;
    }
    size2 := size[a := size[a] + size[b]];
    f2 := father[b := a];
    rk2 := rk[a := if rk[a] <= rk[b] then rk[b] + 1 else rk[a]];
    assert Forest(f2, rk2, B + 1);
    forall y | 0 <= y < |father|
      ensures Root(f2, rk2, B + 1, y) == if Root(father, rk, B, y) == b then a else Root(father, rk, B, y)
    {
      MergeRoot(father, rk, B, a, b, rk2, y);
    }
    assert Roots(f2) == Roots(father) - {b};
    MergeCounted(father, rk, B, size, a, b, f2, rk2, size2);
  }

  lemma {:induction false} MergeRoot(father: seq<int>, rk: seq<nat>, B: nat, a: int, b: int, rk2: seq<nat>, y: int)
    requires Forest(father, rk, B) && 0 <= a < |father| && 0 <= b < |father| && a != b
    requires father[a] < 0 && father[b] < 0
    requires Forest(father[b := a], rk2, B + 1) && 0 <= y < |father|
    ensures Root(father[b := a], rk2, B + 1, y) == if Root(father, rk, B, y) == b then a else Root(father, rk, B, y)
    decreases B - rk[y]
  {
    var f2 := father[b := a];
    if father[y] >= 0 {
      MergeRoot(father, rk, B, a, b, rk2, father[y]);
    } else if y == b {
      assert Root(f2, rk2, B + 1, a) == a;
    }
  }

  lemma MergeCounted(father: seq<int>, rk: seq<nat>, B: nat, size: seq<int>, a: int, b: int,
                     f2: seq<int>, rk2: seq<nat>, size2: seq<int>)
    requires Forest(father, rk, B) && Counted(father, rk, B, size)
    requires 0 <= a < |father| && 0 <= b < |father| && a != b && father[a] < 0 && father[b] < 0
    requires f2 == father[b := a] && size2 == size[a := size[a] + size[b]] && Forest(f2, rk2, B + 1)
    requires forall y :: 0 <= y < |father| ==>
      Root(f2, rk2, B + 1, y) == if Root(father, rk, B, y) == b then a else Root(father, rk, B, y)
    ensures Counted(f2, rk2, B + 1, size2)
  {
    forall t | 0 <= t < |f2| && f2[t] < 0
      ensures size2[t] == |Component(f2, rk2, B + 1, t)|
    {
      if t == a {
        assert Component(f2, rk2, B + 1, a) == Component(father, rk, B, a) + Component(father, rk, B, b);
      } else {
        assert Component(f2, rk2, B + 1, t) == Component(father, rk, B, t);
      }
    }
  }

  /** A forest with the same roots for every node has the same trees, so
      the sizes still count them; this is how FindTree keeps them. */
  lemma SameRootsCounted(father: seq<int>, f2: seq<int>, rk: seq<nat>, B: nat, size: seq<int>)
    requires Forest(father, rk, B) && Forest(f2, rk, B) && |f2| == |father|
    requires Counted(father, rk, B, size) && Roots(f2) == Roots(father)
    requires forall y :: 0 <= y < |father| ==> Root(f2, rk, B, y) == Root(father, rk, B, y)
    ensures Counted(f2, rk, B, size)
  {
    forall t | 0 <= t < |f2| && f2[t] < 0
      ensures size[t] == |Component(f2, rk, B, t)|
    {
      assert t in Roots(f2);
      assert Component(f2, rk, B, t) == Component(father, rk, B, t);
    }
  }

  /** Every node alone in its own tree: how setBasis starts. */
  lemma Singletons(N: nat)
    ensures Forest(seq(N, _ => -1), seq(N, _ => 0), 0)
    ensures Counted(seq(N, _ => -1), seq(N, _ => 0), 0, seq(N, _ => 1))
    ensures |Roots(seq(N, _ => -1))| == N
  {
    var f: seq<int> := seq(N, _ => -1);
    var rk: seq<nat> := seq(N, _ => 0);
    forall t | 0 <= t < N
      ensures 1 == |Component(f, rk, 0, t)|
    {
      assert Component(f, rk, 0, t) == {t};
    }
    forall x ensures x in Roots(f) <==> x in Range(N) { RangeMem(N, x); }
    assert Roots(f) == Range(N);
    RangeCard(N);
  }
}
