/** The undirected graph a set of arcs spans on the nodes of an instance:
    walks along arcs of the set and the connectivity they define. */
module ArcGraph {
  import opened FctpData

  /** x and y are a supplier and a customer joined by an arc of E. */
  ghost predicate Link(inst: Instance, E: set<int>, x: int, y: int) {
    Adjacent(inst, x, y) && ArcBetween(inst, x, y) in E
  }

  /** w is a walk along arcs of E. */
  ghost predicate IsWalk(inst: Instance, E: set<int>, w: seq<int>) {
    && |w| >= 1
    && (forall i :: 0 <= i < |w| ==> 0 <= w[i] < inst.m + inst.n)
    && (forall i :: 0 <= i < |w| - 1 ==> Link(inst, E, w[i], w[i + 1]))
  }

  /** Some walk along arcs of E leads from x to y. */
  ghost predicate Connected(inst: Instance, E: set<int>, x: int, y: int) {
    exists w :: IsWalk(inst, E, w) && w[0] == x && w[|w| - 1] == y
  }

  lemma ConnectedRefl(inst: Instance, E: set<int>, x: int)
    requires 0 <= x < inst.m + inst.n
    ensures Connected(inst, E, x, x)
  {
    assert IsWalk(inst, E, [x]);
  }

  lemma LinkSym(inst: Instance, E: set<int>, x: int, y: int)
    requires inst.m >= 1 && inst.n >= 1 && Link(inst, E, x, y)
    ensures Link(inst, E, y, x)
  {
    ArcBetweenEnds(inst, x, y);
  }

  /** An arc of E joins its two ends. */
  lemma ConnectedArc(inst: Instance, E: set<int>, a: int)
    requires inst.m >= 1 && inst.n >= 1 && 0 <= a < inst.m * inst.n && a in E
    ensures Connected(inst, E, Tail(inst, a), Head(inst, a))
    ensures Connected(inst, E, Head(inst, a), Tail(inst, a))
  {
    var t, h := Tail(inst, a), Head(inst, a);
    assert Adjacent(inst, t, h);
    ArcBetweenUnique(inst, t, h, a);
    ArcBetweenUnique(inst, h, t, a);
    assert IsWalk(inst, E, [t, h]);
    assert IsWalk(inst, E, [h, t]);
  }

  lemma ConnectedSym(inst: Instance, E: set<int>, x: int, y: int)
    requires inst.m >= 1 && inst.n >= 1 && Connected(inst, E, x, y)
    ensures Connected(inst, E, y, x)
  {
    var w :| IsWalk(inst, E, w) && w[0] == x && w[|w| - 1] == y;
    var rw := seq(|w|, i requires 0 <= i < |w| => w[|w| - 1 - i]);
    forall i | 0 <= i < |rw| - 1
      ensures Link(inst, E, rw[i], rw[i + 1])
    {
      LinkSym(inst, E, w[|w| - 2 - i], w[|w| - 1 - i]);
    }
    assert IsWalk(inst, E, rw);
  }

  lemma ConnectedTrans(inst: Instance, E: set<int>, x: int, y: int, z: int)
    requires Connected(inst, E, x, y) && Connected(inst, E, y, z)
    ensures Connected(inst, E, x, z)
  {
    var w1 :| IsWalk(inst, E, w1) && w1[0] == x && w1[|w1| - 1] == y;
    var w2 :| IsWalk(inst, E, w2) && w2[0] == y && w2[|w2| - 1] == z;
    var w := w1 + w2[1..];
    forall i | 0 <= i < |w| - 1
      ensures Link(inst, E, w[i], w[i + 1])
    {
      if i < |w1| - 1 {
        assert Link(inst, E, w1[i], w1[i + 1]);
      } else {
        assert Link(inst, E, w2[i - |w1| + 1], w2[i - |w1| + 2]);
      }
    }
    assert IsWalk(inst, E, w);
  }

  /** More arcs connect at least as much. */
  lemma ConnectedMono(inst: Instance, E: set<int>, E2: set<int>, x: int, y: int)
    requires E <= E2 && Connected(inst, E, x, y)
    ensures Connected(inst, E2, x, y)
  {
    var w :| IsWalk(inst, E, w) && w[0] == x && w[|w| - 1] == y;
    assert IsWalk(inst, E2, w);
  }

  /** A labelling that gives both ends of every arc of E the same label is
      constant on every walk along E. */
  lemma {:induction false} WalkLabel(inst: Instance, E: set<int>, lab: seq<int>, w: seq<int>)
    requires inst.m >= 1 && inst.n >= 1 && |lab| == inst.m + inst.n && IsWalk(inst, E, w)
    requires forall a :: a in E ==> 0 <= a < inst.m * inst.n && lab[Tail(inst, a)] == lab[Head(inst, a)]
    ensures lab[w[0]] == lab[w[|w| - 1]]
    decreases |w|
  {
    if |w| > 1 {
      assert IsWalk(inst, E, w[1..]);
      WalkLabel(inst, E, lab, w[1..]);
      ArcBetweenEnds(inst, w[0], w[1]);
    }
  }

  lemma ConnectedLabel(inst: Instance, E: set<int>, lab: seq<int>, x: int, y: int)
    requires inst.m >= 1 && inst.n >= 1 && |lab| == inst.m + inst.n && Connected(inst, E, x, y)
    requires forall a :: a in E ==> 0 <= a < inst.m * inst.n && lab[Tail(inst, a)] == lab[Head(inst, a)]
    ensures lab[x] == lab[y]
  {
    var w :| IsWalk(inst, E, w) && w[0] == x && w[|w| - 1] == y;
    WalkLabel(inst, E, lab, w);
  }

  /** Without arcs, a node is connected only to itself. */
  lemma ConnectedEmpty(inst: Instance, x: int, y: int)
    requires Connected(inst, {}, x, y)
    ensures x == y
  {
    var w :| IsWalk(inst, {}, w) && w[0] == x && w[|w| - 1] == y;
    if |w| > 1 {
      NoLinkInEmpty(inst, w[0], w[1]);
      assert false;
    }
  }

  lemma NoLinkInEmpty(inst: Instance, x: int, y: int)
    ensures !Link(inst, {}, x, y)
  {
  }

  /** A walk along E and one more arc e between two nodes that E does not
      connect reaches exactly one end of e from its start along E. */
  lemma OneEndReached(inst: Instance, E: set<int>, e: int, x: int, y: int)
    requires inst.m >= 1 && inst.n >= 1 && 0 <= e < inst.m * inst.n
    requires forall a :: a in E ==> 0 <= a < inst.m * inst.n
    requires Connected(inst, E + {e}, x, y) && !Connected(inst, E, x, y)
    ensures Connected(inst, E, x, Tail(inst, e)) != Connected(inst, E, x, Head(inst, e))
  {
    var w :| IsWalk(inst, E + {e}, w) && w[0] == x && w[|w| - 1] == y;
    var lab := seq(inst.m + inst.n, v => if Connected(inst, E, x, v) then 0 else 1);
    forall a | a in E
      ensures lab[Tail(inst, a)] == lab[Head(inst, a)]
    {
      var t, h := Tail(inst, a), Head(inst, a);
      ConnectedArc(inst, E, a);
      if Connected(inst, E, x, t) {
        ConnectedTrans(inst, E, x, t, h);
      }
      if Connected(inst, E, x, h) {
        ConnectedTrans(inst, E, x, h, t);
      }
    }
    ConnectedRefl(inst, E, x);
    assert lab[x] == 0 && lab[y] == 1;
    if lab[Tail(inst, e)] == lab[Head(inst, e)] {
      ConnectedLabel(inst, E + {e}, lab, x, y);
    }
  }

  /** Splitting a walk at the added arc: if E + {e} connects x and y but E
      does not, then E joins x to one end of e and the other end to y. */
  lemma ConnectedSplit(inst: Instance, E: set<int>, e: int, x: int, y: int)
    requires inst.m >= 1 && inst.n >= 1 && 0 <= e < inst.m * inst.n
    requires forall a :: a in E ==> 0 <= a < inst.m * inst.n
    requires Connected(inst, E + {e}, x, y) && !Connected(inst, E, x, y)
    ensures var t, h := Tail(inst, e), Head(inst, e);
      || (Connected(inst, E, x, t) && Connected(inst, E, h, y))
      || (Connected(inst, E, x, h) && Connected(inst, E, t, y))
  {
    var t, h := Tail(inst, e), Head(inst, e);
    OneEndReached(inst, E, e, x, y);
    ConnectedSym(inst, E + {e}, x, y);
    if Connected(inst, E, y, x) {
      ConnectedSym(inst, E, y, x);
    }
    OneEndReached(inst, E, e, y, x);
    if Connected(inst, E, x, t) && Connected(inst, E, y, t) {
      ConnectedSym(inst, E, y, t);
      ConnectedTrans(inst, E, x, t, y);
    }
    if Connected(inst, E, x, h) && Connected(inst, E, y, h) {
      ConnectedSym(inst, E, y, h);
      ConnectedTrans(inst, E, x, h, y);
    }
    if Connected(inst, E, y, h) {
      ConnectedSym(inst, E, y, h);
    }
    if Connected(inst, E, y, t) {
      ConnectedSym(inst, E, y, t);
    }
  }

  /** No arc of E joins two nodes that the other arcs of E connect: E is a
      forest, whatever order its arcs are taken in. */
  ghost predicate Acyclic(inst: Instance, E: set<int>)
    requires inst.n >= 1
  {
    forall a :: a in E ==>
      0 <= a < inst.m * inst.n && !Connected(inst, E - {a}, Tail(inst, a), Head(inst, a))
  }

  /** An arc between two nodes that a forest does not connect yet keeps it
      a forest. */
  lemma AcyclicAdd(inst: Instance, E: set<int>, e: int)
    requires inst.m >= 1 && inst.n >= 1 && Acyclic(inst, E) && 0 <= e < inst.m * inst.n && e !in E
    requires !Connected(inst, E, Tail(inst, e), Head(inst, e))
    ensures Acyclic(inst, E + {e})
  {
    var te, he := Tail(inst, e), Head(inst, e);
    forall a | a in E + {e}
      ensures 0 <= a < inst.m * inst.n && !Connected(inst, E + {e} - {a}, Tail(inst, a), Head(inst, a))
    {
      if a == e {
        assert E + {e} - {a} == E;
      } else {
        var F := E - {a};
        var ta, ha := Tail(inst, a), Head(inst, a);
        assert E + {e} - {a} == F + {e};
        if Connected(inst, F + {e}, ta, ha) {
          ConnectedSplit(inst, F, e, ta, ha);
          ConnectedArc(inst, E, a);
          if Connected(inst, F, ta, te) && Connected(inst, F, he, ha) {
            ConnectedMono(inst, F, E, ta, te);
            ConnectedMono(inst, F, E, he, ha);
            ConnectedSym(inst, E, ta, te);
            ConnectedTrans(inst, E, te, ta, ha);
            ConnectedSym(inst, E, he, ha);
            ConnectedTrans(inst, E, te, ha, he);
          } else {
            ConnectedMono(inst, F, E, ta, he);
            ConnectedMono(inst, F, E, te, ha);
            ConnectedTrans(inst, E, te, ha, ta);
            ConnectedTrans(inst, E, te, ta, he);
          }
          assert false;
        }
      }
    }
  }
}
