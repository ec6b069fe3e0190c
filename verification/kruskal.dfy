/** The first half of setBasis: choosing the basic arcs.  Arcs carrying
    flow become basic one by one while the union-find forest shows that they
    close no cycle; then arcs at zero join the remaining trees until a
    single tree spans all nodes. */
module Kruskal {
  import opened FctpData
  import opened Solution
  import opened UnionFind
  import opened ArcGraph
  import opened Trees

  /** The arcs before a that carry flow. */
  ghost function FlowArcsBefore(flow: seq<int>, a: int): set<int> {
    set b | 0 <= b < a && b < |flow| && flow[b] != 0
  }

  /** No arc carrying flow joins two nodes that the arcs with flow before it
      already connect: the arcs with flow form a forest. */
  ghost predicate FlowForestUpTo(inst: Instance, flow: seq<int>, k: int)
    requires inst.n >= 1
  {
    forall a :: 0 <= a < k && a < |flow| && flow[a] != 0 ==>
      !Connected(inst, FlowArcsBefore(flow, a), Tail(inst, a), Head(inst, a))
  }

  ghost predicate FlowForest(inst: Instance, flow: seq<int>)
    requires inst.n >= 1
  {
    FlowForestUpTo(inst, flow, |flow|)
  }

  /** Arcs with flow that form a forest in any order form one in index
      order too. */
  lemma AcyclicFlowForest(inst: Instance, flow: seq<int>)
    requires inst.m >= 1 && inst.n >= 1 && |flow| == inst.m * inst.n
    requires Acyclic(inst, FlowArcsBefore(flow, |flow|))
    ensures FlowForest(inst, flow)
  {
    var S := FlowArcsBefore(flow, |flow|);
    forall a | 0 <= a < |flow| && a < |flow| && flow[a] != 0
      ensures !Connected(inst, FlowArcsBefore(flow, a), Tail(inst, a), Head(inst, a))
    {
      assert a in S;
      assert FlowArcsBefore(flow, a) <= S - {a};
      if Connected(inst, FlowArcsBefore(flow, a), Tail(inst, a), Head(inst, a)) {
        ConnectedMono(inst, FlowArcsBefore(flow, a), S - {a}, Tail(inst, a), Head(inst, a));
      }
    }
  }

  /** The basic arcs of a status array. */
  ghost function Basics(st: seq<Status>): set<int> {
    set a | 0 <= a < |st| && st[a] == Basic
  }

  /** What the union-find state of setBasis knows about the chosen arcs E:
      one tree per connected component, ntrees trees and numbv arcs. */
  ghost predicate KState(inst: Instance, E: set<int>, father: seq<int>, size: seq<int>,
                         ntrees: int, numbv: int, rk: seq<nat>, B: nat)
  {
    && inst.m >= 1 && inst.n >= 1
    && |father| == inst.m + inst.n && Forest(father, rk, B) && Counted(father, rk, B, size)
    && ntrees == |Roots(father)| && numbv == |E| && numbv + ntrees == inst.m + inst.n
    && (forall a :: a in E ==>
          0 <= a < inst.m * inst.n && Root(father, rk, B, Tail(inst, a)) == Root(father, rk, B, Head(inst, a)))
    && (forall x :: 0 <= x < |father| ==> Connected(inst, E, x, Root(father, rk, B, x)))
  }

  /** The roots as a labelling of the nodes. */
  ghost function RootLabels(father: seq<int>, rk: seq<nat>, B: nat): (lab: seq<int>)
    requires Forest(father, rk, B)
    ensures |lab| == |father|
    ensures forall y :: 0 <= y < |father| ==> lab[y] == Root(father, rk, B, y)
  {
    seq(|father|, y requires 0 <= y < |father| => Root(father, rk, B, y))
  }

  /** Two nodes share a root exactly when the chosen arcs connect them. */
  lemma SameTreeIffConnected(inst: Instance, E: set<int>, father: seq<int>, size: seq<int>,
                             ntrees: int, numbv: int, rk: seq<nat>, B: nat, x: int, y: int)
    requires KState(inst, E, father, size, ntrees, numbv, rk, B)
    requires 0 <= x < |father| && 0 <= y < |father|
    ensures Root(father, rk, B, x) == Root(father, rk, B, y) <==> Connected(inst, E, x, y)
  {
    if Root(father, rk, B, x) == Root(father, rk, B, y) {
      ConnectedSym(inst, E, y, Root(father, rk, B, y));
      ConnectedTrans(inst, E, x, Root(father, rk, B, x), y);
    }
    if Connected(inst, E, x, y) {
      ConnectedLabel(inst, E, RootLabels(father, rk, B), x, y);
    }
  }

  /** A forest has a tree, so fewer arcs than nodes have been chosen. */
  lemma SomeTree(inst: Instance, E: set<int>, father: seq<int>, size: seq<int>,
                 ntrees: int, numbv: int, rk: seq<nat>, B: nat)
    requires KState(inst, E, father, size, ntrees, numbv, rk, B)
    ensures ntrees >= 1 && numbv < inst.m + inst.n
  {
    assert Root(father, rk, B, 0) in Roots(father);
  }

  lemma StartState(inst: Instance)
    requires inst.m >= 1 && inst.n >= 1
    ensures var N := inst.m + inst.n;
      KState(inst, {}, seq(N, _ => -1), seq(N, _ => 1), N, 0, seq(N, _ => 0), 0)
  {
    var N := inst.m + inst.n;
    var f: seq<int> := seq(N, _ => -1);
    var rk: seq<nat> := seq(N, _ => 0);
    var E: set<int> := {};
    Singletons(N);
    forall x | 0 <= x < N
      ensures Connected(inst, E, x, Root(f, rk, 0, x))
    {
      ConnectedRefl(inst, E, x);
    }
  }

  /** Path compression leaves the state as it was. */
  lemma FindKeeps(inst: Instance, E: set<int>, father: seq<int>, f2: seq<int>, size: seq<int>,
                  ntrees: int, numbv: int, rk: seq<nat>, B: nat)
    requires KState(inst, E, father, size, ntrees, numbv, rk, B)
    requires |f2| == |father| && Forest(f2, rk, B) && Roots(f2) == Roots(father)
    requires forall y :: 0 <= y < |father| ==> Root(f2, rk, B, y) == Root(father, rk, B, y)
    ensures KState(inst, E, f2, size, ntrees, numbv, rk, B)
  {
    SameRootsCounted(father, f2, rk, B, size);
  }

  /** Choosing an arc between two trees merges them. */
  lemma MergeKeeps(inst: Instance, E: set<int>, father: seq<int>, size: seq<int>,
                   ntrees: int, numbv: int, rk: seq<nat>, B: nat,
                   a: int, f2: seq<int>, size2: seq<int>, rk2: seq<nat>, B2: nat, b: int)
    requires KState(inst, E, father, size, ntrees, numbv, rk, B) && B2 == B + 1
    requires 0 <= a < inst.m * inst.n && a !in E
    requires Root(father, rk, B, Tail(inst, a)) != Root(father, rk, B, Head(inst, a))
    requires |f2| == |father| && Forest(f2, rk2, B2) && Counted(f2, rk2, B2, size2)
    requires b in Roots(father) && Roots(f2) == Roots(father) - {b}
    requires MergedRoots(inst, father, rk, B, f2, rk2, B2, a)
    ensures KState(inst, E + {a}, f2, size2, ntrees - 1, numbv + 1, rk2, B2)
  {
    assert |Roots(f2)| == |Roots(father)| - 1;
    MergeArcsAgree(inst, E, father, rk, B, a, f2, rk2, B2);
    MergeConnects(inst, E, father, size, ntrees, numbv, rk, B, a, f2, rk2, B2);
  }

  /** After the merge of the trees of a's ends, the trees of a's ends have
      one root, one of the two old ones, and every other node keeps its root. */
  ghost predicate MergedRoots(inst: Instance, father: seq<int>, rk: seq<nat>, B: nat,
                              f2: seq<int>, rk2: seq<nat>, B2: nat, a: int)
    requires Forest(father, rk, B) && Forest(f2, rk2, B2) && |f2| == |father|
    requires inst.m >= 1 && inst.n >= 1 && |father| == inst.m + inst.n && 0 <= a < inst.m * inst.n
  {
    var rt, rh := Root(father, rk, B, Tail(inst, a)), Root(father, rk, B, Head(inst, a));
    var top := Root(f2, rk2, B2, Tail(inst, a));
    && top in {rt, rh}
    && forall y :: 0 <= y < |father| ==>
         Root(f2, rk2, B2, y) == if Root(father, rk, B, y) in {rt, rh} then top else Root(father, rk, B, y)
  }

  lemma MergeArcsAgree(inst: Instance, E: set<int>, father: seq<int>, rk: seq<nat>, B: nat,
                       a: int, f2: seq<int>, rk2: seq<nat>, B2: nat)
    requires inst.m >= 1 && inst.n >= 1 && |father| == inst.m + inst.n && Forest(father, rk, B)
    requires forall a2 :: a2 in E ==>
      0 <= a2 < inst.m * inst.n && Root(father, rk, B, Tail(inst, a2)) == Root(father, rk, B, Head(inst, a2))
    requires 0 <= a < inst.m * inst.n && |f2| == |father| && Forest(f2, rk2, B2)
    requires MergedRoots(inst, father, rk, B, f2, rk2, B2, a)
    ensures forall a2 :: a2 in E + {a} ==>
      0 <= a2 < inst.m * inst.n && Root(f2, rk2, B2, Tail(inst, a2)) == Root(f2, rk2, B2, Head(inst, a2))
  {
    var rt, rh := Root(father, rk, B, Tail(inst, a)), Root(father, rk, B, Head(inst, a));
    var top := Root(f2, rk2, B2, Tail(inst, a));
    assert forall y :: 0 <= y < |father| ==>
      Root(f2, rk2, B2, y) == if Root(father, rk, B, y) in {rt, rh} then top else Root(father, rk, B, y);
    forall a2 | a2 in E + {a}
      ensures 0 <= a2 < inst.m * inst.n && Root(f2, rk2, B2, Tail(inst, a2)) == Root(f2, rk2, B2, Head(inst, a2))
    {
    }
  }

  lemma MergeConnects(inst: Instance, E: set<int>, father: seq<int>, size: seq<int>,
                      ntrees: int, numbv: int, rk: seq<nat>, B: nat,
                      a: int, f2: seq<int>, rk2: seq<nat>, B2: nat)
    requires KState(inst, E, father, size, ntrees, numbv, rk, B)
    requires 0 <= a < inst.m * inst.n && |f2| == |father| && Forest(f2, rk2, B2)
    requires MergedRoots(inst, father, rk, B, f2, rk2, B2, a)
    ensures forall x :: 0 <= x < |f2| ==> Connected(inst, E + {a}, x, Root(f2, rk2, B2, x))
  {
    var E2 := E + {a};
    var t, h := Tail(inst, a), Head(inst, a);
    var rt, rh := Root(father, rk, B, t), Root(father, rk, B, h);
    var top := Root(f2, rk2, B2, t);
    var c := if top == rt then t else h;
    assert Connected(inst, E, c, top);
    forall x | 0 <= x < |f2|
      ensures Connected(inst, E2, x, Root(f2, rk2, B2, x))
    {
      var rx := Root(father, rk, B, x);
      if rx in {rt, rh} {
        var e := if rx == rt then t else h;
        assert Connected(inst, E, x, rx) && Connected(inst, E, e, rx);
        MergedConnected(inst, E, a, x, rx, e, c, top);
      } else {
        ConnectedMono(inst, E, E2, x, rx);
      }
    }
  }

  /** x reaches its old root rx, which the end e of the chosen arc a in its
      tree also reaches; e and the end c that reaches the merged root top
      are joined by a itself. */
  lemma MergedConnected(inst: Instance, E: set<int>, a: int, x: int, rx: int, e: int, c: int, top: int)
    requires inst.m >= 1 && inst.n >= 1 && 0 <= a < inst.m * inst.n
    requires e in {Tail(inst, a), Head(inst, a)} && c in {Tail(inst, a), Head(inst, a)}
    requires Connected(inst, E, x, rx) && Connected(inst, E, e, rx) && Connected(inst, E, c, top)
    ensures Connected(inst, E + {a}, x, top)
  {
    var E2 := E + {a};
    ConnectedArc(inst, E2, a);
    ConnectedMono(inst, E, E2, x, rx);
    ConnectedMono(inst, E, E2, e, rx);
    ConnectedMono(inst, E, E2, c, top);
    ConnectedSym(inst, E2, e, rx);
    ConnectedTrans(inst, E2, x, rx, e);
    if e != c {
      ConnectedTrans(inst, E2, x, e, c);
    }
    ConnectedTrans(inst, E2, x, c, top);
  }

  /** The roots of the trees holding the two ends of arc a; they agree
      exactly when the chosen arcs already connect the ends. */
  method FindEnds(inst: Instance, ghost E: set<int>, a: int, father: seq<int>, size: seq<int>,
                  ntrees: int, numbv: int, ghost rk: seq<nat>, ghost B: nat)
    returns (itree: int, jtree: int, f2: seq<int>)
    requires KState(inst, E, father, size, ntrees, numbv, rk, B) && 0 <= a < inst.m * inst.n
    ensures KState(inst, E, f2, size, ntrees, numbv, rk, B)
    ensures itree == Root(f2, rk, B, Tail(inst, a)) && jtree == Root(f2, rk, B, Head(inst, a))
    ensures 0 <= itree < |f2| && 0 <= jtree < |f2| && f2[itree] < 0 && f2[jtree] < 0
    ensures itree == jtree <==> Connected(inst, E, Tail(inst, a), Head(inst, a))
  {
    var t, h := Tail(inst, a), Head(inst, a);
    var f1;
    itree, f1 := FindTree(t, father, rk, B);
    FindKeeps(inst, E, father, f1, size, ntrees, numbv, rk, B);
    jtree, f2 := FindTree(h, f1, rk, B);
    FindKeeps(inst, E, f1, f2, size, ntrees, numbv, rk, B);
    SameTreeIffConnected(inst, E, f2, size, ntrees, numbv, rk, B, t, h);
  }

  /** Adds arc a, whose ends lie in different trees, to the chosen arcs:
      finds both roots (compressing paths) and merges the two trees. */
  method JoinEnds(inst: Instance, ghost E: set<int>, a: int, father: seq<int>, size: seq<int>,
                  ntrees: int, numbv: int, ghost rk: seq<nat>, ghost B: nat)
    returns (joined: bool, f2: seq<int>, size2: seq<int>, ghost rk2: seq<nat>, ghost B2: nat)
    requires KState(inst, E, father, size, ntrees, numbv, rk, B)
    requires 0 <= a < inst.m * inst.n && a !in E
    ensures joined <==> !Connected(inst, E, Tail(inst, a), Head(inst, a))
    ensures joined ==> KState(inst, E + {a}, f2, size2, ntrees - 1, numbv + 1, rk2, B2)
    ensures !joined ==> KState(inst, E, f2, size2, ntrees, numbv, rk2, B2)
  {
    var itree, jtree;
    itree, jtree, f2 := FindEnds(inst, E, a, father, size, ntrees, numbv, rk, B);
    joined := itree != jtree;
    size2, rk2, B2 := size, rk, B;
    if joined {
      var f3 := f2;
      size2, f2, rk2 := MergeTrees(itree, jtree, size, f3, rk, B);
      B2 := B + 1;
      var b := if Keeper(size, itree, jtree) == itree then jtree else itree;
      MergeKeeps(inst, E, f3, size, ntrees, numbv, rk, B, a, f2, size2, rk2, B2, b);
    }
  }

  lemma FlowArcsStep(flow: seq<int>, arc: int)
    requires 0 <= arc < |flow|
    ensures arc !in FlowArcsBefore(flow, arc)
    ensures FlowArcsBefore(flow, arc + 1) == FlowArcsBefore(flow, arc) + (if flow[arc] == 0 then {} else {arc})
  {
  }

  /** The forest condition extends over one more arc that closes no cycle. */
  lemma ForestStep(inst: Instance, flow: seq<int>, arc: int)
    requires inst.n >= 1 && 0 <= arc < |flow| && FlowForestUpTo(inst, flow, arc)
    requires flow[arc] != 0 ==> !Connected(inst, FlowArcsBefore(flow, arc), Tail(inst, arc), Head(inst, arc))
    ensures FlowForestUpTo(inst, flow, arc + 1)
  {
  }

  /** An arc with flow closing a cycle breaks the forest condition. */
  lemma ForestBroken(inst: Instance, flow: seq<int>, arc: int)
    requires inst.n >= 1 && 0 <= arc < |flow| && flow[arc] != 0
    requires Connected(inst, FlowArcsBefore(flow, arc), Tail(inst, arc), Head(inst, arc))
    ensures !FlowForest(inst, flow)
  {
  }

  lemma BasicsAre(flow: seq<int>, st: seq<Status>)
    requires |st| == |flow| && forall b :: 0 <= b < |st| ==> st[b] == if flow[b] == 0 then NonBas0 else Basic
    ensures Basics(st) == FlowArcsBefore(flow, |flow|)
  {
  }

  /** What the first loop of setBasis has established after the arcs
      before arc. */
  ghost predicate FlowLoop(inst: Instance, flow: seq<int>, arc: int, st: seq<Status>, father: seq<int>,
                           size: seq<int>, ntrees: int, numbv: int, rk: seq<nat>, B: nat)
  {
    && inst.m >= 1 && inst.n >= 1 && |flow| == inst.m * inst.n
    && 0 <= arc <= inst.m * inst.n && |st| == inst.m * inst.n
    && (forall b :: 0 <= b < arc ==> st[b] == if flow[b] == 0 then NonBas0 else Basic)
    && KState(inst, FlowArcsBefore(flow, arc), father, size, ntrees, numbv, rk, B)
    && FlowForestUpTo(inst, flow, arc)
  }

  lemma StartLoop(inst: Instance, flow: seq<int>, st: seq<Status>, father: seq<int>, size: seq<int>, rk: seq<nat>)
    requires inst.m >= 1 && inst.n >= 1 && |flow| == inst.m * inst.n && |st| == inst.m * inst.n
    requires var N := inst.m + inst.n; father == seq(N, _ => -1) && size == seq(N, _ => 1) && rk == seq(N, _ => 0)
    ensures FlowLoop(inst, flow, 0, st, father, size, inst.m + inst.n, 0, rk, 0)
  {
    StartState(inst);
    assert FlowArcsBefore(flow, 0) == {};
  }

  /** One pass of the first loop of setBasis, on arc. */
  method FlowArcStep(inst: Instance, flow: seq<int>, arc: int, st: seq<Status>, father: seq<int>,
                     size: seq<int>, ntrees: int, numbv: int, ghost rk: seq<nat>, ghost B: nat)
    returns (cycle: bool, st2: seq<Status>, f2: seq<int>, size2: seq<int>, ntrees2: int, numbv2: int,
             ghost rk2: seq<nat>, ghost B2: nat)
    requires FlowLoop(inst, flow, arc, st, father, size, ntrees, numbv, rk, B) && arc < |flow|
    ensures |st2| == |st|
    ensures cycle ==> !FlowForest(inst, flow)
    ensures !cycle ==> FlowLoop(inst, flow, arc + 1, st2, f2, size2, ntrees2, numbv2, rk2, B2)
  {
    ghost var E := FlowArcsBefore(flow, arc);
    FlowArcsStep(flow, arc);
    st2, f2, size2, ntrees2, numbv2, rk2, B2 := st, father, size, ntrees, numbv, rk, B;
    cycle := false;
    if flow[arc] == 0 {
      st2 := st[arc := NonBas0];
    } else {
      SomeTree(inst, E, father, size, ntrees, numbv, rk, B);
      cycle := numbv == inst.m + inst.n;
      numbv2 := numbv + 1;
      if !cycle {
        ntrees2 := ntrees - 1;
        st2 := st[arc := Basic];
        var joined;
        joined, f2, size2, rk2, B2 := JoinEnds(inst, E, arc, father, size, ntrees, numbv, rk, B);
        cycle := !joined;
      }
      if cycle {
        ForestBroken(inst, flow, arc);
      }
    }
    if !cycle {
      ForestStep(inst, flow, arc);
    }
  }

  /** The first loop of setBasis: an arc without flow becomes NONBAS0, an
      arc with flow BASIC; a cycle among the arcs with flow stops the
      construction.  ok tells whether the arcs with flow form a forest. */
  method AddFlowArcs(inst: Instance, flow: seq<int>, st0: seq<Status>)
    returns (ok: bool, st: seq<Status>, father: seq<int>, size: seq<int>, ntrees: int, numbv: int,
             ghost rk: seq<nat>, ghost B: nat)
    requires inst.m >= 1 && inst.n >= 1 && |flow| == inst.m * inst.n && |st0| == inst.m * inst.n
    ensures ok <==> FlowForest(inst, flow)
    ensures |st| == inst.m * inst.n
    ensures ok ==> forall a :: 0 <= a < |st| ==> st[a] == if flow[a] == 0 then NonBas0 else Basic
    ensures ok ==> KState(inst, Basics(st), father, size, ntrees, numbv, rk, B)
  {
    var N := inst.m + inst.n;
    father := seq(N, _ => -1);
    size := seq(N, _ => 1);
    rk := seq(N, _ => 0);
    B := 0;
    ntrees := N;
    numbv := 0;
    st := st0;
    StartLoop(inst, flow, st, father, size, rk);
    var arc := 0;
    while arc < inst.m * inst.n
      invariant FlowLoop(inst, flow, arc, st, father, size, ntrees, numbv, rk, B)
    {
      var cycle;
      cycle, st, father, size, ntrees, numbv, rk, B := FlowArcStep(inst, flow, arc, st, father, size, ntrees, numbv, rk, B);
      if cycle {
        ok := false;
        return;
      }
      arc := arc + 1;
    }
    ok := true;
    BasicsAre(flow, st);
  }

  /** With a single tree left, the chosen arcs connect every node to 0. */
  lemma SingleTreeConnects(inst: Instance, E: set<int>, father: seq<int>, size: seq<int>,
                           ntrees: int, numbv: int, rk: seq<nat>, B: nat)
    requires KState(inst, E, father, size, ntrees, numbv, rk, B) && ntrees == 1
    ensures forall x :: 0 <= x < inst.m + inst.n ==> Connected(inst, E, x, 0)
  {
    var r0 := Root(father, rk, B, 0);
    assert r0 in Roots(father);
    forall x | 0 <= x < inst.m + inst.n
      ensures Connected(inst, E, x, 0)
    {
      var rx := Root(father, rk, B, x);
      assert rx in Roots(father);
      if rx != r0 {
        SubsetCard({rx, r0}, Roots(father));
        assert false;
      }
      SameTreeIffConnected(inst, E, father, size, ntrees, numbv, rk, B, x, 0);
    }
  }

  /** When the chosen arcs connect the ends of every arc, they connect the
      whole complete bipartite graph: a single tree is left. */
  lemma AllArcsJoined(inst: Instance, E: set<int>, father: seq<int>, size: seq<int>,
                      ntrees: int, numbv: int, rk: seq<nat>, B: nat)
    requires KState(inst, E, father, size, ntrees, numbv, rk, B)
    requires forall a :: 0 <= a < inst.m * inst.n ==> Connected(inst, E, Tail(inst, a), Head(inst, a))
    ensures ntrees == 1
  {
    var r0 := Root(father, rk, B, 0);
    forall x | 0 <= x < inst.m + inst.n
      ensures Root(father, rk, B, x) == r0
    {
      // x and 0 meet at customer m, or are joined directly
      var c := if x < inst.m then inst.m else x;
      ArcOfRange(0, c - inst.m, inst.m, inst.n);
      DivMod(0, c - inst.m, inst.n);
      var a0 := 0 * inst.n + (c - inst.m);
      assert Tail(inst, a0) == 0 && Head(inst, a0) == c;
      assert Connected(inst, E, 0, c);
      SameTreeIffConnected(inst, E, father, size, ntrees, numbv, rk, B, 0, c);
      if x < inst.m {
        ArcOfRange(x, 0, inst.m, inst.n);
        DivMod(x, 0, inst.n);
        var ax := x * inst.n + 0;
        assert Tail(inst, ax) == x && Head(inst, ax) == c;
        assert Connected(inst, E, x, c);
        SameTreeIffConnected(inst, E, father, size, ntrees, numbv, rk, B, x, c);
      }
    }
    assert Roots(father) == {r0};
  }

  lemma BasicsAdd(st: seq<Status>, a: int)
    requires 0 <= a < |st|
    ensures Basics(st[a := Basic]) == Basics(st) + {a}
  {
  }

  /** What a pass of the second loop of setBasis has established after
      the arcs before arc: arcs only ever turn from target to BASIC, and the
      chosen arcs connect the ends of every target arc passed so far. */
  ghost predicate JoinLoop(inst: Instance, target: Status, st0: seq<Status>, arc: int, st: seq<Status>,
                           father: seq<int>, size: seq<int>, ntrees: int, numbv: int, rk: seq<nat>, B: nat)
  {
    && target != Basic && |st0| == inst.m * inst.n && |st| == |st0| && 0 <= arc <= |st|
    && KState(inst, Basics(st), father, size, ntrees, numbv, rk, B)
    && (forall b :: 0 <= b < |st| ==> st[b] == st0[b] || (st0[b] == target && st[b] == Basic))
    && (forall b :: 0 <= b < arc && st[b] == target ==> Connected(inst, Basics(st), Tail(inst, b), Head(inst, b)))
  }

  /** One pass of the second loop of setBasis, on arc: an arc of the target
      status whose ends lie in different trees becomes BASIC. */
  method JoinArcStep(inst: Instance, target: Status, ghost st0: seq<Status>, arc: int, st: seq<Status>,
                     father: seq<int>, size: seq<int>, ntrees: int, numbv: int, ghost rk: seq<nat>, ghost B: nat)
    returns (st2: seq<Status>, f2: seq<int>, size2: seq<int>, ntrees2: int, numbv2: int,
             ghost rk2: seq<nat>, ghost B2: nat)
    requires JoinLoop(inst, target, st0, arc, st, father, size, ntrees, numbv, rk, B) && arc < |st|
    ensures JoinLoop(inst, target, st0, arc + 1, st2, f2, size2, ntrees2, numbv2, rk2, B2)
  {
    st2, f2, size2, ntrees2, numbv2, rk2, B2 := st, father, size, ntrees, numbv, rk, B;
    if st[arc] == target {
      var joined;
      joined, f2, size2, rk2, B2 := JoinEnds(inst, Basics(st), arc, father, size, ntrees, numbv, rk, B);
      if joined {
        ntrees2 := ntrees - 1;
        numbv2 := numbv + 1;
        st2 := st[arc := Basic];
        StepJoined(inst, target, st0, arc, st, father, size, ntrees, numbv, rk, B, f2, size2, rk2, B2);
      } else {
        StepKept(inst, target, st0, arc, st, father, size, ntrees, numbv, rk, B, f2, size2, rk2, B2);
      }
    } else {
      StepKept(inst, target, st0, arc, st, father, size, ntrees, numbv, rk, B, f2, size2, rk2, B2);
    }
  }

  lemma StepJoined(inst: Instance, target: Status, st0: seq<Status>, arc: int, st: seq<Status>,
                   father: seq<int>, size: seq<int>, ntrees: int, numbv: int, rk: seq<nat>, B: nat,
                   f2: seq<int>, size2: seq<int>, rk2: seq<nat>, B2: nat)
    requires JoinLoop(inst, target, st0, arc, st, father, size, ntrees, numbv, rk, B)
    requires 0 <= arc < |st| && st[arc] == target
    requires KState(inst, Basics(st) + {arc}, f2, size2, ntrees - 1, numbv + 1, rk2, B2)
    ensures JoinLoop(inst, target, st0, arc + 1, st[arc := Basic], f2, size2, ntrees - 1, numbv + 1, rk2, B2)
  {
    BasicsAdd(st, arc);
    JoinedFacts(inst, target, st0, arc, st);
  }

  /** The statuses and connections a pass keeps, when arc turns BASIC. */
  lemma JoinedFacts(inst: Instance, target: Status, st0: seq<Status>, arc: int, st: seq<Status>)
    requires inst.m >= 1 && inst.n >= 1 && target != Basic && |st| == |st0| && 0 <= arc < |st| && st[arc] == target
    requires forall b :: 0 <= b < |st| ==> st[b] == st0[b] || (st0[b] == target && st[b] == Basic)
    requires forall b :: 0 <= b < arc && st[b] == target ==> Connected(inst, Basics(st), Tail(inst, b), Head(inst, b))
    ensures var st2 := st[arc := Basic];
      && (forall b :: 0 <= b < |st2| ==> st2[b] == st0[b] || (st0[b] == target && st2[b] == Basic))
      && (forall b :: 0 <= b < arc + 1 && st2[b] == target ==> Connected(inst, Basics(st2), Tail(inst, b), Head(inst, b)))
  {
    var st2 := st[arc := Basic];
    BasicsAdd(st, arc);
    forall b | 0 <= b < |st2|
      ensures st2[b] == st0[b] || (st0[b] == target && st2[b] == Basic)
    {
      if b != arc {
        assert st2[b] == st[b];
      }
    }
    forall b | 0 <= b < arc + 1 && st2[b] == target
      ensures Connected(inst, Basics(st2), Tail(inst, b), Head(inst, b))
    {
      assert b < arc && st[b] == target;
      ConnectedMono(inst, Basics(st), Basics(st2), Tail(inst, b), Head(inst, b));
    }
  }

  lemma StepKept(inst: Instance, target: Status, st0: seq<Status>, arc: int, st: seq<Status>,
                 father: seq<int>, size: seq<int>, ntrees: int, numbv: int, rk: seq<nat>, B: nat,
                 f2: seq<int>, size2: seq<int>, rk2: seq<nat>, B2: nat)
    requires JoinLoop(inst, target, st0, arc, st, father, size, ntrees, numbv, rk, B) && 0 <= arc < |st|
    requires KState(inst, Basics(st), f2, size2, ntrees, numbv, rk2, B2)
    requires st[arc] == target ==> Connected(inst, Basics(st), Tail(inst, arc), Head(inst, arc))
    ensures JoinLoop(inst, target, st0, arc + 1, st, f2, size2, ntrees, numbv, rk2, B2)
  {
  }

  /** A pass of the second loop of setBasis over the arcs of one status,
      stopping once a single tree is left. */
  method JoinPass(inst: Instance, target: Status, st: seq<Status>, father: seq<int>, size: seq<int>,
                  ntrees: int, numbv: int, ghost rk: seq<nat>, ghost B: nat)
    returns (st2: seq<Status>, f2: seq<int>, size2: seq<int>, ntrees2: int, numbv2: int,
             ghost rk2: seq<nat>, ghost B2: nat)
    requires target != Basic && |st| == inst.m * inst.n
    requires KState(inst, Basics(st), father, size, ntrees, numbv, rk, B)
    ensures |st2| == |st| && KState(inst, Basics(st2), f2, size2, ntrees2, numbv2, rk2, B2)
    ensures forall b :: 0 <= b < |st| ==> st2[b] == st[b] || (st[b] == target && st2[b] == Basic)
    ensures ntrees2 == 1 ||
      forall b :: 0 <= b < |st| && st2[b] == target ==> Connected(inst, Basics(st2), Tail(inst, b), Head(inst, b))
  {
    st2, f2, size2, ntrees2, numbv2, rk2, B2 := st, father, size, ntrees, numbv, rk, B;
    var arc := 0;
    while arc < inst.m * inst.n && ntrees2 > 1
      invariant JoinLoop(inst, target, st, arc, st2, f2, size2, ntrees2, numbv2, rk2, B2)
    {
      st2, f2, size2, ntrees2, numbv2, rk2, B2 := JoinArcStep(inst, target, st, arc, st2, f2, size2, ntrees2, numbv2, rk2, B2);
      arc := arc + 1;
    }
    SomeTree(inst, Basics(st2), f2, size2, ntrees2, numbv2, rk2, B2);
  }

  /** Both halves of the basis construction: the arcs with flow, then as
      many arcs at zero as it takes to connect everything.  Java's test for
      more than one tree after the second half can never succeed: the arcs
      at zero always connect the complete bipartite graph. */
  method ChooseBasics(inst: Instance, flow: seq<int>, st0: seq<Status>) returns (ok: bool, st: seq<Status>)
    requires inst.m >= 1 && inst.n >= 1 && |flow| == inst.m * inst.n && |st0| == inst.m * inst.n
    ensures ok <==> FlowForest(inst, flow)
    ensures |st| == inst.m * inst.n
    ensures ok ==> |Basics(st)| == inst.m + inst.n - 1
    ensures ok ==> forall a :: 0 <= a < |st| && flow[a] != 0 ==> st[a] == Basic
    ensures ok ==> forall a :: 0 <= a < |st| && st[a] != Basic ==> st[a] == NonBas0 && flow[a] == 0
    ensures ok ==> forall x :: 0 <= x < inst.m + inst.n ==> Connected(inst, Basics(st), x, 0)
  {
    var father, size, ntrees, numbv;
    ghost var rk, B;
    ok, st, father, size, ntrees, numbv, rk, B := AddFlowArcs(inst, flow, st0);
    if !ok {
      return;
    }
    ghost var st1 := st;
    if ntrees > 1 {
      st, father, size, ntrees, numbv, rk, B := JoinPass(inst, NonBasU, st, father, size, ntrees, numbv, rk, B);
      ghost var st2 := st;
      st, father, size, ntrees, numbv, rk, B := JoinPass(inst, NonBas0, st, father, size, ntrees, numbv, rk, B);
      PassStatuses(flow, st1, st2, st);
      if ntrees > 1 {
        LastPassJoins(inst, st, father, size, ntrees, numbv, rk, B);
      }
    }
    SomeTree(inst, Basics(st), father, size, ntrees, numbv, rk, B);
    SingleTreeConnects(inst, Basics(st), father, size, ntrees, numbv, rk, B);
  }

  /** The passes only turn arcs at zero into BASIC ones. */
  lemma PassStatuses(flow: seq<int>, st1: seq<Status>, st2: seq<Status>, st3: seq<Status>)
    requires |st1| == |flow| && |st2| == |st1| && |st3| == |st1|
    requires forall a :: 0 <= a < |st1| ==> st1[a] == if flow[a] == 0 then NonBas0 else Basic
    requires forall b :: 0 <= b < |st1| ==> st2[b] == st1[b] || (st1[b] == NonBasU && st2[b] == Basic)
    requires forall b :: 0 <= b < |st1| ==> st3[b] == st2[b] || (st2[b] == NonBas0 && st3[b] == Basic)
    ensures forall a :: 0 <= a < |st3| && flow[a] != 0 ==> st3[a] == Basic
    ensures forall a :: 0 <= a < |st3| && st3[a] != Basic ==> st3[a] == NonBas0 && flow[a] == 0
  {
  }

  /** After the pass over the arcs at zero, with every arc BASIC or at zero,
      the chosen arcs connect the ends of every arc. */
  lemma LastPassJoins(inst: Instance, st: seq<Status>, father: seq<int>, size: seq<int>,
                      ntrees: int, numbv: int, rk: seq<nat>, B: nat)
    requires |st| == inst.m * inst.n && KState(inst, Basics(st), father, size, ntrees, numbv, rk, B)
    requires forall a :: 0 <= a < |st| && st[a] != Basic ==> st[a] == NonBas0
    requires ntrees == 1 ||
      forall b :: 0 <= b < |st| && st[b] == NonBas0 ==> Connected(inst, Basics(st), Tail(inst, b), Head(inst, b))
    ensures ntrees == 1
  {
    if ntrees != 1 {
      forall a | 0 <= a < inst.m * inst.n
        ensures Connected(inst, Basics(st), Tail(inst, a), Head(inst, a))
      {
        if st[a] == Basic {
          ConnectedArc(inst, Basics(st), a);
        }
      }
      AllArcsJoined(inst, Basics(st), father, size, ntrees, numbv, rk, B);
    }
  }
}
