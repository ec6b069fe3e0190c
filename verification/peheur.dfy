/** The array helpers of the population-based heuristics: the indices of
    the k largest evaluations, the evaluations masked to the arcs in use,
    and the weighted random collection arcs are drawn from. */
module PEheur {
  import opened Solution

  // ---------------------------------------------------------------------
  // get_max_k_idx
  // ---------------------------------------------------------------------

  /** An entry of the running maxima: NEGATIVE_INFINITY or a value. */
  datatype Bound = NegInf | Fin(v: real)

  /** Java's `x > max[j]`: every value exceeds NEGATIVE_INFINITY. */
  predicate Exceeds(x: real, b: Bound) {
    b.NegInf? || x > b.v
  }

  function Count(len: int, k: int): int {
    if len < k then len else k
  }

  /** The ranking the selection follows: index p comes before index q when
      its value is larger, or equal with p the smaller index. */
  predicate Before(a: seq<real>, p: int, q: int)
    requires 0 <= p < |a| && 0 <= q < |a|
  {
    a[p] > a[q] || (a[p] == a[q] && p < q)
  }

  /** The first c slots are in ranking order. */
  ghost predicate Ranked(a: seq<real>, r: seq<int>, c: int)
    requires 0 <= c <= |r| && forall x :: 0 <= x < c ==> 0 <= r[x] < |a|
  {
    forall x, y :: 0 <= x < y < c ==> Before(a, r[x], r[y])
  }

  /** Every index below i is in one of the first c slots. */
  ghost predicate Complete(r: seq<int>, c: int, i: int)
    requires 0 <= c <= |r|
  {
    forall u :: 0 <= u < i ==> u in r[..c]
  }

  /** Every index below i outside the first c slots ranks behind them. */
  ghost predicate Dominated(a: seq<real>, r: seq<int>, c: int, i: int)
    requires 0 <= c <= |r| && 0 <= i <= |a| && forall x :: 0 <= x < c ==> 0 <= r[x] < |a|
  {
    forall u :: 0 <= u < i && u !in r[..c] ==> forall x :: 0 <= x < c ==> Before(a, r[x], u)
  }

  /** After looking at a[..i]: the first c = min(i, k) slots hold the best
      c of these indices in ranking order with their values, the other
      slots are empty, and every index left out ranks behind them all. */
  ghost predicate TopState(a: seq<real>, i: int, k: int, r: seq<int>, mx: seq<Bound>)
    requires 0 <= i <= |a| && 0 <= k
  {
    var c := Count(i, k);
    && |r| == k && |mx| == k
    && (forall x :: 0 <= x < c ==> 0 <= r[x] < i && mx[x] == Fin(a[r[x]]))
    && (forall x :: c <= x < k ==> r[x] == -1 && mx[x] == NegInf)
    && Ranked(a, r, c)
    && (c < k ==> Complete(r, c, i))
    && Dominated(a, r, c, i)
  }

  /** Before is a strict order. */
  lemma BeforeTrans(a: seq<real>, p: int, q: int, s: int)
    requires 0 <= p < |a| && 0 <= q < |a| && 0 <= s < |a|
    requires Before(a, p, q) && Before(a, q, s)
    ensures Before(a, p, s) && !Before(a, q, p)
  {
  }

  /** Slot y after putting e into slot j and moving the later slots one
      place up. */
  function ShiftedAt<T>(s: seq<T>, j: int, e: T, y: int): T
    requires 0 <= j && 0 <= y < |s|
  {
    if y < j then s[y] else if y == j then e else s[y - 1]
  }

  /** The shifting loop: slots j..k-2 move one place up, the last one
      drops out, and slot j receives index i with value v. */
  method ShiftIn(r: seq<int>, mx: seq<Bound>, j: int, i: int, v: real) returns (r2: seq<int>, mx2: seq<Bound>)
    requires |r| == |mx| && 0 <= j < |r|
    ensures |r2| == |r| && |mx2| == |mx|
    ensures forall y :: 0 <= y < |r| ==>
      r2[y] == ShiftedAt(r, j, i, y)
    ensures forall y :: 0 <= y < |r| ==>
      mx2[y] == ShiftedAt(mx, j, Fin(v), y)
  {
    r2, mx2 := r, mx;
    var x := |r| - 1;
    while x > j
      invariant j <= x <= |r| - 1 && |r2| == |r| && |mx2| == |mx|
      invariant forall y :: 0 <= y <= x ==> r2[y] == r[y] && mx2[y] == mx[y]
      invariant forall y :: x < y < |r| ==> r2[y] == r[y - 1] && mx2[y] == mx[y - 1]
    {
      r2 := r2[x := r2[x - 1]];
      mx2 := mx2[x := mx2[x - 1]];
      x := x - 1;
    }
    r2 := r2[j := i];
    mx2 := mx2[j := Fin(v)];
  }

  /** The slots after inserting index i at slot j: values and padding. */
  lemma InsertShape(a: seq<real>, i: int, k: int, r: seq<int>, mx: seq<Bound>, j: int, r2: seq<int>, mx2: seq<Bound>)
    requires 0 <= i < |a| && 0 <= k && TopState(a, i, k, r, mx) && 0 <= j < k && j <= Count(i, k)
    requires |r2| == k && |mx2| == k
    requires forall y :: 0 <= y < k ==> r2[y] == ShiftedAt(r, j, i, y)
    requires forall y :: 0 <= y < k ==> mx2[y] == ShiftedAt(mx, j, Fin(a[i]), y)
    ensures forall x :: 0 <= x < Count(i + 1, k) ==> 0 <= r2[x] < i + 1 && mx2[x] == Fin(a[r2[x]])
    ensures forall x :: Count(i + 1, k) <= x < k ==> r2[x] == -1 && mx2[x] == NegInf
  {
    var c, c2 := Count(i, k), Count(i + 1, k);
    assert c2 == (if c < k then c + 1 else k);
  }

  /** The slots after inserting index i at slot j stay in ranking order. */
  lemma InsertSorted(a: seq<real>, i: int, k: int, r: seq<int>, mx: seq<Bound>, j: int, r2: seq<int>)
    requires 0 <= i < |a| && 0 <= k && TopState(a, i, k, r, mx) && 0 <= j < k && j <= Count(i, k)
    requires forall x :: 0 <= x < j ==> !Exceeds(a[i], mx[x])
    requires Exceeds(a[i], mx[j])
    requires |r2| == k
    requires forall y :: 0 <= y < k ==> r2[y] == ShiftedAt(r, j, i, y)
    requires forall x :: 0 <= x < Count(i + 1, k) ==> 0 <= r2[x] < |a|
    ensures Ranked(a, r2, Count(i + 1, k))
  {
    var c, c2 := Count(i, k), Count(i + 1, k);
    assert c2 == (if c < k then c + 1 else k);
    forall x | 0 <= x < j
      ensures Before(a, r[x], i)
    {
    }
    forall y | j <= y < c
      ensures Before(a, i, r[y])
    {
      if y > j {
        BeforeTrans(a, i, r[j], r[y]);
      }
    }
    forall x, y | 0 <= x < y < c2
      ensures Before(a, r2[x], r2[y])
    {
      if x < j && y > j {
        BeforeTrans(a, r[x], i, r[y - 1]);
      }
    }
  }

  /** After inserting index i at slot j, an index outside the first slots
      ranks behind all of them, and while slots are free every index seen
      so far has one. */
  lemma InsertDominates(a: seq<real>, i: int, k: int, r: seq<int>, mx: seq<Bound>, j: int, r2: seq<int>)
    requires 0 <= i < |a| && 0 <= k && TopState(a, i, k, r, mx) && 0 <= j < k && j <= Count(i, k)
    requires forall x :: 0 <= x < j ==> !Exceeds(a[i], mx[x])
    requires Exceeds(a[i], mx[j])
    requires |r2| == k
    requires forall y :: 0 <= y < k ==> r2[y] == ShiftedAt(r, j, i, y)
    requires forall x :: 0 <= x < Count(i + 1, k) ==> 0 <= r2[x] < |a|
    ensures Count(i + 1, k) < k ==> Complete(r2, Count(i + 1, k), i + 1)
    ensures Dominated(a, r2, Count(i + 1, k), i + 1)
  {
    var c, c2 := Count(i, k), Count(i + 1, k);
    assert c2 == (if c < k then c + 1 else k);
    assert r2[j] == i;
    forall u | 0 <= u < i && u in r[..c]
      ensures u in r2[..c2] || (c == k && u == r[k - 1])
    {
      var x :| 0 <= x < c && r[x] == u;
      if x < j {
        assert r2[x] == u;
      } else if x + 1 < c2 {
        assert r2[x + 1] == u;
      }
    }
    forall u | 0 <= u < i + 1 && u !in r2[..c2]
      ensures forall x :: 0 <= x < c2 ==> Before(a, r2[x], u)
    {
      assert u != i;
      if u in r[..c] {
        assert c == k && u == r[k - 1];
        forall x | 0 <= x < c2
          ensures Before(a, r2[x], u)
        {
          if x < j {
            assert x < k - 1;
          } else if x == j {
            if j < k - 1 {
              BeforeTrans(a, i, r[j], r[k - 1]);
            }
          } else {
            assert x - 1 < k - 1;
          }
        }
      } else {
        assert c == k;
        forall x | 0 <= x < c2
          ensures Before(a, r2[x], u)
        {
          if x == j {
            BeforeTrans(a, i, r[j], u);
          }
        }
      }
    }
  }

  /** Inserting index i where the inner loop stopped keeps the state. */
  lemma InsertKeeps(a: seq<real>, i: int, k: int, r: seq<int>, mx: seq<Bound>, j: int, r2: seq<int>, mx2: seq<Bound>)
    requires 0 <= i < |a| && 0 <= k && TopState(a, i, k, r, mx) && 0 <= j < k && j <= Count(i, k)
    requires forall x :: 0 <= x < j ==> !Exceeds(a[i], mx[x])
    requires Exceeds(a[i], mx[j])
    requires |r2| == k && |mx2| == k
    requires forall y :: 0 <= y < k ==> r2[y] == ShiftedAt(r, j, i, y)
    requires forall y :: 0 <= y < k ==> mx2[y] == ShiftedAt(mx, j, Fin(a[i]), y)
    ensures TopState(a, i + 1, k, r2, mx2)
  {
    InsertShape(a, i, k, r, mx, j, r2, mx2);
    InsertSorted(a, i, k, r, mx, j, r2);
    InsertDominates(a, i, k, r, mx, j, r2);
  }

  /** An index that exceeds no slot ranks behind all of them and is left
      out. */
  lemma SkipKeeps(a: seq<real>, i: int, k: int, r: seq<int>, mx: seq<Bound>)
    requires 0 <= i < |a| && 0 <= k && TopState(a, i, k, r, mx) && Count(i, k) == k
    requires forall x :: 0 <= x < k ==> !Exceeds(a[i], mx[x])
    ensures TopState(a, i + 1, k, r, mx)
  {
    forall x | 0 <= x < k
      ensures Before(a, r[x], i)
    {
    }
    assert i !in r[..k];
  }

  /** One pass of the outer loop: the inner loop finds the first slot whose
      value index i exceeds, shifts the later slots up and puts i there, or
      leaves everything unchanged when i exceeds none. */
  method Place(a: seq<real>, i: int, k: int, r: seq<int>, mx: seq<Bound>) returns (r2: seq<int>, mx2: seq<Bound>)
    requires 0 <= i < |a| && 0 <= k && TopState(a, i, k, r, mx)
    ensures TopState(a, i + 1, k, r2, mx2)
  {
    var j := 0;
    while j < k
      invariant 0 <= j <= Count(i, k)
      invariant forall x :: 0 <= x < j ==> !Exceeds(a[i], mx[x])
    {
      if Exceeds(a[i], mx[j]) {
        r2, mx2 := ShiftIn(r, mx, j, i, a[i]);
        InsertKeeps(a, i, k, r, mx, j, r2, mx2);
        return;
      }
      j := j + 1;
    }
    SkipKeeps(a, i, k, r, mx);
    r2, mx2 := r, mx;
  }

  /** get_max_k_idx: k slots holding, best first, the indices of the k
      largest values (earlier index first among equal values); when the
      array is shorter than k the remaining slots hold -1. */
  method MaxKIdx(a: seq<real>, k: int) returns (r: seq<int>)
    requires 0 <= k
    ensures |r| == k
    ensures forall x :: 0 <= x < Count(|a|, k) ==> 0 <= r[x] < |a|
    ensures forall x :: Count(|a|, k) <= x < k ==> r[x] == -1
    ensures forall x, y :: 0 <= x < y < Count(|a|, k) ==> Before(a, r[x], r[y])
    ensures forall u :: 0 <= u < |a| && u !in r[..Count(|a|, k)] ==>
      forall x :: 0 <= x < Count(|a|, k) ==> Before(a, r[x], u)
  {
    var mx := seq(k, _ => NegInf);
    r := seq(k, _ => -1);
    var i := 0;
    while i < |a|
      invariant 0 <= i <= |a| && TopState(a, i, k, r, mx)
    {
      r, mx := Place(a, i, k, r, mx);
      i := i + 1;
    }
  }

  /** What get_max_k_idx returns, described without the algorithm: the
      best min(|a|, k) indices in ranking order, then -1 padding. */
  ghost predicate IsTopK(a: seq<real>, k: int, r: seq<int>)
    requires 0 <= k
  {
    var c := Count(|a|, k);
    && |r| == k
    && (forall x :: 0 <= x < c ==> 0 <= r[x] < |a|)
    && (forall x :: c <= x < k ==> r[x] == -1)
    && Ranked(a, r, c)
    && Dominated(a, r, c, |a|)
  }

  /** Two distinct indices are ranked one way or the other. */
  lemma BeforeTotal(a: seq<real>, p: int, q: int)
    requires 0 <= p < |a| && 0 <= q < |a| && p != q
    ensures Before(a, p, q) != Before(a, q, p)
  {
  }

  /** The slots of two top-k results agree up to slot x. */
  lemma {:induction false} TopKPrefix(a: seq<real>, k: int, r: seq<int>, r2: seq<int>, x: int)
    requires 0 <= k && IsTopK(a, k, r) && IsTopK(a, k, r2) && 0 <= x < Count(|a|, k)
    ensures forall y :: 0 <= y <= x ==> r[y] == r2[y]
  {
    if x > 0 {
      TopKPrefix(a, k, r, r2, x - 1);
    }
    if r[x] != r2[x] {
      TopKFirstDiff(a, k, r, r2, x);
      TopKFirstDiff(a, k, r2, r, x);
      assert false;
    }
  }

  /** Where two top-k results first differ, the entry of the one sits
      later in the other or is missing from it, so the other ranks its own
      entry higher. */
  lemma TopKFirstDiff(a: seq<real>, k: int, r: seq<int>, r2: seq<int>, x: int)
    requires 0 <= k && IsTopK(a, k, r) && IsTopK(a, k, r2) && 0 <= x < Count(|a|, k)
    requires forall y :: 0 <= y < x ==> r[y] == r2[y]
    requires r[x] != r2[x]
    ensures Before(a, r2[x], r[x])
  {
    var c := Count(|a|, k);
    if r[x] in r2[..c] {
      forall y | 0 <= y < x
        ensures r2[y] != r[x]
      {
        assert Before(a, r[y], r[x]);
      }
      var y :| 0 <= y < c && r2[y] == r[x];
      assert x < y;
    }
  }

  /** The description pins the result down: get_max_k_idx returns the one
      sequence that meets it. */
  lemma TopKUnique(a: seq<real>, k: int, r: seq<int>, r2: seq<int>)
    requires 0 <= k && IsTopK(a, k, r) && IsTopK(a, k, r2)
    ensures r == r2
  {
    var c := Count(|a|, k);
    if c > 0 {
      TopKPrefix(a, k, r, r2, c - 1);
    }
  }

  /** The selected values do not increase, the selected indices differ,
      and no slot is empty when the array has at least k entries. */
  lemma TopKFacts(a: seq<real>, k: int, r: seq<int>)
    requires 0 <= k && IsTopK(a, k, r)
    ensures forall x, y :: 0 <= x < y < Count(|a|, k) ==> a[r[x]] >= a[r[y]] && r[x] != r[y]
    ensures |a| >= k ==> forall x :: 0 <= x < k ==> r[x] != -1
  {
  }

  // ---------------------------------------------------------------------
  // get_arc_costs_from_array
  // ---------------------------------------------------------------------

  /** get_arc_costs_from_array: the evaluation of every arc that carries
      flow, and 0 for the others. */
  method ArcCostsFromArray(flow: seq<int>, eval: seq<real>) returns (costs: seq<real>)
    requires |eval| >= |flow|
    ensures |costs| == |flow|
    ensures forall a :: 0 <= a < |flow| ==> costs[a] == (if flow[a] > 0 then eval[a] else 0.0)
  {
    costs := seq(|flow|, _ => 0.0);
    var arc := 0;
    while arc < |flow|
      invariant 0 <= arc <= |flow| && |costs| == |flow|
      invariant forall a :: 0 <= a < |flow| ==> costs[a] == (if a < arc && flow[a] > 0 then eval[a] else 0.0)
    {
      if flow[arc] > 0 {
        costs := costs[arc := eval[arc]];
      }
      arc := arc + 1;
    }
  }

  /** Picking the k largest masked evaluations prefers the arcs in use:
      when an arc in use with a positive evaluation is left out, every
      picked arc is in use too and evaluates at least as high. */
  lemma PicksArcsInUse(flow: seq<int>, eval: seq<real>, costs: seq<real>, k: int, r: seq<int>)
    requires |eval| >= |flow| && |costs| == |flow|
    requires forall a :: 0 <= a < |flow| ==> costs[a] == (if flow[a] > 0 then eval[a] else 0.0)
    requires 0 <= k && IsTopK(costs, k, r)
    ensures forall u :: 0 <= u < |flow| && flow[u] > 0 && eval[u] > 0.0 && u !in r[..Count(|costs|, k)] ==>
      forall x :: 0 <= x < Count(|costs|, k) ==> flow[r[x]] > 0 && eval[r[x]] >= eval[u]
  {
    var c := Count(|costs|, k);
    forall u, x | 0 <= u < |flow| && flow[u] > 0 && eval[u] > 0.0 && u !in r[..c] && 0 <= x < c
      ensures flow[r[x]] > 0 && eval[r[x]] >= eval[u]
    {
      assert Before(costs, r[x], u);
    }
  }

  // ---------------------------------------------------------------------
  // RandomCollection
  // ---------------------------------------------------------------------

  /** Java's RandomCollection: a TreeMap from running totals to entries,
      the running total, and the value weights are inverted against. */
  datatype RandomCollection<E> = RandomCollection(keys: seq<real>, items: seq<E>, total: real, maxVal: real)

  /** new RandomCollection(): empty, with total and max_val 0. */
  function NewCollection<E>(): (rc: RandomCollection<E>)
    ensures Inv(rc) && |rc.items| == 0 && rc.total == 0.0
  {
    RandomCollection([], [], 0.0, 0.0)
  }

  /** The keys increase strictly from above 0 up to the total, one entry
      per key. */
  ghost predicate Inv<E>(rc: RandomCollection<E>) {
    && |rc.keys| == |rc.items|
    && (forall p, q :: 0 <= p < q < |rc.keys| ==> rc.keys[p] < rc.keys[q])
    && (|rc.keys| == 0 ==> rc.total == 0.0)
    && (|rc.keys| > 0 ==> 0.0 < rc.keys[0] && rc.keys[|rc.keys| - 1] == rc.total)
  }

  /** The key below entry p, which is 0 for the first. */
  function Lower<E>(rc: RandomCollection<E>, p: int): real
    requires 0 <= p < |rc.keys|
  {
    if p == 0 then 0.0 else rc.keys[p - 1]
  }

  /** The weight of entry p: the width of its interval of keys. */
  function WeightOf<E>(rc: RandomCollection<E>, p: int): real
    requires 0 <= p < |rc.keys|
  {
    rc.keys[p] - Lower(rc, p)
  }

  /** The largest value of a non-empty array. */
  function MaxOf(s: seq<real>): (m: real)
    requires |s| > 0
    ensures m in s && forall x :: 0 <= x < |s| ==> s[x] <= m
  {
    if |s| == 1 then s[0]
    else
      var m' := MaxOf(s[1..]);
      assert forall x :: 1 <= x < |s| ==> s[x] == s[1..][x - 1];
      if s[0] >= m' then s[0] else m'
  }

  /** set_max_val: max_val becomes the largest evaluation (the stream of
      an empty array has no maximum and throws). */
  function SetMaxVal<E>(rc: RandomCollection<E>, gvals: seq<real>): (rc2: RandomCollection<E>)
    requires |gvals| > 0
    ensures rc2.maxVal in gvals && forall x :: 0 <= x < |gvals| ==> gvals[x] <= rc2.maxVal
    ensures rc2.keys == rc.keys && rc2.items == rc.items && rc2.total == rc.total
  {
    rc.(maxVal := MaxOf(gvals))
  }

  /** The weight add puts on an evaluation: inverted against max_val when
      smaller is better. */
  function Effective(weight: real, maxVal: real, smallIsBetter: bool): real {
    if smallIsBetter then maxVal - weight else weight
  }

  /** add(weight, result, small_is_better): a weight of 0 or less is
      dropped; otherwise the total grows by it and keys the new entry.  The
      entries already there keep their weights and the new one gets the
      weight given. */
  function Add<E>(rc: RandomCollection<E>, weight: real, result: E, smallIsBetter: bool): (rc2: RandomCollection<E>)
    requires Inv(rc)
    ensures Inv(rc2) && rc2.maxVal == rc.maxVal
    ensures Effective(weight, rc.maxVal, smallIsBetter) <= 0.0 ==> rc2 == rc
    ensures Effective(weight, rc.maxVal, smallIsBetter) > 0.0 ==>
      && rc2.items == rc.items + [result] && |rc2.keys| == |rc.keys| + 1
      && rc2.keys[..|rc.keys|] == rc.keys
      && WeightOf(rc2, |rc.keys|) == Effective(weight, rc.maxVal, smallIsBetter)
      && rc2.total == rc.total + Effective(weight, rc.maxVal, smallIsBetter)
  {
    var w := Effective(weight, rc.maxVal, smallIsBetter);
    if w <= 0.0 then rc
    else
      var rc2 := rc.(keys := rc.keys + [rc.total + w], items := rc.items + [result], total := rc.total + w);
      assert rc2.keys[..|rc.keys|] == rc.keys;
      rc2
  }

  /** Entries keep their weights when later ones are added. */
  lemma WeightKept<E>(rc: RandomCollection<E>, rc2: RandomCollection<E>, p: int)
    requires 0 <= p < |rc.keys| <= |rc2.keys| && rc2.keys[..|rc.keys|] == rc.keys
    ensures WeightOf(rc2, p) == WeightOf(rc, p)
  {
    assert rc2.keys[p] == rc.keys[p];
    if p > 0 {
      assert rc2.keys[p - 1] == rc.keys[p - 1];
    }
  }

  /** next(): with value = u * total for u drawn from [0, 1), the entry
      of the least key above value (an empty collection throws). */
  function Next<E>(rc: RandomCollection<E>, u: real): (p: int)
    requires Inv(rc) && |rc.keys| > 0 && 0.0 <= u < 1.0
    ensures 0 <= p < |rc.keys| && rc.keys[p] > u * rc.total
    ensures forall q :: 0 <= q < p ==> rc.keys[q] <= u * rc.total
  {
    TotalPositive(rc);
    Draw(rc.keys, rc.total, u)
  }

  /** higherEntry(u * total) over keys that end with the positive total. */
  function Draw(keys: seq<real>, total: real, u: real): (p: int)
    requires |keys| > 0 && keys[|keys| - 1] == total > 0.0 && 0.0 <= u < 1.0
    ensures 0 <= p < |keys| && keys[p] > u * total
    ensures forall q :: 0 <= q < p ==> keys[q] <= u * total
  {
    Scaled(u, total);
    HigherEntry(keys, u * total, 0)
  }

  /** A non-empty collection has a positive total, its last key. */
  lemma TotalPositive<E>(rc: RandomCollection<E>)
    requires Inv(rc) && |rc.keys| > 0
    ensures rc.keys[|rc.keys| - 1] == rc.total > 0.0
  {
    assert rc.keys[0] <= rc.keys[|rc.keys| - 1];
  }

  /** A fraction in [0, 1) of a positive total lies in [0, total). */
  lemma Scaled(u: real, t: real)
    requires 0.0 <= u < 1.0 && t > 0.0
    ensures 0.0 <= u * t < t
  {
    assert t - u * t == (1.0 - u) * t;
  }

  /** The first position from q on whose key exceeds value. */
  function HigherEntry(keys: seq<real>, value: real, q: int): (p: int)
    requires 0 <= q < |keys| && keys[|keys| - 1] > value
    requires forall q' :: 0 <= q' < q ==> keys[q'] <= value
    ensures q <= p < |keys| && keys[p] > value
    ensures forall q' :: 0 <= q' < p ==> keys[q'] <= value
    decreases |keys| - q
  {
    if keys[q] > value then q else HigherEntry(keys, value, q + 1)
  }

  /** next() draws entry p exactly when value falls into its interval
      [Lower, key), whose width is the weight of the entry. */
  lemma NextInterval<E>(rc: RandomCollection<E>, u: real, p: int)
    requires Inv(rc) && |rc.keys| > 0 && 0.0 <= u < 1.0 && 0 <= p < |rc.keys|
    ensures Next(rc, u) == p <==> Lower(rc, p) <= u * rc.total < rc.keys[p]
  {
    var d := Next(rc, u);
    TotalPositive(rc);
    Scaled(u, rc.total);
    if Lower(rc, p) <= u * rc.total < rc.keys[p] {
      assert p <= d;
      assert d <= p;
    }
  }

  // ---------------------------------------------------------------------
  // get_random_collection
  // ---------------------------------------------------------------------

  /** The weight arc j contributes: its effective evaluation when it is
      non-basic and that is positive, and nothing otherwise. */
  function Share(gvals: seq<real>, arcStat: seq<Status>, maxVal: real, small: bool, j: int): real
    requires 0 <= j < |gvals| && j < |arcStat|
  {
    var w := Effective(gvals[j], maxVal, small);
    if arcStat[j] != Basic && w > 0.0 then w else 0.0
  }

  /** The total weight of arcs 0..j-1. */
  function Shares(gvals: seq<real>, arcStat: seq<Status>, maxVal: real, small: bool, j: int): real
    requires 0 <= j <= |gvals| && |gvals| <= |arcStat|
  {
    if j == 0 then 0.0 else Shares(gvals, arcStat, maxVal, small, j - 1) + Share(gvals, arcStat, maxVal, small, j - 1)
  }

  /** The collection after arcs 0..j-1: one entry per arc in increasing
      order, exactly for the non-basic arcs with a positive effective
      weight, each with that weight, and the total is the sum of them. */
  ghost predicate CollectedUpTo(gvals: seq<real>, arcStat: seq<Status>, small: bool, rc: RandomCollection<int>, j: int)
    requires 0 <= j <= |gvals| && |gvals| <= |arcStat|
  {
    && Inv(rc)
    && (forall p :: 0 <= p < |rc.items| ==>
          && 0 <= rc.items[p] < j && arcStat[rc.items[p]] != Basic
          && WeightOf(rc, p) == Effective(gvals[rc.items[p]], rc.maxVal, small))
    && (forall p, q :: 0 <= p < q < |rc.items| ==> rc.items[p] < rc.items[q])
    && (forall a :: 0 <= a < j && arcStat[a] != Basic && Effective(gvals[a], rc.maxVal, small) > 0.0 ==>
          a in rc.items)
    && rc.total == Shares(gvals, arcStat, rc.maxVal, small, j)
  }

  /** A pass that adds nothing keeps the picture. */
  lemma CollectSkip(gvals: seq<real>, arcStat: seq<Status>, small: bool, rc: RandomCollection<int>, j: int)
    requires 0 <= j < |gvals| && |gvals| <= |arcStat| && CollectedUpTo(gvals, arcStat, small, rc, j)
    requires !(arcStat[j] != Basic && Effective(gvals[j], rc.maxVal, small) > 0.0)
    ensures CollectedUpTo(gvals, arcStat, small, rc, j + 1)
  {
  }

  /** A pass that adds arc j keeps the entries, their order and their
      weights. */
  lemma CollectAddItems(gvals: seq<real>, arcStat: seq<Status>, small: bool, rc: RandomCollection<int>, j: int)
    requires 0 <= j < |gvals| && |gvals| <= |arcStat| && CollectedUpTo(gvals, arcStat, small, rc, j)
    requires arcStat[j] != Basic && Effective(gvals[j], rc.maxVal, small) > 0.0
    ensures var rc2 := Add(rc, gvals[j], j, small);
      && (forall p :: 0 <= p < |rc2.items| ==>
            && 0 <= rc2.items[p] < j + 1 && arcStat[rc2.items[p]] != Basic
            && WeightOf(rc2, p) == Effective(gvals[rc2.items[p]], rc2.maxVal, small))
      && (forall p, q :: 0 <= p < q < |rc2.items| ==> rc2.items[p] < rc2.items[q])
  {
    var rc2 := Add(rc, gvals[j], j, small);
    forall p | 0 <= p < |rc2.items|
      ensures 0 <= rc2.items[p] < j + 1 && arcStat[rc2.items[p]] != Basic
      ensures WeightOf(rc2, p) == Effective(gvals[rc2.items[p]], rc2.maxVal, small)
    {
      if p < |rc.items| {
        WeightKept(rc, rc2, p);
        assert rc2.items[p] == rc.items[p];
      }
    }
  }

  /** A pass that adds arc j: every arc up to j that should be in is in,
      and the total is the sum of the shares. */
  lemma CollectAddTotal(gvals: seq<real>, arcStat: seq<Status>, small: bool, rc: RandomCollection<int>, j: int)
    requires 0 <= j < |gvals| && |gvals| <= |arcStat| && CollectedUpTo(gvals, arcStat, small, rc, j)
    requires arcStat[j] != Basic && Effective(gvals[j], rc.maxVal, small) > 0.0
    ensures var rc2 := Add(rc, gvals[j], j, small);
      && (forall a :: 0 <= a < j + 1 && arcStat[a] != Basic && Effective(gvals[a], rc2.maxVal, small) > 0.0 ==>
            a in rc2.items)
      && rc2.total == Shares(gvals, arcStat, rc2.maxVal, small, j + 1)
  {
    var rc2 := Add(rc, gvals[j], j, small);
    assert rc2.items == rc.items + [j];
  }

  /** A pass that adds arc j keeps the picture. */
  lemma CollectAdd(gvals: seq<real>, arcStat: seq<Status>, small: bool, rc: RandomCollection<int>, j: int)
    requires 0 <= j < |gvals| && |gvals| <= |arcStat| && CollectedUpTo(gvals, arcStat, small, rc, j)
    requires arcStat[j] != Basic && Effective(gvals[j], rc.maxVal, small) > 0.0
    ensures CollectedUpTo(gvals, arcStat, small, Add(rc, gvals[j], j, small), j + 1)
  {
    CollectAddItems(gvals, arcStat, small, rc, j);
    CollectAddTotal(gvals, arcStat, small, rc, j);
  }

  /** After the last arc the collection is as get_random_collection
      promises; every weight is positive since the keys increase. */
  lemma CollectDone(gvals: seq<real>, arcStat: seq<Status>, small: bool, rc: RandomCollection<int>)
    requires |gvals| <= |arcStat| && CollectedUpTo(gvals, arcStat, small, rc, |gvals|)
    ensures forall p :: 0 <= p < |rc.items| ==>
      && 0 <= rc.items[p] < |gvals| && arcStat[rc.items[p]] != Basic
      && WeightOf(rc, p) == Effective(gvals[rc.items[p]], rc.maxVal, small) > 0.0
  {
    forall p | 0 <= p < |rc.items|
      ensures WeightOf(rc, p) > 0.0
    {
      if p > 0 {
        assert rc.keys[p - 1] < rc.keys[p];
      }
    }
  }

  /** The body of the loop of get_random_collection: a non-basic arc is
      offered to add. */
  method CollectAt(gvals: seq<real>, small: bool, arcStat: seq<Status>, rc: RandomCollection<int>, j: int)
    returns (rc2: RandomCollection<int>)
    requires 0 <= j < |gvals| && |gvals| <= |arcStat| && CollectedUpTo(gvals, arcStat, small, rc, j)
    ensures CollectedUpTo(gvals, arcStat, small, rc2, j + 1) && rc2.maxVal == rc.maxVal
  {
    if arcStat[j] != Basic && Effective(gvals[j], rc.maxVal, small) > 0.0 {
      CollectAdd(gvals, arcStat, small, rc, j);
    } else {
      CollectSkip(gvals, arcStat, small, rc, j);
    }
    rc2 := rc;
    if arcStat[j] != Basic {
      rc2 := Add(rc, gvals[j], j, small);
    }
  }

  /** get_random_collection: a collection over the non-basic arcs, each
      weighted by its evaluation (inverted against the largest evaluation
      when smaller is better) and left out when that weight is not
      positive. */
  method GetRandomCollection(gvals: seq<real>, small: bool, arcStat: seq<Status>) returns (rc: RandomCollection<int>)
    requires |gvals| <= |arcStat|
    requires small ==> |gvals| > 0
    ensures Inv(rc)
    ensures small ==> rc.maxVal in gvals && forall x :: 0 <= x < |gvals| ==> gvals[x] <= rc.maxVal
    ensures !small ==> rc.maxVal == 0.0
    ensures forall p :: 0 <= p < |rc.items| ==>
      && 0 <= rc.items[p] < |gvals| && arcStat[rc.items[p]] != Basic
      && WeightOf(rc, p) == Effective(gvals[rc.items[p]], rc.maxVal, small) > 0.0
    ensures forall p, q :: 0 <= p < q < |rc.items| ==> rc.items[p] < rc.items[q]
    ensures forall a :: 0 <= a < |gvals| && arcStat[a] != Basic && Effective(gvals[a], rc.maxVal, small) > 0.0 ==>
      a in rc.items
    ensures rc.total == Shares(gvals, arcStat, rc.maxVal, small, |gvals|)
  {
    rc := NewCollection();
    if small {
      rc := SetMaxVal(rc, gvals);
    }
    var j := 0;
    while j < |gvals|
      invariant 0 <= j <= |gvals| && CollectedUpTo(gvals, arcStat, small, rc, j)
      invariant small ==> rc.maxVal in gvals && forall x :: 0 <= x < |gvals| ==> gvals[x] <= rc.maxVal
      invariant !small ==> rc.maxVal == 0.0
    {
      rc := CollectAt(gvals, small, arcStat, rc, j);
      j := j + 1;
    }
    CollectDone(gvals, arcStat, small, rc);
  }
}
