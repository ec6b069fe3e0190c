/** The transition rule of the conditional Markov chain search: a list of
    components (heuristic moves), two boolean matrices saying which
    component follows after a success and after a failure, and the map from
    a component back to its position in the list. */
module Cmcs {
  import opened FctpData

  /** The configuration the search runs. */
  datatype Config = Config(components: seq<int>, mSuc: seq<seq<bool>>, mFail: seq<seq<bool>>, toIdx: map<int, int>)

  /** The position map as the constructor's loop leaves it: each listed
      component maps to its last position in the list. */
  ghost predicate IndexOf(components: seq<int>, toIdx: map<int, int>) {
    && (forall c :: c in toIdx <==> c in components)
    && (forall c :: c in toIdx ==>
          && 0 <= toIdx[c] < |components| && components[toIdx[c]] == c
          && forall i :: toIdx[c] < i < |components| ==> components[i] != c)
  }

  /** The constructor's loop: component_to_idx.put(components[i], i) for
      i = 0..size-1, a later position overwriting an earlier one. */
  method ComponentToIdx(components: seq<int>) returns (toIdx: map<int, int>)
    ensures IndexOf(components, toIdx)
  {
    toIdx := map[];
    var i := 0;
    while i < |components|
      invariant 0 <= i <= |components|
      invariant IndexOf(components[..i], toIdx)
    {
      assert components[..i + 1] == components[..i] + [components[i]];
      toIdx := toIdx[components[i] := i];
      i := i + 1;
    }
    assert components[..i] == components;
  }

  /** The description fixes the map: the constructor's loop yields the one
      map that meets it. */
  lemma IndexOfUnique(components: seq<int>, m1: map<int, int>, m2: map<int, int>)
    requires IndexOf(components, m1) && IndexOf(components, m2)
    ensures m1 == m2
  {
    forall c | c in m1
      ensures c in m2 && m1[c] == m2[c]
    {
    }
    forall c | c in m2
      ensures c in m1
    {
    }
    assert m1.Keys == m2.Keys;
  }

  /** Square transition matrices over the components, and the position
      map built from the list. */
  ghost predicate Shaped(cfg: Config) {
    var size := |cfg.components|;
    && |cfg.mSuc| == size && |cfg.mFail| == size
    && (forall r :: 0 <= r < size ==> |cfg.mSuc[r]| == size && |cfg.mFail[r]| == size)
    && IndexOf(cfg.components, cfg.toIdx)
  }

  /** The first position from i on whose entry is true, or |row| when
      there is none. */
  function FirstTrue(row: seq<bool>, i: int): (f: int)
    requires 0 <= i <= |row|
    ensures i <= f <= |row| && (f < |row| ==> row[f])
    ensures forall x :: i <= x < f ==> !row[x]
    decreases |row| - i
  {
    if i == |row| then i
    else if row[i] then i
    else FirstTrue(row, i + 1)
  }

  /** set_next_component(improved): look up the position of the current
      component (an unlisted one has none, and the unboxing of the missing
      value throws), then take the component at the first true entry of
      that row of m_suc or m_fail; with no true entry the current component
      stays. */
  function SetNextComponent(cfg: Config, cur: int, improved: bool): (next: Option<int>)
    requires Shaped(cfg)
    ensures cur !in cfg.toIdx ==> next == None
    ensures cur in cfg.toIdx ==> (
      var row := (if improved then cfg.mSuc else cfg.mFail)[cfg.toIdx[cur]];
      && next.Some?
      && ((forall i :: 0 <= i < |row| ==> !row[i]) ==> next.value == cur)
      && (forall i :: 0 <= i < |row| && row[i] && (forall x :: 0 <= x < i ==> !row[x]) ==>
            next.value == cfg.components[i]))
  {
    if cur !in cfg.toIdx then None
    else
      var idx := cfg.toIdx[cur];
      var row := (if improved then cfg.mSuc else cfg.mFail)[idx];
      var f := FirstTrue(row, 0);
      assert forall i :: 0 <= i < |row| && row[i] && (forall x :: 0 <= x < i ==> !row[x]) ==> i == f;
      if f < |row| then Some(cfg.components[f]) else Some(cur)
  }

  /** A listed component is followed by a listed component. */
  lemma NextListed(cfg: Config, cur: int, improved: bool)
    requires Shaped(cfg) && cur in cfg.components
    ensures SetNextComponent(cfg, cur, improved).Some?
    ensures SetNextComponent(cfg, cur, improved).value in cfg.components
  {
  }

  /** The current component after the transitions for a run of outcomes
      (true for an improvement), or None once an unlisted component is
      looked up. */
  function Walk(cfg: Config, cur: int, outcomes: seq<bool>): Option<int>
    requires Shaped(cfg)
    decreases |outcomes|
  {
    if |outcomes| == 0 then Some(cur)
    else match SetNextComponent(cfg, cur, outcomes[0])
      case None => None
      case Some(c) => Walk(cfg, c, outcomes[1..])
  }

  /** Solve starts at components[0]; whatever the outcomes, the current
      component stays one of the listed components and no lookup fails. */
  lemma {:induction false} WalkStaysListed(cfg: Config, cur: int, outcomes: seq<bool>)
    requires Shaped(cfg) && cur in cfg.components
    ensures Walk(cfg, cur, outcomes).Some? && Walk(cfg, cur, outcomes).value in cfg.components
    decreases |outcomes|
  {
    if |outcomes| > 0 {
      NextListed(cfg, cur, outcomes[0]);
      WalkStaysListed(cfg, SetNextComponent(cfg, cur, outcomes[0]).value, outcomes[1..]);
    }
  }
}
