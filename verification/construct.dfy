/** The constructor that takes the problem data as arguments, either keeping
    the caller's arrays or copying them into freshly allocated ones. */
module Construct {
  import opened FctpData

  /** A freshly allocated Java int array: all zero. */
  function Zeros(k: nat): (z: seq<int>)
    ensures |z| == k && forall i :: 0 <= i < k ==> z[i] == 0
  {
    seq(k, _ => 0)
  }

  /** One copy loop of the constructor: entries 0..k-1 of src overwrite
      those of dst, the rest of dst stays. */
  method CopyLoop(dst: seq<int>, src: seq<int>, k: int) returns (r: seq<int>)
    requires 0 <= k <= |dst| && k <= |src|
    ensures |r| == |dst|
    ensures forall i :: 0 <= i < |r| ==> r[i] == if i < k then src[i] else dst[i]
  {
    r := dst;
    var i := 0;
    while i < k
      invariant 0 <= i <= k && |r| == |dst|
      invariant forall x :: 0 <= x < |r| ==> r[x] == if x < i then src[x] else dst[x]
    {
      r := r[i := src[i]];
      i := i + 1;
    }
  }

  /** Shape and sign conditions on the arguments that make a valid
      instance once the first m, n and m*n entries are taken. */
  ghost predicate ValidData(m: int, n: int, s: seq<int>, d: seq<int>, tc: seq<int>, fc: seq<int>) {
    && m >= 1 && n >= 1
    && |s| >= m && |d| >= n && |tc| >= m * n && |fc| >= m * n
    && (forall i :: 0 <= i < m ==> 0 < s[i] < IntMax)
    && (forall j :: 0 <= j < n ==> 0 < d[j] < IntMax)
    && (forall a :: 0 <= a < m * n ==> tc[a] >= 0 && fc[a] >= 0)
  }

  /** The constructor as written: with copying requested the demand loop
      reads `for (j = 0; j < j; j++)`, whose guard fails at j == 0, so no
      demand is copied and the freshly allocated demands stay zero. */
  method NewInstanceAsWritten(m: int, n: int, s: seq<int>, d: seq<int>, tc: seq<int>, fc: seq<int>, copyDat: bool)
    returns (inst: Instance)
    requires m >= 1 && n >= 1
    requires copyDat ==> |s| >= m && |tc| >= m * n && |fc| >= m * n
    ensures inst.m == m && inst.n == n
    ensures !copyDat ==> inst == Instance(m, n, s, d, tc, fc)
    ensures copyDat ==> inst.supply == s[..m] && inst.tcost == tc[..m * n] && inst.fcost == fc[..m * n]
    ensures copyDat ==> |inst.demand| == n && forall j :: 0 <= j < n ==> inst.demand[j] == 0
    ensures copyDat ==> !inst.Valid()
  {
    if !copyDat {
      inst := Instance(m, n, s, d, tc, fc);
      return;
    }
    MulPositive(m, n);
    var supply := CopyLoop(Zeros(m), s, m);
    var demand := CopyLoop(Zeros(n), d, 0);
    var tcost := CopyLoop(Zeros(m * n), tc, m * n);
    var fcost := CopyLoop(Zeros(m * n), fc, m * n);
    inst := Instance(m, n, supply, demand, tcost, fcost);
    assert inst.demand[0] == 0;
  }

  /** The constructor with the demand loop running over 0..n-1, as for the
      other three arrays: copying yields exactly the leading entries of the
      arguments, and a valid instance precisely for valid data. */
  method NewInstance(m: int, n: int, s: seq<int>, d: seq<int>, tc: seq<int>, fc: seq<int>, copyDat: bool)
    returns (inst: Instance)
    requires m >= 1 && n >= 1
    requires copyDat ==> |s| >= m && |d| >= n && |tc| >= m * n && |fc| >= m * n
    ensures !copyDat ==> inst == Instance(m, n, s, d, tc, fc)
    ensures copyDat ==> inst == Instance(m, n, s[..m], d[..n], tc[..m * n], fc[..m * n])
    ensures copyDat ==> (inst.Valid() <==> ValidData(m, n, s, d, tc, fc))
  {
    if !copyDat {
      inst := Instance(m, n, s, d, tc, fc);
      return;
    }
    MulPositive(m, n);
    var supply := CopyLoop(Zeros(m), s, m);
    var demand := CopyLoop(Zeros(n), d, n);
    var tcost := CopyLoop(Zeros(m * n), tc, m * n);
    var fcost := CopyLoop(Zeros(m * n), fc, m * n);
    inst := Instance(m, n, supply, demand, tcost, fcost);
  }

  lemma MulPositive(m: int, n: int)
    requires m >= 1 && n >= 1
    ensures m * n >= 1
  {
  }
}
