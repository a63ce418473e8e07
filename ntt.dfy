/** speedup_FNTT and speedup_INTT (ntt.py:84-168) as the in-place loops they
    are: each works on a fresh copy A of its input, one butterfly stage per
    turn of its `while` loop. Each method is proved to compute the stage
    functions of NttSpec, and to read the twiddle table at exactly the
    indices FwdReads / InvReads list. */
module Ntt {
  import opened ModArith
  import opened Outcomes
  import opened NttSpec

  lemma RangeStep(lo: int, hi: int)
    requires lo <= hi
    ensures Range(lo, hi) + [hi] == Range(lo, hi + 1)
  {
  }

  /** Entries below `done` hold the stage's output, the rest its input. */
  ghost predicate StagedUpTo(A: seq<int>, Y: seq<int>, X: seq<int>, done: int)
    requires |A| == |Y| == |X|
  {
    forall k :: 0 <= k < |A| ==> A[k] == if k < done then Y[k] else X[k]
  }

  /** The loop over j of one group of a Cooley-Tukey stage (ntt.py:117-121):
      t butterflies with twiddle s from position j1 on. Y is the stage's
      output, known to hold those butterflies. */
  method ForwardGroup(A: array<int>, ghost X: seq<int>, ghost Y: seq<int>, q: int, s: int, j1: int, t: nat)
    requires q >= 1 && |X| == A.Length && CtButterflies(X, Y, q, s, j1, t)
    requires StagedUpTo(A[..], Y, X, j1)
    modifies A
    ensures StagedUpTo(A[..], Y, X, j1 + 2 * t)
  {
    var j2 := j1 + t - 1;
    for j := j1 to j2 + 1
      invariant forall k :: 0 <= k < A.Length ==>
        A[k] == if k < j || j1 + t <= k < j + t then Y[k] else X[k]
    {
      var u := A[j];
      var v := A[j + t] * s;
      A[j] := (u + v) % q;
      A[j + t] := (u - v) % q;
    }
  }

  /** One Cooley-Tukey stage in place: the body of `while m < n` after
      `t >>= 1` (ntt.py:113-121). */
  method ForwardStage(A: array<int>, q: int, S: seq<int>, m: nat, t: nat) returns (ghost visited: seq<int>)
    requires q >= 1 && 2 * m * t <= A.Length && 2 * m <= |S|
    modifies A
    ensures A[..] == CtStage(old(A[..]), q, S, m, t)
    ensures visited == Range(m, 2 * m)
  {
    ghost var X := A[..];
    ghost var Y := CtStage(X, q, S, m, t);
    visited := [];
    for i := 0 to m
      invariant StagedUpTo(A[..], Y, X, 2 * i * t)
      invariant visited == Range(m, m + i)
    {
      GroupSpan(i, m, t);
      RangeStep(m, m + i);
      visited := visited + [m + i];
      var j1 := 2 * i * t;
      var s := S[m + i];
      CtGroup(X, q, S, m, t, i, j1);
      ForwardGroup(A, X, Y, q, s, j1, t);
    }
    CtTail(X, q, S, m, t);
    StagedAll(A[..], Y, X, 2 * m * t);
  }

  /** Once every position of the stage is done, the list is the output. */
  lemma StagedAll(A: seq<int>, Y: seq<int>, X: seq<int>, done: int)
    requires |A| == |Y| == |X| && StagedUpTo(A, Y, X, done)
    requires done >= 0 && forall k :: done <= k < |X| ==> Y[k] == X[k]
    ensures A == Y
  {
    assert forall k :: 0 <= k < |A| ==> A[k] == Y[k];
  }

  /** speedup_FNTT: the transform, or `IndexError` at the first stage whose
      twiddles m .. 2m - 1 run past the end of the table. */
  method SpeedupFntt(a: seq<int>, q: int, psiTableRev: seq<int>) returns (r: Result<seq<int>>, ghost visited: seq<int>)
    requires q >= 1
    ensures TableCovers(|a|, psiTableRev) ==> r == Ok(Fntt(a, q, psiTableRev))
    ensures !TableCovers(|a|, psiTableRev) ==> r == Err(IndexOutOfRange)
    ensures TableCovers(|a|, psiTableRev) ==> visited == FwdReads(StagesEnd(|a|, 1))
  {
    var n := |a|;
    var t := n;
    var A := new int[n](k requires 0 <= k < n => a[k]);
    var m := 1;
    visited := [];
    assert A[..] == a;
    while m < n
      invariant IsPow2(m) && StagesEnd(n, m) == StagesEnd(n, 1)
      invariant m >= 2 ==> m <= |psiTableRev|
      invariant t == n / m
      invariant A[..] == Fwd(a, q, psiTableRev, m)
      invariant visited == FwdReads(m)
      decreases n - m
    {
      if 2 * m > |psiTableRev| {
        assert StagesEnd(n, m) == StagesEnd(n, 2 * m);
        return Err(IndexOutOfRange), visited;
      }
      t := t / 2;
      DivHalf(n, m);
      FwdStep(a, q, psiTableRev, m);
      var stageVisited := ForwardStage(A, q, psiTableRev, m, t);
      visited := visited + stageVisited;
      m := 2 * m;
    }
    StagesEndIsPow2(n, 1);
    r := Ok(A[..]);
  }

  /** The loop over j of one group of a Gentleman-Sande stage
      (ntt.py:157-161). */
  method InverseGroup(A: array<int>, ghost X: seq<int>, ghost Y: seq<int>, q: int, s: int, j1: int, t: nat)
    requires q >= 1 && |X| == A.Length && GsButterflies(X, Y, q, s, j1, t)
    requires StagedUpTo(A[..], Y, X, j1)
    modifies A
    ensures StagedUpTo(A[..], Y, X, j1 + 2 * t)
  {
    var j2 := j1 + t - 1;
    for j := j1 to j2 + 1
      invariant forall k :: 0 <= k < A.Length ==>
        A[k] == if k < j || j1 + t <= k < j + t then Y[k] else X[k]
    {
      var u := A[j];
      var v := A[j + t];
      A[j] := (u + v) % q;
      A[j + t] := ((u - v) * s) % q;
    }
  }

  /** One Gentleman-Sande stage in place: the body of `while m > 1` with
      h = m >> 1 groups (ntt.py:152-162). */
  method InverseStage(A: array<int>, q: int, S: seq<int>, h: nat, t: nat) returns (ghost visited: seq<int>)
    requires q >= 1 && 2 * h * t <= A.Length && 2 * h <= |S|
    modifies A
    ensures A[..] == GsStage(old(A[..]), q, S, h, t)
    ensures visited == Range(h, 2 * h)
  {
    ghost var X := A[..];
    ghost var Y := GsStage(X, q, S, h, t);
    visited := [];
    var j1 := 0;
    for i := 0 to h
      invariant j1 == 2 * i * t
      invariant StagedUpTo(A[..], Y, X, j1)
      invariant visited == Range(h, h + i)
    {
      NextGroup(i, h, t, j1);
      RangeStep(h, h + i);
      visited := visited + [h + i];
      var s := S[h + i];
      GsGroup(X, q, S, h, t, i, j1);
      InverseGroup(A, X, Y, q, s, j1, t);
      j1 := j1 + 2 * t;
      assert j1 == 2 * (i + 1) * t;
    }
    GsTail(X, q, S, h, t);
    StagedAll(A[..], Y, X, 2 * h * t);
  }

  /** Group i of h starts at j1 = 2it; the next one starts 2t further on,
      at most at 2ht, where the last group ends. */
  lemma NextGroup(i: int, h: int, t: int, j1: int)
    requires 0 <= i < h && t >= 0 && j1 == 2 * i * t
    ensures j1 + 2 * t == 2 * (i + 1) * t <= 2 * h * t
  {
    GroupSpan(i, h, t);
  }

  /** The final loop of speedup_INTT: every entry times c modulo q
      (ntt.py:166-167). */
  method ScaleInPlace(A: array<int>, c: int, q: int)
    requires q >= 1
    modifies A
    ensures A[..] == Scale(old(A[..]), c, q)
  {
    ghost var B := A[..];
    for j := 0 to A.Length
      invariant forall k :: 0 <= k < A.Length ==> A[k] == if k < j then (B[k] * c) % q else B[k]
    {
      A[j] := (A[j] * c) % q;
    }
    assert A[..] == Scale(B, c, q);
  }

  /** speedup_INTT: the transform, or `IndexError` when the first stage's
      twiddles run past the end of the table, or the error of
      `pow(n, -1, q)`. */
  method SpeedupIntt(a: seq<int>, q: int, psiInvTableRev: seq<int>) returns (r: Result<seq<int>>, ghost visited: seq<int>)
    requires q >= 1
    ensures r == Intt(a, q, psiInvTableRev)
    ensures InvTableCovers(|a|, psiInvTableRev) ==> visited == InvReads(|a|)
  {
    var n := |a|;
    var A := new int[n](k requires 0 <= k < n => a[k]);
    var t: nat := 1;
    var m: nat := n;
    visited := [];
    assert A[..] == a;
    while m > 1
      invariant t >= 1 && m * t <= n && m <= n
      invariant m < n ==> InvTableCovers(n, psiInvTableRev)
      invariant InvTableCovers(n, psiInvTableRev) ==>
        InvFrom(A[..], q, psiInvTableRev, m, t) == InvFrom(a, q, psiInvTableRev, n, 1)
      invariant visited + InvReads(m) == InvReads(n)
      decreases m
    {
      var h := m / 2;
      if 2 * h > |psiInvTableRev| {
        return Err(IndexOutOfRange), visited;
      }
      InvStep(A[..], q, psiInvTableRev, m, t);
      var stageVisited := InverseStage(A, q, psiInvTableRev, h, t);
      visited := visited + stageVisited;
      t := 2 * t;
      m := h;
    }
    var nInv := ModInverse(n, q);
    if nInv.None? {
      return Err(NotInvertible), visited;
    }
    ScaleInPlace(A, nInv.value, q);
    r := Ok(A[..]);
  }
}
