/** The butterfly networks of speedup_FNTT and speedup_INTT (ntt.py:84-168)
    as functions on sequences. A stage with m groups of half-size t runs m
    butterfly groups over the first 2mt entries and leaves the rest alone;
    group i reads the twiddle factor at table index m + i. */
module NttSpec {
  import opened ModArith
  import opened Outcomes

  // ---------------------------------------------------------------------
  // Groups of a stage

  /** Position k < 2mt lies in group k / (2t), at offset k % (2t). */
  lemma GroupBounds(k: int, m: int, t: int)
    requires 0 <= k < 2 * m * t && t >= 1
    ensures 0 <= k / (2 * t) < m
    ensures 0 <= k % (2 * t) < 2 * t
    ensures k == 2 * t * (k / (2 * t)) + k % (2 * t)
    ensures 2 * t * (k / (2 * t)) + 2 * t <= 2 * m * t
  {
    var w := 2 * t;
    var i, p := k / w, k % w;
    assert k == w * i + p;
    assert 2 * m * t == m * w;
    assert w * (m - i) == m * w - w * i;
    PosFactor(w, m - i);
    MulLe(i + 1, m, w);
  }

  /** Offset p of group i is position 2it + p. */
  lemma GroupOf(i: int, p: int, m: int, t: int)
    requires 0 <= i < m && 0 <= p < 2 * t
    ensures (2 * i * t + p) / (2 * t) == i && (2 * i * t + p) % (2 * t) == p
    ensures 0 <= 2 * i * t && 2 * i * t + 2 * t <= 2 * m * t
  {
    ModUnique(2 * i * t + p, 2 * t, i, p);
    MulLe(i + 1, m, 2 * t);
    MulLe(0, i, 2 * t);
  }

  /** Groups i and i + 1 start 2t apart, and all m of them fit in 2mt. */
  lemma GroupSpan(i: int, m: int, t: int)
    requires 0 <= i < m && t >= 0
    ensures 0 <= 2 * i * t
    ensures 2 * (i + 1) * t == 2 * i * t + 2 * t <= 2 * m * t
  {
    MulLe(i + 1, m, 2 * t);
    MulLe(0, i, 2 * t);
  }

  // ---------------------------------------------------------------------
  // One Cooley-Tukey stage (ntt.py:113-121)

  /** Entry k after the stage: U + V*S and U - V*S modulo q, with U the
      upper and V the lower input of k's butterfly and S = table[m + i]. */
  function CtAt(X: seq<int>, q: int, S: seq<int>, m: nat, t: nat, k: nat): int
    requires q >= 1 && 2 * m * t <= |X| && 2 * m <= |S| && k < |X|
  {
    if k >= 2 * m * t then X[k]
    else
      GroupBounds(k, m, t);
      var i := k / (2 * t);
      if k % (2 * t) < t then (X[k] + X[k + t] * S[m + i]) % q
      else (X[k - t] - X[k] * S[m + i]) % q
  }

  function CtStage(X: seq<int>, q: int, S: seq<int>, m: nat, t: nat): (Y: seq<int>)
    requires q >= 1 && 2 * m * t <= |X| && 2 * m <= |S|
    ensures |Y| == |X|
  {
    seq(|X|, k requires 0 <= k < |X| => CtAt(X, q, S, m, t, k))
  }

  /** The two outputs of butterfly p of group i. */
  lemma CtPair(X: seq<int>, q: int, S: seq<int>, m: nat, t: nat, i: nat, p: nat)
    requires q >= 1 && 2 * m * t <= |X| && 2 * m <= |S| && i < m && p < t
    ensures 2 * i * t + p + t < 2 * m * t
    ensures CtAt(X, q, S, m, t, 2 * i * t + p) ==
      (X[2 * i * t + p] + X[2 * i * t + p + t] * S[m + i]) % q
    ensures CtAt(X, q, S, m, t, 2 * i * t + p + t) ==
      (X[2 * i * t + p] - X[2 * i * t + p + t] * S[m + i]) % q
  {
    GroupOf(i, p, m, t);
    GroupOf(i, p + t, m, t);
  }

  /** Y holds the outputs of the t Cooley-Tukey butterflies with twiddle s
      whose upper inputs are X[lo], ..., X[lo + t - 1]. */
  ghost predicate CtButterflies(X: seq<int>, Y: seq<int>, q: int, s: int, lo: int, t: int)
    requires q >= 1
  {
    && 0 <= lo && lo + 2 * t <= |X| == |Y|
    && forall k :: lo <= k < lo + t ==>
      Y[k] == (X[k] + X[k + t] * s) % q && Y[k + t] == (X[k] - X[k + t] * s) % q
  }

  /** Group i of the stage, starting at j1 = 2it, is such a set of
      butterflies with twiddle S[m + i]. */
  lemma CtGroup(X: seq<int>, q: int, S: seq<int>, m: nat, t: nat, i: nat, j1: int)
    requires q >= 1 && 2 * m * t <= |X| && 2 * m <= |S| && i < m && j1 == 2 * i * t
    ensures CtButterflies(X, CtStage(X, q, S, m, t), q, S[m + i], j1, t)
  {
    var Y := CtStage(X, q, S, m, t);
    GroupSpan(i, m, t);
    forall k | j1 <= k < j1 + t
      ensures Y[k] == (X[k] + X[k + t] * S[m + i]) % q
      ensures Y[k + t] == (X[k] - X[k + t] * S[m + i]) % q
    {
      CtPair(X, q, S, m, t, i, k - j1);
    }
  }

  lemma CtTail(X: seq<int>, q: int, S: seq<int>, m: nat, t: nat)
    requires q >= 1 && 2 * m * t <= |X| && 2 * m <= |S|
    ensures forall k :: 2 * m * t <= k < |X| ==> CtStage(X, q, S, m, t)[k] == X[k]
  {
  }

  // ---------------------------------------------------------------------
  // One Gentleman-Sande stage (ntt.py:154-162)

  /** Entry k after the stage: U + V and (U - V)*S modulo q. */
  function GsAt(X: seq<int>, q: int, S: seq<int>, m: nat, t: nat, k: nat): int
    requires q >= 1 && 2 * m * t <= |X| && 2 * m <= |S| && k < |X|
  {
    if k >= 2 * m * t then X[k]
    else
      GroupBounds(k, m, t);
      var i := k / (2 * t);
      if k % (2 * t) < t then (X[k] + X[k + t]) % q
      else ((X[k - t] - X[k]) * S[m + i]) % q
  }

  function GsStage(X: seq<int>, q: int, S: seq<int>, m: nat, t: nat): (Y: seq<int>)
    requires q >= 1 && 2 * m * t <= |X| && 2 * m <= |S|
    ensures |Y| == |X|
  {
    seq(|X|, k requires 0 <= k < |X| => GsAt(X, q, S, m, t, k))
  }

  lemma GsPair(X: seq<int>, q: int, S: seq<int>, m: nat, t: nat, i: nat, p: nat)
    requires q >= 1 && 2 * m * t <= |X| && 2 * m <= |S| && i < m && p < t
    ensures 2 * i * t + p + t < 2 * m * t
    ensures GsAt(X, q, S, m, t, 2 * i * t + p) ==
      (X[2 * i * t + p] + X[2 * i * t + p + t]) % q
    ensures GsAt(X, q, S, m, t, 2 * i * t + p + t) ==
      ((X[2 * i * t + p] - X[2 * i * t + p + t]) * S[m + i]) % q
  {
    GroupOf(i, p, m, t);
    GroupOf(i, p + t, m, t);
  }

  /** The same for Gentleman-Sande butterflies. */
  ghost predicate GsButterflies(X: seq<int>, Y: seq<int>, q: int, s: int, lo: int, t: int)
    requires q >= 1
  {
    && 0 <= lo && lo + 2 * t <= |X| == |Y|
    && forall k :: lo <= k < lo + t ==>
      Y[k] == (X[k] + X[k + t]) % q && Y[k + t] == ((X[k] - X[k + t]) * s) % q
  }

  lemma GsGroup(X: seq<int>, q: int, S: seq<int>, m: nat, t: nat, i: nat, j1: int)
    requires q >= 1 && 2 * m * t <= |X| && 2 * m <= |S| && i < m && j1 == 2 * i * t
    ensures GsButterflies(X, GsStage(X, q, S, m, t), q, S[m + i], j1, t)
  {
    var Y := GsStage(X, q, S, m, t);
    GroupSpan(i, m, t);
    forall k | j1 <= k < j1 + t
      ensures Y[k] == (X[k] + X[k + t]) % q
      ensures Y[k + t] == ((X[k] - X[k + t]) * S[m + i]) % q
    {
      GsPair(X, q, S, m, t, i, k - j1);
    }
  }

  lemma GsTail(X: seq<int>, q: int, S: seq<int>, m: nat, t: nat)
    requires q >= 1 && 2 * m * t <= |X| && 2 * m <= |S|
    ensures forall k :: 2 * m * t <= k < |X| ==> GsStage(X, q, S, m, t)[k] == X[k]
  {
  }

  // ---------------------------------------------------------------------
  // The forward transform (ntt.py:107-123)

  /** The value of m when `while m < n` stops, starting from m. */
  function StagesEnd(n: nat, m: nat): (e: nat)
    requires m >= 1
    ensures e >= m && e >= n
    decreases n - m
  {
    if m >= n then m else StagesEnd(n, 2 * m)
  }

  /** The list after the stages for 1, 2, ..., m/2 groups; the stage for j
      groups has half-size n / (2j), as `t >>= 1` computes. */
  function Fwd(a: seq<int>, q: int, S: seq<int>, m: nat): (r: seq<int>)
    requires q >= 1 && IsPow2(m) && (m >= 2 ==> m <= |S|)
    ensures |r| == |a|
    decreases m
  {
    if m == 1 then a
    else
      HalfOfPow2(m);
      MulFloorLe(|a|, m);
      CtStage(Fwd(a, q, S, m / 2), q, S, m / 2, |a| / m)
  }

  /** One more stage: the one with m groups of half-size |a| / (2m). */
  lemma FwdStep(a: seq<int>, q: int, S: seq<int>, m: nat)
    requires q >= 1 && IsPow2(m) && 2 * m <= |S|
    ensures IsPow2(2 * m) && 0 <= |a| / (2 * m) && 2 * m * (|a| / (2 * m)) <= |a|
    ensures Fwd(a, q, S, 2 * m) == CtStage(Fwd(a, q, S, m), q, S, m, |a| / (2 * m))
    ensures FwdReads(2 * m) == FwdReads(m) + Range(m, 2 * m)
  {
    assert (2 * m) / 2 == m && (2 * m) % 2 == 0;
    MulFloorLe(|a|, 2 * m);
  }

  /** A table long enough for every twiddle index the loops read. */
  predicate TableCovers(n: nat, S: seq<int>)
  {
    n >= 2 ==> StagesEnd(n, 1) <= |S|
  }

  lemma {:induction false} StagesEndIsPow2(n: nat, m: nat)
    requires IsPow2(m)
    ensures IsPow2(StagesEnd(n, m))
    decreases n - m
  {
    if m < n {
      assert (2 * m) % 2 == 0 && (2 * m) / 2 == m;
      StagesEndIsPow2(n, 2 * m);
    }
  }

  /** What speedup_FNTT returns. */
  function Fntt(a: seq<int>, q: int, S: seq<int>): seq<int>
    requires q >= 1 && TableCovers(|a|, S)
  {
    StagesEndIsPow2(|a|, 1);
    Fwd(a, q, S, StagesEnd(|a|, 1))
  }

  // ---------------------------------------------------------------------
  // The inverse transform (ntt.py:147-168)

  /** The stages `while m > 1` still runs from m groups' worth of list with
      half-size t, halving m and doubling t each time. */
  function InvFrom(A: seq<int>, q: int, S: seq<int>, m: nat, t: nat): (r: seq<int>)
    requires q >= 1 && t >= 1 && m * t <= |A| && InvTableCovers(m, S)
    ensures |r| == |A|
    decreases m
  {
    if m <= 1 then A
    else
      MulLe(2 * (m / 2), m, t);
      InvFrom(GsStage(A, q, S, m / 2, t), q, S, m / 2, 2 * t)
  }

  /** One more stage, from m groups' worth of list down to m / 2. */
  lemma InvStep(A: seq<int>, q: int, S: seq<int>, m: nat, t: nat)
    requires q >= 1 && t >= 1 && m * t <= |A| && 2 <= m && 2 * (m / 2) <= |S|
    ensures 2 * (m / 2) * t <= |A| && (m / 2) * (2 * t) <= |A|
    ensures InvFrom(A, q, S, m, t) == InvFrom(GsStage(A, q, S, m / 2, t), q, S, m / 2, 2 * t)
  {
    var h := m / 2;
    MulLe(2 * h, m, t);
    assert h * (2 * t) == 2 * h * t;
  }

  /** The final loop: every entry times n^-1 modulo q. */
  function Scale(A: seq<int>, c: int, q: int): (r: seq<int>)
    requires q >= 1
    ensures |r| == |A|
  {
    seq(|A|, j requires 0 <= j < |A| => (A[j] * c) % q)
  }

  /** A table long enough for every twiddle index the inverse loop reads:
      its first stage, with h = n / 2 groups, reads h .. 2h - 1, and the
      later stages read below that. */
  predicate InvTableCovers(n: nat, S: seq<int>)
  {
    n >= 2 ==> 2 * (n / 2) <= |S|
  }

  /** What speedup_INTT returns, or the error it raises: `IndexError` when
      the table is too short, else the one `pow(n, -1, q)` raises. */
  function Intt(a: seq<int>, q: int, S: seq<int>): Result<seq<int>>
    requires q >= 1
  {
    if !InvTableCovers(|a|, S) then Err(IndexOutOfRange)
    else
      match ModInverse(|a|, q)
      case None => Err(NotInvertible)
      case Some(nInv) => Ok(Scale(InvFrom(a, q, S, |a|, 1), nInv, q))
  }

  // ---------------------------------------------------------------------
  // Twiddle indices read

  /** lo, lo + 1, ..., hi - 1. */
  function Range(lo: int, hi: int): (r: seq<int>)
    ensures |r| == if lo <= hi then hi - lo else 0
    ensures forall k :: 0 <= k < |r| ==> r[k] == lo + k
  {
    if lo >= hi then [] else seq(hi - lo, k requires 0 <= k < hi - lo => lo + k)
  }

  /** The table indices m + i the forward stages for 1, ..., m/2 groups
      read, in order. */
  function FwdReads(m: nat): seq<int>
    decreases m
  {
    if m <= 1 then [] else FwdReads(m / 2) + Range(m / 2, m)
  }

  /** The table indices h + i the inverse stages read, from m/2 groups
      down to one. */
  function InvReads(m: nat): seq<int>
    decreases m
  {
    if m <= 1 then [] else Range(m / 2, 2 * (m / 2)) + InvReads(m / 2)
  }
}
