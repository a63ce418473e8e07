/** Facts about the two transforms on their own: the lengths and ranges
    of their outputs, and the twiddle-table indices they read. */
module TransformFacts {
  import opened ModArith
  import opened Outcomes
  import opened NttSpec

  /** For a power of two n, `while m < n` stops at m = n. */
  lemma {:induction false} StagesEndOfPow2(n: nat, m: nat)
    requires IsPow2(m) && IsPow2(n) && m <= n
    ensures StagesEnd(n, m) == n
    decreases n - m
  {
    if m < n {
      Pow2Below(m, n);
      assert (2 * m) / 2 == m && (2 * m) % 2 == 0;
      StagesEndOfPow2(n, 2 * m);
    }
  }

  /** With a table of n entries, the forward transform of a list of length
      n, a power of two, is defined. */
  lemma CoversPow2(n: nat, S: seq<int>)
    requires IsPow2(n) && n <= |S|
    ensures TableCovers(n, S) && StagesEnd(n, 1) == n
  {
    StagesEndOfPow2(n, 1);
  }

  /** M blocks of size T are H = M / 2 blocks of size T2 = 2T. */
  lemma HalveBlocks(m: int, t: int, n: int, h: int, t2: int)
    requires IsPow2(m) && m >= 2 && t >= 1 && m * t == n && h == m / 2 && t2 == 2 * t
    ensures IsPow2(h) && 2 * h == m && m <= n && h <= n
    ensures 2 * h * t == n && h * t2 == n && n / m == t
  {
    HalfOfPow2(m);
    MulAtLeast(t, m);
    assert 2 * h * t == m * t && h * (2 * t) == m * t;
    ModUnique(n, m, t, 0);
  }

  // ---------------------------------------------------------------------
  // Outputs

  /** A stage that covers the whole list leaves every entry in [0, q). */
  lemma CtStageReduced(X: seq<int>, q: int, S: seq<int>, m: nat, t: nat)
    requires q >= 1 && 2 * m * t == |X| && 2 * m <= |S|
    ensures forall k :: 0 <= k < |X| ==> 0 <= CtStage(X, q, S, m, t)[k] < q
  {
  }

  /** speedup_FNTT keeps the length, and for a power-of-two length n >= 2
      every entry of its output is reduced modulo q (its last stage, with
      t = 1, writes every position). */
  lemma FnttShape(a: seq<int>, q: int, S: seq<int>)
    requires q >= 1 && IsPow2(|a|) && |a| <= |S|
    ensures TableCovers(|a|, S) && |Fntt(a, q, S)| == |a|
    ensures |a| >= 2 ==> forall k :: 0 <= k < |a| ==> 0 <= Fntt(a, q, S)[k] < q
  {
    var n := |a|;
    CoversPow2(n, S);
    if n >= 2 {
      HalfOfPow2(n);
      ModUnique(n, n, 1, 0);
      assert Fntt(a, q, S) == CtStage(Fwd(a, q, S, n / 2), q, S, n / 2, 1);
      CtStageReduced(Fwd(a, q, S, n / 2), q, S, n / 2, 1);
    }
  }

  /** A stage never unreduces an entry: the prefix of entries below
      `bound` that was in [0, q) stays there, and the entries below 2mt it
      writes are reduced. */
  lemma StageKeepsReduced(X: seq<int>, q: int, S: seq<int>, m: nat, t: nat, bound: nat)
    requires q >= 1 && 2 * m * t <= |X| && 2 * m <= |S| && bound <= |X|
    requires forall k :: 0 <= k < bound && 2 * m * t <= k ==> 0 <= X[k] < q
    ensures forall k :: 0 <= k < bound ==> 0 <= CtStage(X, q, S, m, t)[k] < q
  {
  }

  /** For odd n an even stage end m (n / m) stops before the last entry. */
  lemma OddTailUntouched(n: nat, h: nat, t: nat)
    requires n % 2 == 1 && 2 * h * t <= n
    ensures 2 * h * t <= n - 1
  {
    assert 2 * h * t == 2 * (h * t);
  }

  /** After the stages for 1, ..., m/2 groups (m >= 2), the first
      2 (n / 2) entries are in [0, q), since the first stage writes all of
      them; for odd n the last entry is never written, because every stage
      ends at an even position m (n / m) <= n - 1. */
  lemma {:induction false} FwdReduced(a: seq<int>, q: int, S: seq<int>, m: nat)
    requires q >= 1 && IsPow2(m) && 2 <= m <= |S|
    ensures forall k :: 0 <= k < 2 * (|a| / 2) ==> 0 <= Fwd(a, q, S, m)[k] < q
    ensures |a| % 2 == 1 ==> Fwd(a, q, S, m)[|a| - 1] == a[|a| - 1]
    decreases m
  {
    var n := |a|;
    HalfOfPow2(m);
    var h := m / 2;
    var t := n / m;
    MulFloorLe(n, m);
    assert 2 * h * t <= n;
    var X := Fwd(a, q, S, h);
    assert Fwd(a, q, S, m) == CtStage(X, q, S, h, t);
    var bound := 2 * (n / 2);
    if h == 1 {
      assert 2 * h * t == bound;
    } else {
      FwdReduced(a, q, S, h);
    }
    StageKeepsReduced(X, q, S, h, t, bound);
    if n % 2 == 1 {
      OddTailUntouched(n, h, t);
      CtTail(X, q, S, h, t);
      if h == 1 {
        assert X == a;
      }
    }
  }

  /** speedup_FNTT for any length n >= 2 whose table covers the reads:
      the first 2 (n / 2) entries are reduced modulo q, so for even n every
      entry is; for odd n the last entry comes back as the input's. */
  lemma FnttReduced(a: seq<int>, q: int, S: seq<int>)
    requires q >= 1 && |a| >= 2 && TableCovers(|a|, S)
    ensures forall k :: 0 <= k < 2 * (|a| / 2) ==> 0 <= Fntt(a, q, S)[k] < q
    ensures |a| % 2 == 0 ==> forall k :: 0 <= k < |a| ==> 0 <= Fntt(a, q, S)[k] < q
    ensures |a| % 2 == 1 ==> Fntt(a, q, S)[|a| - 1] == a[|a| - 1]
  {
    StagesEndIsPow2(|a|, 1);
    FwdReduced(a, q, S, StagesEnd(|a|, 1));
    assert |a| % 2 == 0 ==> 2 * (|a| / 2) == |a|;
  }

  /** speedup_INTT keeps the length and reduces every entry modulo q, for
      any length. It raises `IndexError` exactly when its first stage, with
      n / 2 groups, runs past the end of the table, and otherwise fails
      exactly when n has no inverse modulo q. */
  lemma InttShape(a: seq<int>, q: int, S: seq<int>)
    requires q >= 1
    ensures Intt(a, q, S).Ok? ==> |Intt(a, q, S).value| == |a|
    ensures Intt(a, q, S).Ok? ==> forall k :: 0 <= k < |a| ==> 0 <= Intt(a, q, S).value[k] < q
    ensures Intt(a, q, S) == Err(IndexOutOfRange) <==> |a| >= 2 && 2 * (|a| / 2) > |S|
    ensures Intt(a, q, S) == Err(NotInvertible) <==>
      InvTableCovers(|a|, S) && forall x :: 0 <= x < q ==> (|a| * x) % q != 1 % q
    ensures Intt(a, q, S).Err? ==> Intt(a, q, S).error in {IndexOutOfRange, NotInvertible}
  {
  }

  // ---------------------------------------------------------------------
  // Twiddle indices

  lemma {:induction false} RangeConcat(lo: int, mid: int, hi: int)
    requires lo <= mid <= hi
    ensures Range(lo, mid) + Range(mid, hi) == Range(lo, hi)
  {
    assert forall k :: 0 <= k < hi - lo ==> (Range(lo, mid) + Range(mid, hi))[k] == lo + k;
  }

  /** Each value in lo .. hi-1 occurs once in Range(lo, hi), others never. */
  lemma {:induction false} RangeCount(lo: int, hi: int, k: int)
    ensures multiset(Range(lo, hi))[k] == if lo <= k < hi then 1 else 0
    decreases hi - lo
  {
    if lo < hi {
      var front := Range(lo, hi - 1);
      RangeCount(lo, hi - 1, k);
      assert Range(lo, hi) == front + [hi - 1];
      assert multiset(front + [hi - 1]) == multiset(front) + multiset{hi - 1};
    }
  }

  /** For a power of two n, the forward stages read table entries 1, ...,
      n - 1 in increasing order. */
  lemma {:induction false} FwdReadsAll(n: nat)
    requires IsPow2(n)
    ensures FwdReads(n) == Range(1, n)
    decreases n
  {
    if n >= 2 {
      HalfOfPow2(n);
      FwdReadsAll(n / 2);
      RangeConcat(1, n / 2, n);
    }
  }

  /** The inverse stages read the same indices as the forward ones, in
      another order. */
  lemma {:induction false} InvReadsPermuted(n: nat)
    requires IsPow2(n)
    ensures multiset(InvReads(n)) == multiset(FwdReads(n))
    decreases n
  {
    if n >= 2 {
      HalfOfPow2(n);
      InvReadsPermuted(n / 2);
    }
  }

  /** speedup_FNTT reads entries 1 .. n-1 of its table, once each in
      increasing order, and never entry 0. */
  lemma FnttTwiddleReads(n: nat)
    requires IsPow2(n)
    ensures FwdReads(StagesEnd(n, 1)) == Range(1, n)
  {
    StagesEndOfPow2(n, 1);
    FwdReadsAll(n);
  }

  /** speedup_INTT reads each entry 1 .. n-1 of its table exactly once
      and no other entry. */
  lemma InttTwiddleReads(n: nat)
    requires IsPow2(n)
    ensures |InvReads(n)| == n - 1
    ensures forall k :: multiset(InvReads(n))[k] == if 1 <= k < n then 1 else 0
  {
    InvReadsPermuted(n);
    FwdReadsAll(n);
    forall k ensures multiset(InvReads(n))[k] == if 1 <= k < n then 1 else 0 {
      RangeCount(1, n, k);
    }
    assert |multiset(InvReads(n))| == |multiset(Range(1, n))|;
  }

  // ---------------------------------------------------------------------
  // Lengths that are not a power of two

  /** For n = 5, speedup_INTT reads only twiddles 2, 3 and then 1, so a
      four-entry table is enough and the transform succeeds. */
  lemma OddLengthInverse()
    ensures Intt([1, 2, 3, 4, 5], 17, [1, 1, 1, 1]).Ok?
  {
    assert ModInverse(5, 17).Some? by { assert (5 * 7) % 17 == 1 % 17; }
  }

  /** For n = 5 the forward stages cover only the first four positions
      (the stage with four groups has t = 0), so the last entry comes out
      unreduced: the output is not confined to [0, q). */
  lemma OddLengthTail()
    ensures TableCovers(5, [1, 1, 1, 1, 1, 1, 1, 1])
    ensures Fntt([0, 0, 0, 0, 20], 17, [1, 1, 1, 1, 1, 1, 1, 1])[4] == 20
  {
    var a, S := [0, 0, 0, 0, 20], [1, 1, 1, 1, 1, 1, 1, 1];
    assert StagesEnd(5, 1) == 8;
    assert IsPow2(2) && IsPow2(4) && IsPow2(8);
    var F1 := Fwd(a, 17, S, 2);
    assert F1 == CtStage(a, 17, S, 1, 2);
    CtTail(a, 17, S, 1, 2);
    var F2 := Fwd(a, 17, S, 4);
    assert F2 == CtStage(F1, 17, S, 2, 1);
    CtTail(F1, 17, S, 2, 1);
    assert Fwd(a, 17, S, 8) == CtStage(F2, 17, S, 4, 0);
    CtTail(F2, 17, S, 4, 0);
  }
}
