/** What speedup_FNTT computes (ntt.py:107-123): when the twiddle table is
    a tree of square roots, output k is the value of the input polynomial
    at a root w_k of x^n + 1 modulo q. After the stages for 1, ..., M/2
    groups the list splits into M blocks of n / M entries, and block b is
    the input reduced modulo x^(n/M) - z_b, z_b the value the table assigns
    to node M + b: evaluating it at any w with w^(n/M) = z_b gives the input
    polynomial's value at w. */
module Evaluation {
  import opened ModArith
  import opened NttSpec
  import opened Polynomial
  import opened TransformFacts

  /** The value attached to node k of the table's tree: -1 at the root
      k = 1; at k >= 2, plus or minus the table entry of the parent node
      k / 2, minus for the odd (second) child. */
  function Parent(S: seq<int>, k: int): int
    requires 1 <= k && k / 2 < |S|
  {
    if k == 1 then -1 else if k % 2 == 0 then S[k / 2] else -S[k / 2]
  }

  /** Every table entry 1 .. n-1 squares to its node's value modulo q. */
  predicate TwiddlesValid(S: seq<int>, q: int, n: int)
    requires q >= 1
  {
    n <= |S| && forall k {:trigger Parent(S, k)} :: 1 <= k < n ==> (S[k] * S[k]) % q == Parent(S, k) % q
  }

  /** The point at which output k of the forward transform evaluates. */
  function Root(S: seq<int>, n: int, k: int): int
    requires 0 <= k < n <= |S|
  {
    Parent(S, n + k)
  }

  // ---------------------------------------------------------------------
  // Sizes

  /** Block b of M blocks of size T lies inside the list. */
  lemma BlockInside(b: int, m: int, t: int)
    requires 0 <= b < m && t >= 1
    ensures 0 <= b * t && b * t + t <= m * t
  {
    MulLe(b + 1, m, t);
    MulLe(0, b, t);
  }

  // ---------------------------------------------------------------------
  // One butterfly stage on one block

  /** A half block nb with nb[p] = lo[p] + hi[p] sigma, evaluated where
      w^T = sigma, has the value of the whole block lo + hi. */
  lemma HalfBlock(lo: seq<int>, hi: seq<int>, nb: seq<int>, sigma: int, w: int, q: int)
    requires q >= 1 && |lo| == |hi| == |nb|
    requires forall p :: 0 <= p < |nb| ==> nb[p] % q == (lo[p] + hi[p] * sigma) % q
    requires Pow(w, |lo|) % q == sigma % q
    ensures Eval(nb, w) % q == Eval(lo + hi, w) % q
  {
    var sum := Add(lo, Times(sigma, hi));
    TwistedEntries(lo, hi, nb, sigma, w, q);
    TwistedSum(lo, hi, sigma, w);
    EvalConcat(lo, hi, w);
    HalfArith(Eval(nb, w), Eval(sum, w), Eval(lo, w), Eval(hi, w), Eval(lo + hi, w), sigma, Pow(w, |lo|), q);
  }

  /** Entry by entry, nb is lo + sigma hi modulo q, so it has its value. */
  lemma TwistedEntries(lo: seq<int>, hi: seq<int>, nb: seq<int>, sigma: int, w: int, q: int)
    requires q >= 1 && |lo| == |hi| == |nb|
    requires forall p :: 0 <= p < |nb| ==> nb[p] % q == (lo[p] + hi[p] * sigma) % q
    ensures Eval(nb, w) % q == Eval(Add(lo, Times(sigma, hi)), w) % q
  {
    var sum := Add(lo, Times(sigma, hi));
    forall p | 0 <= p < |nb| ensures nb[p] % q == sum[p] % q {
      var x := lo[p] + hi[p] * sigma;
      assert sum[p] == x by {
        assert Times(sigma, hi)[p] == sigma * hi[p];
      }
    }
    EvalCong(nb, sum, w, q);
  }

  /** The value of lo + sigma hi is lo(w) + sigma hi(w). */
  lemma TwistedSum(lo: seq<int>, hi: seq<int>, sigma: int, w: int)
    requires |lo| == |hi|
    ensures Eval(Add(lo, Times(sigma, hi)), w) == Eval(lo, w) + sigma * Eval(hi, w)
  {
    EvalAdd(lo, Times(sigma, hi), w);
    EvalTimes(sigma, hi, w);
  }

  lemma HalfArith(e: int, es: int, el: int, eh: int, ec: int, sigma: int, p: int, q: int)
    requires q >= 1 && e % q == es % q && es == el + sigma * eh && ec == el + p * eh && p % q == sigma % q
    ensures e % q == ec % q
  {
    MulCong(sigma, p, eh, eh, q);
    AddCong(el, el, sigma * eh, p * eh, q);
  }

  /** w^(2T) is the square of w^T. */
  lemma SquareStep(w: int, t: nat, t2: nat, sigma: int, s: int, z: int, q: int)
    requires q >= 1 && t2 == 2 * t && Pow(w, t) % q == sigma % q && (sigma == s || sigma == -s) && (s * s) % q == z % q
    ensures Pow(w, t2) % q == z % q
  {
    PowAdd(w, t, t);
    MulCong(Pow(w, t), sigma, Pow(w, t), sigma, q);
    assert sigma * sigma == s * s;
  }

  /** The butterflies of one group, inputs lo = X[j1 .. jm] and
      hi = X[jm .. j2], give its upper half the outputs lo[p] + hi[p] s and
      its lower half lo[p] - hi[p] s, reduced; nb is the half `odd`. */
  lemma GroupHalves(X: seq<int>, Y: seq<int>, q: int, s: int, t: nat, j1: int, jm: int, j2: int,
                    odd: bool, start: int, end: int, lo: seq<int>, hi: seq<int>, nb: seq<int>)
    requires q >= 1 && CtButterflies(X, Y, q, s, j1, t) && jm == j1 + t && j2 == jm + t
    requires start == (if odd then jm else j1) && end == start + t
    requires lo == X[j1 .. jm] && hi == X[jm .. j2] && nb == Y[start .. end]
    ensures |lo| == |hi| == |nb| == t
    ensures forall p :: 0 <= p < |nb| ==> nb[p] % q == (lo[p] + hi[p] * (if odd then -s else s)) % q
  {
    var sigma := if odd then -s else s;
    forall p | 0 <= p < |nb|
      ensures nb[p] % q == (lo[p] + hi[p] * sigma) % q
    {
      var u, v := X[j1 + p], X[j1 + p + t];
      assert lo[p] == u && hi[p] == v;
      assert nb[p] == (u + v * sigma) % q by {
        if odd {
          assert nb[p] == Y[j1 + p + t];
          assert u - v * s == u + v * -s;
        }
      }
      ModOfMod(u + v * sigma, q);
    }
  }

  lemma SliceSplit(X: seq<int>, i: int, j: int, k: int)
    requires 0 <= i <= j <= k <= |X|
    ensures X[i .. k] == X[i .. j] + X[j .. k]
  {
  }

  /** Either half of the butterflies' output, read where w^T is the
      half's twiddle sign times s, has the value of the group's input. */
  lemma GroupValue(X: seq<int>, Y: seq<int>, q: int, s: int, t: nat, j1: int, jm: int, j2: int,
                   odd: bool, start: int, end: int, w: int)
    requires q >= 1 && CtButterflies(X, Y, q, s, j1, t) && jm == j1 + t && j2 == jm + t
    requires start == (if odd then jm else j1) && end == start + t
    requires Pow(w, t) % q == (if odd then -s else s) % q
    ensures Eval(Y[start .. end], w) % q == Eval(X[j1 .. j2], w) % q
  {
    var lo, hi, nb := X[j1 .. jm], X[jm .. j2], Y[start .. end];
    GroupHalves(X, Y, q, s, t, j1, jm, j2, odd, start, end, lo, hi, nb);
    SliceSplit(X, j1, jm, j2);
    HalfBlock(lo, hi, nb, if odd then -s else s, w, q);
  }

  /** Output half `odd` of group i of the stage Y with h groups of size
      2T, the half at start .. end, read where w^T is +-S[h + i], has the
      value of the whole group j1 .. j2 there. */
  lemma BlockStep(X: seq<int>, Y: seq<int>, q: int, S: seq<int>, h: nat, t: nat, i: int,
                  j1: int, jm: int, j2: int, odd: bool, start: int, end: int, w: int)
    requires q >= 1 && t >= 1 && 2 * h * t == |X| && 2 * h <= |S| && 0 <= i < h
    requires j1 == 2 * i * t && jm == j1 + t && j2 == jm + t
    requires Y == CtStage(X, q, S, h, t) && start == (if odd then jm else j1) && end == start + t
    requires Pow(w, t) % q == (if odd then -S[h + i] else S[h + i]) % q
    ensures 0 <= j1 <= j2 <= |X| && 0 <= start <= end <= |Y|
    ensures Eval(Y[start .. end], w) % q == Eval(X[j1 .. j2], w) % q
  {
    GroupSpan(i, h, t);
    CtGroup(X, q, S, h, t, i, j1);
    GroupValue(X, Y, q, S[h + i], t, j1, jm, j2, odd, start, end, w);
  }

  // ---------------------------------------------------------------------
  // All stages

  /** Block b of size T is the upper or lower half of block b / 2 of size
      2T. */
  lemma SplitIndex(b: int, t: int)
    requires b >= 0
    ensures b * t == 2 * (b / 2) * t + (if b % 2 == 1 then t else 0)
    ensures (b / 2) * (2 * t) == 2 * (b / 2) * t
  {
    var i := b / 2;
    assert b == 2 * i + b % 2;
  }

  /** Node M + b of the tree is child b % 2 of node M/2 + b/2. */
  lemma ChildNode(S: seq<int>, m: int, b: int)
    requires m >= 2 && m % 2 == 0 && 0 <= b < m && m <= |S|
    ensures (m + b) / 2 == m / 2 + b / 2 && 1 <= m / 2 + b / 2 < m
    ensures Parent(S, m + b) == if b % 2 == 1 then -S[m / 2 + b / 2] else S[m / 2 + b / 2]
  {
    ModUnique(m + b, 2, m / 2 + b / 2, b % 2);
  }

  /** Block b of the M blocks of size T = n / M, at offset lo = bT, and a
      point w with w^T equal to the value of node M + b. */
  predicate AtBlock(a: seq<int>, q: int, S: seq<int>, m: int, t: int, b: int, lo: int, w: int)
  {
    q >= 1 && IsPow2(m) && t >= 1 && m * t == |a| && m <= |a| && TwiddlesValid(S, q, |a|)
    && 0 <= b < m && lo == b * t && Pow(w, t) % q == Parent(S, m + b) % q
  }

  /** One stage back: block b of size T, at lo .. hi, after the stages for
      1, ..., M/2 groups has, at w, the value block i = b / 2 of size
      T2 = 2T, at lo' .. hi', has one stage earlier, and w^T2 is the value
      of node M/2 + i. */
  lemma FwdBlockStep(a: seq<int>, q: int, S: seq<int>, m: nat, t: nat, b: int, lo: int, hi: int,
                     h: nat, t2: nat, i: int, lo': int, hi': int, w: int)
    requires AtBlock(a, q, S, m, t, b, lo, w) && m >= 2 && hi == lo + t
    requires h == m / 2 && t2 == 2 * t && i == b / 2 && lo' == i * t2 && hi' == lo' + t2
    ensures AtBlock(a, q, S, h, t2, i, lo', w) && h < m
    ensures 0 <= lo <= hi <= |a| && 0 <= lo' <= hi' <= |a|
    ensures Eval(Fwd(a, q, S, m)[lo .. hi], w) % q == Eval(Fwd(a, q, S, h)[lo' .. hi'], w) % q
  {
    HalveBlocks(m, t, |a|, h, t2);
    var odd := b % 2 == 1;
    ChildNode(S, m, b);
    SplitIndex(b, t);
    var s := S[h + i];
    assert Eval(Fwd(a, q, S, m)[lo .. hi], w) % q == Eval(Fwd(a, q, S, h)[lo' .. hi'], w) % q by {
      var X := Fwd(a, q, S, h);
      assert Fwd(a, q, S, m) == CtStage(X, q, S, h, t);
      BlockStep(X, Fwd(a, q, S, m), q, S, h, t, i, lo', lo' + t, hi', odd, lo, hi, w);
    }
    assert Pow(w, t2) % q == Parent(S, h + i) % q by {
      assert (s * s) % q == Parent(S, h + i) % q;
      SquareStep(w, t, t2, if odd then -s else s, s, Parent(S, h + i), q);
    }
  }

  /** Before any stage the single block is the input. */
  lemma FwdBlocksBase(a: seq<int>, q: int, S: seq<int>, t: nat, b: int, lo: int, hi: int, w: int)
    requires q >= 1 && 1 * t == |a| && 0 <= b < 1 && lo == b * t && hi == lo + t
    ensures 0 <= lo <= hi <= |a|
    ensures Eval(Fwd(a, q, S, 1)[lo .. hi], w) % q == Eval(a, w) % q
  {
    assert b == 0 && t == |a| && lo == 0;
    assert Fwd(a, q, S, 1)[lo .. hi] == a;
  }

  /** After the stages for 1, ..., M/2 groups, block b of size T = n / M,
      at lo .. hi, has the input's value at every w with w^T = the value of
      node M + b. */
  lemma {:induction false} FwdBlocks(a: seq<int>, q: int, S: seq<int>, m: nat, t: nat, b: int, lo: int, hi: int, w: int)
    requires AtBlock(a, q, S, m, t, b, lo, w) && hi == lo + t
    ensures 0 <= lo <= hi <= |a|
    ensures Eval(Fwd(a, q, S, m)[lo .. hi], w) % q == Eval(a, w) % q
    decreases m
  {
    if m == 1 {
      FwdBlocksBase(a, q, S, t, b, lo, hi, w);
    } else {
      var h: nat, t2: nat, i := m / 2, 2 * t, b / 2;
      var lo' := i * t2;
      var hi' := lo' + t2;
      FwdBlockStep(a, q, S, m, t, b, lo, hi, h, t2, i, lo', hi', w);
      FwdBlocks(a, q, S, h, t2, i, lo', hi', w);
    }
  }

  /** Output k of speedup_FNTT is the input polynomial's value at Root(k),
      modulo q. */
  lemma FnttEval(a: seq<int>, q: int, S: seq<int>, k: int)
    requires q >= 1 && IsPow2(|a|) && TwiddlesValid(S, q, |a|) && 0 <= k < |a|
    ensures TableCovers(|a|, S)
    ensures Fntt(a, q, S)[k] % q == Eval(a, Root(S, |a|, k)) % q
  {
    var n := |a|;
    CoversPow2(n, S);
    var w := Root(S, n, k);
    assert AtBlock(a, q, S, n, 1, k, k, w) by {
      assert Pow(w, 1) == w;
    }
    FwdBlocks(a, q, S, n, 1, k, k, k + 1, w);
    var v := Fntt(a, q, S)[k];
    assert Fwd(a, q, S, n)[k .. k + 1] == [v] by {
      assert Fntt(a, q, S) == Fwd(a, q, S, n);
    }
    EvalSingle(v, w);
    assert v % q == Eval(a, w) % q;
  }

  /** Every node value at depth M is a root of x^M + 1 modulo q; in
      particular every evaluation point Root(k) is a root of x^n + 1. */
  lemma {:induction false} NodePower(S: seq<int>, q: int, n: int, m: nat, b: int)
    requires q >= 1 && IsPow2(m) && m <= n && TwiddlesValid(S, q, n) && 0 <= b < m
    ensures Pow(Parent(S, m + b), m) % q == (-1) % q
    decreases m
  {
    if m >= 2 {
      HalfOfPow2(m);
      NodeSquare(S, q, n, m, b);
      PowOfSquare(Parent(S, m + b), Parent(S, m / 2 + b / 2), m / 2, m, q);
      NodePower(S, q, n, m / 2, b / 2);
    }
  }

  /** The value of node M + b squares to the value of its parent node. */
  lemma NodeSquare(S: seq<int>, q: int, n: int, m: int, b: int)
    requires q >= 1 && m >= 2 && m % 2 == 0 && m <= n && TwiddlesValid(S, q, n) && 0 <= b < m
    ensures 1 <= m / 2 + b / 2 < m
    ensures (Parent(S, m + b) * Parent(S, m + b)) % q == Parent(S, m / 2 + b / 2) % q
  {
    ChildNode(S, m, b);
    var s := S[m / 2 + b / 2];
    assert (s * s) % q == Parent(S, m / 2 + b / 2) % q;
    var sigma := Parent(S, m + b);
    assert sigma * sigma == s * s;
  }

  /** x^(2h) is z^h when x^2 = z. */
  lemma PowOfSquare(x: int, z: int, h: nat, m: nat, q: int)
    requires q >= 1 && m == 2 * h && (x * x) % q == z % q
    ensures Pow(x, m) % q == Pow(z, h) % q
  {
    PowMul(x, 2, h);
    assert Pow(x, 2) == x * Pow(x, 1) == x * x;
    PowCong(x * x, z, h, q);
  }

  lemma RootPower(S: seq<int>, q: int, n: int, k: int)
    requires q >= 1 && IsPow2(n) && TwiddlesValid(S, q, n) && 0 <= k < n
    ensures Pow(Root(S, n, k), n) % q == (-1) % q
  {
    NodePower(S, q, n, n, k);
  }
}
