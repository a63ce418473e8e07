/** Polynomials with integer coefficients, lowest degree first, and their
    product modulo x^n + 1: the negacyclic convolution that the pipeline of
    usage.py computes with two forward transforms, a pointwise product and
    an inverse transform (usage.py:25-30). */
module Polynomial {
  import opened ModArith

  // ---------------------------------------------------------------------
  // Evaluation

  /** a[0] + a[1] w + ... + a[|a|-1] w^(|a|-1), by Horner's rule. */
  function Eval(a: seq<int>, w: int): int
    decreases |a|
  {
    if a == [] then 0 else a[0] + w * Eval(a[1..], w)
  }

  lemma EvalSingle(v: int, w: int)
    ensures Eval([v], w) == v
  {
    assert [v][1..] == [];
  }

  /** The coefficients of b come after those of a, shifted by |a|. */
  lemma {:induction false} EvalConcat(a: seq<int>, b: seq<int>, w: int)
    ensures Eval(a + b, w) == Eval(a, w) + Pow(w, |a|) * Eval(b, w)
    decreases |a|
  {
    if a == [] {
      assert a + b == b;
    } else {
      assert (a + b)[1..] == a[1..] + b;
      EvalConcat(a[1..], b, w);
      var e, f := Eval(a[1..], w), Eval(b, w);
      assert w * (e + Pow(w, |a| - 1) * f) == w * e + (w * Pow(w, |a| - 1)) * f;
    }
  }

  /** Coefficients congruent modulo q give congruent values. */
  lemma {:induction false} EvalCong(x: seq<int>, y: seq<int>, w: int, q: int)
    requires q >= 1 && |x| == |y| && forall k :: 0 <= k < |x| ==> x[k] % q == y[k] % q
    ensures Eval(x, w) % q == Eval(y, w) % q
    decreases |x|
  {
    if x != [] {
      assert x[0] % q == y[0] % q;
      EvalCong(x[1..], y[1..], w, q);
      MulCong(w, w, Eval(x[1..], w), Eval(y[1..], w), q);
      AddCong(x[0], y[0], w * Eval(x[1..], w), w * Eval(y[1..], w), q);
    }
  }

  // ---------------------------------------------------------------------
  // Linearity

  function Add(x: seq<int>, y: seq<int>): (r: seq<int>)
    requires |x| == |y|
    ensures |r| == |x| && forall k :: 0 <= k < |r| ==> r[k] == x[k] + y[k]
  {
    seq(|x|, k requires 0 <= k < |x| => x[k] + y[k])
  }

  function Times(c: int, x: seq<int>): (r: seq<int>)
    ensures |r| == |x| && forall k :: 0 <= k < |r| ==> r[k] == c * x[k]
  {
    seq(|x|, k requires 0 <= k < |x| => c * x[k])
  }

  lemma {:induction false} EvalAdd(x: seq<int>, y: seq<int>, w: int)
    requires |x| == |y|
    ensures Eval(Add(x, y), w) == Eval(x, w) + Eval(y, w)
    decreases |x|
  {
    if x != [] {
      assert Add(x, y)[1..] == Add(x[1..], y[1..]);
      EvalAdd(x[1..], y[1..], w);
      assert w * (Eval(x[1..], w) + Eval(y[1..], w)) == w * Eval(x[1..], w) + w * Eval(y[1..], w);
    }
  }

  lemma {:induction false} EvalTimes(c: int, x: seq<int>, w: int)
    ensures Eval(Times(c, x), w) == c * Eval(x, w)
    decreases |x|
  {
    if x != [] {
      assert Times(c, x)[1..] == Times(c, x[1..]);
      EvalTimes(c, x[1..], w);
      assert w * (c * Eval(x[1..], w)) == c * (w * Eval(x[1..], w));
    }
  }

  // ---------------------------------------------------------------------
  // Multiplication by x^i modulo x^n + 1

  /** The coefficients of x^i * b(x) modulo x^n + 1 for n = |b|: the
      top i coefficients wrap around to the bottom with their sign flipped. */
  function Rotate(b: seq<int>, i: int): (r: seq<int>)
    requires 0 <= i <= |b|
    ensures |r| == |b|
  {
    seq(|b|, k requires 0 <= k < |b| => if k >= i then b[k - i] else -b[k + |b| - i])
  }

  /** Multiplying by x once more moves the top coefficient, negated, to the
      bottom. */
  lemma RotateStep(b: seq<int>, i: int)
    requires 0 <= i < |b|
    ensures var r := Rotate(b, i);
      Rotate(b, i + 1) == [-r[|b| - 1]] + r[..|b| - 1]
  {
  }

  /** The arithmetic of one rotation: with E = e + w^(n-1) v and
      w^n = -1, the value -v + w e is w E. */
  lemma RotateArith(bigE: int, e: int, r: int, p: int, p1: int, v: int, w: int, q: int)
    requires q >= 1 && bigE == e + p1 * v && r == -v + w * e && p == w * p1 && p % q == (-1) % q
    ensures r % q == (w * bigE) % q
  {
    assert w * bigE == w * e + p * v;
    MulCong(p, -1, v, v, q);
    AddCong(w * e, w * e, p * v, -1 * v, q);
  }

  /** When w^n = -1 modulo q, evaluating that rotation is multiplying by w. */
  lemma EvalRotateOnce(x: seq<int>, w: int, q: int)
    requires q >= 1 && |x| >= 1 && Pow(w, |x|) % q == (-1) % q
    ensures Eval([-x[|x| - 1]] + x[..|x| - 1], w) % q == (w * Eval(x, w)) % q
  {
    var n := |x|;
    var init, v := x[..n - 1], x[n - 1];
    assert x == init + [v];
    EvalConcat(init, [v], w);
    EvalSingle(v, w);
    assert ([-v] + init)[1..] == init;
    RotateArith(Eval(x, w), Eval(init, w), Eval([-v] + init, w), Pow(w, n), Pow(w, n - 1), v, w, q);
  }

  /** r = w r', r' = p y modulo q, give r = (w p) y. */
  lemma ChainArith(r: int, r': int, p: int, pw: int, y: int, w: int, q: int)
    requires q >= 1 && r % q == (w * r') % q && r' % q == (p * y) % q && pw == w * p
    ensures r % q == (pw * y) % q
  {
    MulCong(w, w, r', p * y, q);
    assert w * (p * y) == pw * y;
  }

  lemma {:induction false} EvalRotate(b: seq<int>, i: nat, w: int, q: int)
    requires q >= 1 && i <= |b| && Pow(w, |b|) % q == (-1) % q
    ensures Eval(Rotate(b, i), w) % q == (Pow(w, i) * Eval(b, w)) % q
    decreases i
  {
    if i == 0 {
      assert Rotate(b, 0) == b;
    } else {
      var r := Rotate(b, i - 1);
      EvalRotate(b, i - 1, w, q);
      RotateStep(b, i - 1);
      EvalRotateOnce(r, w, q);
      ChainArith(Eval(Rotate(b, i), w), Eval(r, w), Pow(w, i - 1), Pow(w, i), Eval(b, w), w, q);
    }
  }

  // ---------------------------------------------------------------------
  // The negacyclic product

  /** The contribution of a[i] to coefficient k of a(x) b(x) mod x^n + 1:
      a[i] b[k - i] when i <= k, and -a[i] b[k + n - i] when i + j = k + n. */
  function NegaTerm(a: seq<int>, b: seq<int>, k: int, i: int): int
    requires |a| == |b| && 0 <= k < |b| && 0 <= i < |a|
  {
    if i <= k then a[i] * b[k - i] else -(a[i] * b[k + |b| - i])
  }

  /** The sum of the first i contributions to coefficient k. */
  function NegaSum(a: seq<int>, b: seq<int>, k: int, i: int): int
    requires |a| == |b| && 0 <= k < |b| && 0 <= i <= |a|
    decreases i
  {
    if i == 0 then 0 else NegaSum(a, b, k, i - 1) + NegaTerm(a, b, k, i - 1)
  }

  /** The product of a and b in Z[x]/(x^n + 1), n = |a| = |b|: coefficient
      k is the sum of a[i] b[j] over i + j = k minus the sum over
      i + j = k + n. */
  function Negacyclic(a: seq<int>, b: seq<int>): (c: seq<int>)
    requires |a| == |b|
    ensures |c| == |a|
  {
    seq(|a|, k requires 0 <= k < |a| => NegaSum(a, b, k, |a|))
  }

  /** The coefficients after the first i contributions. */
  function Partial(a: seq<int>, b: seq<int>, i: int): (c: seq<int>)
    requires |a| == |b| && 0 <= i <= |a|
    ensures |c| == |a|
  {
    seq(|a|, k requires 0 <= k < |a| => NegaSum(a, b, k, i))
  }

  lemma PartialStep(a: seq<int>, b: seq<int>, i: int)
    requires |a| == |b| && 0 <= i < |a|
    ensures Partial(a, b, i + 1) == Add(Partial(a, b, i), Times(a[i], Rotate(b, i)))
  {
    var r := Rotate(b, i);
    forall k | 0 <= k < |a|
      ensures Partial(a, b, i + 1)[k] == Partial(a, b, i)[k] + a[i] * r[k]
    {
      if i > k {
        assert -(a[i] * b[k + |b| - i]) == a[i] * -b[k + |b| - i];
      }
    }
  }

  lemma EvalZeros(n: nat, w: int)
    ensures Eval(seq(n, _ => 0), w) == 0
  {
    if n > 0 {
      assert seq(n, _ => 0)[1..] == seq(n - 1, _ => 0);
      EvalZeros(n - 1, w);
    }
  }

  /** The arithmetic of one more contribution: P' = P + c R with
      P = e y and R = p y modulo q gives P' = (e + p c) y. */
  lemma PartialArith(p': int, bigP: int, c: int, r: int, e: int, y: int, p: int, q: int)
    requires q >= 1 && p' == bigP + c * r && bigP % q == (e * y) % q && r % q == (p * y) % q
    ensures p' % q == ((e + p * c) * y) % q
  {
    MulCong(c, c, r, p * y, q);
    AddCong(bigP, e * y, c * r, c * (p * y), q);
    assert e * y + c * (p * y) == (e + p * c) * y;
  }

  /** With w^n = -1 modulo q, the first i contributions evaluate to
      (a[0] + ... + a[i-1] w^(i-1)) b(w). */
  lemma {:induction false} EvalPartial(a: seq<int>, b: seq<int>, i: nat, w: int, q: int)
    requires q >= 1 && |a| == |b| && i <= |a| && Pow(w, |b|) % q == (-1) % q
    ensures Eval(Partial(a, b, i), w) % q == (Eval(a[..i], w) * Eval(b, w)) % q
    decreases i
  {
    if i == 0 {
      assert Partial(a, b, 0) == seq(|a|, _ => 0);
      EvalZeros(|a|, w);
    } else {
      var j := i - 1;
      var P, r := Partial(a, b, j), Rotate(b, j);
      PartialStep(a, b, j);
      EvalAdd(P, Times(a[j], r), w);
      EvalTimes(a[j], r, w);
      EvalPartial(a, b, j, w, q);
      EvalRotate(b, j, w, q);
      assert a[..i] == a[..j] + [a[j]];
      EvalConcat(a[..j], [a[j]], w);
      EvalSingle(a[j], w);
      PartialArith(Eval(Partial(a, b, i), w), Eval(P, w), a[j], Eval(r, w), Eval(a[..j], w), Eval(b, w), Pow(w, j), q);
    }
  }

  /** Evaluating at a point w with w^n = -1 modulo q turns the negacyclic
      product into the product of values. */
  lemma NegacyclicEval(a: seq<int>, b: seq<int>, w: int, q: int)
    requires q >= 1 && |a| == |b| && Pow(w, |a|) % q == (-1) % q
    ensures Eval(Negacyclic(a, b), w) % q == (Eval(a, w) * Eval(b, w)) % q
  {
    EvalPartial(a, b, |a|, w, q);
    assert Partial(a, b, |a|) == Negacyclic(a, b);
    assert a[..|a|] == a;
  }
}
