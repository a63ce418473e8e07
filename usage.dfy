/** The toy pipeline of usage.py: two polynomials of degree < 8 multiplied
    modulo x^8 + 1 and modulo 17 by a forward transform of each, a pointwise
    product and an inverse transform. The general theorem NttMultiplies is
    what the script relies on; Example is the script itself. */
module Usage {
  import opened ModArith
  import opened Outcomes
  import opened SecureRandom
  import opened PrimRoot
  import opened BitReverse
  import opened NttSpec
  import opened Ntt
  import opened Polynomial
  import opened Evaluation
  import opened RoundTrip
  import opened TransformFacts
  import opened Tables

  /** AB = [(x*y) % q for x,y in zip(A,B)] (usage.py:28): every entry is
      reduced. */
  function Pointwise(x: seq<int>, y: seq<int>, q: int): (r: seq<int>)
    requires q >= 1 && |x| == |y|
    ensures |r| == |x| && forall k :: 0 <= k < |r| ==> 0 <= r[k] < q
  {
    seq(|x|, k requires 0 <= k < |x| => (x[k] * y[k]) % q)
  }

  /** Entry k of the pointwise product of the transforms of a and b is
      entry k of the transform of their negacyclic product: all three are
      values at the same root w of x^n + 1. */
  lemma ProductAt(a: seq<int>, b: seq<int>, q: int, S: seq<int>, k: int, fa: int, fb: int, fc: int)
    requires q >= 1 && IsPow2(|a|) && |a| == |b| && TwiddlesValid(S, q, |a|) && 0 <= k < |a|
    requires TableCovers(|a|, S)
    requires fa == Fntt(a, q, S)[k] && fb == Fntt(b, q, S)[k] && fc == Fntt(Negacyclic(a, b), q, S)[k]
    ensures ((fa * fb) % q) % q == (1 * fc) % q
  {
    var n := |a|;
    var c := Negacyclic(a, b);
    var w := Root(S, n, k);
    FnttEval(a, q, S, k);
    FnttEval(b, q, S, k);
    FnttEval(c, q, S, k);
    RootPower(S, q, n, k);
    NegacyclicEval(a, b, w, q);
    MulCong(fa, Eval(a, w), fb, Eval(b, w), q);
    ModOfMod(fa * fb, q);
  }

  /** The pointwise product of the forward transforms is the forward
      transform of the negacyclic product, modulo q. */
  lemma ProductOfTransforms(a: seq<int>, b: seq<int>, q: int, S: seq<int>)
    requires q >= 1 && IsPow2(|a|) && |a| == |b| && TwiddlesValid(S, q, |a|)
    ensures TableCovers(|a|, S) && |Fntt(a, q, S)| == |Fntt(b, q, S)| == |a|
    ensures ScaledCong(Pointwise(Fntt(a, q, S), Fntt(b, q, S), q), 1, Fntt(Negacyclic(a, b), q, S), q)
  {
    var n := |a|;
    var c := Negacyclic(a, b);
    FnttShape(a, q, S);
    FnttShape(b, q, S);
    FnttShape(c, q, S);
    var A, B, F := Fntt(a, q, S), Fntt(b, q, S), Fntt(c, q, S);
    var AB := Pointwise(A, B, q);
    forall k | 0 <= k < n ensures AB[k] % q == (1 * F[k]) % q {
      ProductAt(a, b, q, S, k, A[k], B[k], F[k]);
    }
  }

  /** What usage.py computes, for any power-of-two length n: with a table S
      forming a tree of square roots of -1 (as the reordered psi table does
      when psi^n = -1), an inverse table Sinv, and n invertible modulo q,
      the inverse transform of the pointwise product of the forward
      transforms of a and b is the product a(x) b(x) modulo x^n + 1,
      reduced modulo q. Without an inverse of n it is the error
      pow(n, -1, q) raises. */
  lemma NttMultiplies(a: seq<int>, b: seq<int>, q: int, S: seq<int>, Sinv: seq<int>)
    requires q >= 1 && IsPow2(|a|) && |a| == |b|
    requires TwiddlesValid(S, q, |a|) && InversePairs(S, Sinv, q, |a|)
    ensures TableCovers(|a|, S) && |Fntt(a, q, S)| == |Fntt(b, q, S)| == |a|
    ensures var AB := Pointwise(Fntt(a, q, S), Fntt(b, q, S), q);
      && (ModInverse(|a|, q).Some? ==>
            Intt(AB, q, Sinv) == Ok(seq(|a|, k requires 0 <= k < |a| => Negacyclic(a, b)[k] % q)))
      && (ModInverse(|a|, q).None? ==> Intt(AB, q, Sinv) == Err(NotInvertible))
  {
    var n := |a|;
    var c := Negacyclic(a, b);
    ProductOfTransforms(a, b, q, S);
    var AB := Pointwise(Fntt(a, q, S), Fntt(b, q, S), q);
    CoversPow2(n, S);
    assert Fntt(c, q, S) == Fwd(c, q, S, n);
    InvUndoesFwd(c, q, S, Sinv, n, 1, AB, 1);
    assert 1 * n == n;
    var ni := ModInverse(n, q);
    if ni.Some? {
      ScaleCancels(InvFrom(AB, q, Sinv, n, 1), c, n, ni.value, q);
    }
  }

  /** Parameters the pipeline works for: a power-of-two length n and a
      modulus q > 1 in which n is invertible. */
  predicate ValidParams(n: int, q: int)
  {
    IsPow2(n) && q > 1 && ModInverse(n, q).Some?
  }

  /** The round trip with the tables usage.py builds: when psi * psi_inv = 1
      modulo q, the inverse transform of the forward transform of a is a
      reduced modulo q. */
  lemma TablesRoundTrip(a: seq<int>, psi: int, psiInv: int, q: int)
    requires ValidParams(|a|, q) && (psi * psiInv) % q == 1 % q
    ensures TableCovers(|a|, RevPowerTable(psi, q, |a|))
    ensures Intt(Fntt(a, q, RevPowerTable(psi, q, |a|)), q, RevPowerTable(psiInv, q, |a|))
      == Ok(seq(|a|, j requires 0 <= j < |a| => a[j] % q))
  {
    TablesInverse(psi, psiInv, q, |a|);
    NttRoundTrip(a, q, RevPowerTable(psi, q, |a|), RevPowerTable(psiInv, q, |a|));
  }

  /** Polynomial multiplication with the tables usage.py builds: when
      psi^n = -1 and psi * psi_inv = 1 modulo q, the pipeline of
      usage.py:25-30 computes a(x) b(x) modulo x^n + 1, reduced modulo q. */
  lemma TablesMultiply(a: seq<int>, b: seq<int>, psi: int, psiInv: int, q: int)
    requires ValidParams(|a|, q) && |a| == |b|
    requires Pow(psi, |a|) % q == (-1) % q && (psi * psiInv) % q == 1 % q
    ensures var S := RevPowerTable(psi, q, |a|);
      && TableCovers(|a|, S) && |Fntt(a, q, S)| == |Fntt(b, q, S)| == |a|
      && Intt(Pointwise(Fntt(a, q, S), Fntt(b, q, S), q), q, RevPowerTable(psiInv, q, |a|))
         == Ok(seq(|a|, k requires 0 <= k < |a| => Negacyclic(a, b)[k] % q))
  {
    TableIsTree(psi, q, |a|);
    TablesInverse(psi, psiInv, q, |a|);
    NttMultiplies(a, b, q, RevPowerTable(psi, q, |a|), RevPowerTable(psiInv, q, |a|));
  }

  /** The inputs and parameters of usage.py:4-11. */
  const N: nat := 8
  const Q: int := 17
  const Input: seq<int> := [1, 2, 3, 4, 5, 6, 7, 8]

  /** The product of 1 + 2x + ... + 8x^7 with itself modulo x^8 + 1. */
  lemma ExampleProduct()
    ensures Negacyclic(Input, Input) == [-146, -160, -160, -144, -110, -56, 20, 120]
  {
  }

  /** The same product modulo 17. */
  lemma ExampleResidues()
    ensures seq(N, k requires 0 <= k < N => Negacyclic(Input, Input)[k] % Q) == [7, 10, 10, 9, 9, 12, 3, 1]
  {
    ExampleProduct();
  }

  /** 8 * 15 = 120 = 7 * 17 + 1, so pow(8, -1, 17) exists. */
  lemma LengthInvertible()
    ensures ModInverse(N, Q).Some?
  {
    InverseExists(N, Q, 15);
  }

  /** The pipeline on the inputs of usage.py with any twiddle tables of the
      required shape gives [7, 10, 10, 9, 9, 12, 3, 1]. */
  lemma ExampleOutcome(S: seq<int>, Sinv: seq<int>)
    requires TwiddlesValid(S, Q, N) && InversePairs(S, Sinv, Q, N)
    ensures TableCovers(N, S) && |Fntt(Input, Q, S)| == N
    ensures Intt(Pointwise(Fntt(Input, Q, S), Fntt(Input, Q, S), Q), Q, Sinv) == Ok([7, 10, 10, 9, 9, 12, 3, 1])
  {
    NttMultiplies(Input, Input, Q, S, Sinv);
    LengthInvertible();
    ExampleResidues();
  }

  /** The tables usage.py:14-22 builds from a root psi of x^8 + 1 modulo 17
      and its inverse have the required shape. */
  lemma ExampleTables(psi: int, psiInv: int)
    requires Pow(psi, N) % Q == (-1) % Q && (psi * psiInv) % Q == 1 % Q
    ensures TwiddlesValid(RevPowerTable(psi, Q, N), Q, N)
    ensures InversePairs(RevPowerTable(psi, Q, N), RevPowerTable(psiInv, Q, N), Q, N)
  {
    TableIsTree(psi, Q, N);
    TablesInverse(psi, psiInv, Q, N);
  }

  /** usage.py as a whole, with the entropy the root search consumes as a
      parameter: when get_prim_root finds a root, C is the product of the
      two inputs modulo x^8 + 1 and 17; otherwise the search's error comes
      back (no root within the tries, or the entropy ran out). */
  method Example(entropy: seq<Byte>) returns (C: Result<seq<int>>, rest: seq<Byte>)
    ensures var (root, left) := Search(N, Q, Exponent(N, Q, None), entropy, Tries);
      && rest == left
      && (root.Ok? ==> C == Ok([7, 10, 10, 9, 9, 12, 3, 1]))
      && (root.Err? ==> C == Err(root.error))
    ensures C.Err? ==> C.error == RootNotFound || C.error == EntropyExhausted
  {
    var n, q := N, Q;
    var root;
    root, rest := GetPrimRoot(n, q, None, entropy);
    SearchFacts(n, q, Exponent(n, q, None), entropy, Tries);
    if root.Err? {
      return Err(root.error), rest;
    }
    var psi := root.value;
    assert Pow(psi, n) % q == (-1) % q;
    RootInvertible(psi, q, n);
    var psiInv := ModInverse(psi, q).value;

    var psiTable, psiInvTable := BuildTables(psi, psiInv, q, n);
    var rt := BitReverseOrder(psiTable);
    var rtInv := BitReverseOrder(psiInvTable);
    ExampleTables(psi, psiInv);
    var S, Sinv := rt.value, rtInv.value;
    ExampleOutcome(S, Sinv);

    var A, B, AB;
    ghost var readsA, readsB, readsC;
    A, readsA := SpeedupFntt(Input, q, S);
    B, readsB := SpeedupFntt(Input, q, S);
    // The tables have n entries, so neither transform raises IndexError.
    assert A.Ok? && B.Ok?;
    AB := Pointwise(A.value, B.value, q);
    C, readsC := SpeedupIntt(AB, q, Sinv);
  }
}
