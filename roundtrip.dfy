/** The inverse transform undoes the forward one (the round trip usage.py
    relies on at lines 25-30): each Gentleman-Sande stage with twiddles
    inverse to those of the matching Cooley-Tukey stage gives back twice
    that stage's input modulo q, so the log2 n stages give back n times the
    input, and the final multiplication by n^-1 cancels the factor. */
module RoundTrip {
  import opened ModArith
  import opened Outcomes
  import opened NttSpec
  import opened TransformFacts

  /** Z is c times X, entry by entry, modulo q. */
  predicate ScaledCong(Z: seq<int>, c: int, X: seq<int>, q: int)
    requires q >= 1
  {
    |Z| == |X| && forall k :: 0 <= k < |Z| ==> Z[k] % q == (c * X[k]) % q
  }

  /** Entries 1 .. n-1 of the two twiddle tables are inverse modulo q. */
  predicate InversePairs(S: seq<int>, Sinv: seq<int>, q: int, n: int)
    requires q >= 1
  {
    n <= |S| && n <= |Sinv| && forall k :: 1 <= k < n ==> (S[k] * Sinv[k]) % q == 1 % q
  }

  // ---------------------------------------------------------------------
  // One butterfly

  /** Sum and difference of the two outputs of a butterfly, times c. */
  lemma ButterflyAlgebra(x0: int, x1: int, s: int, c: int)
    ensures c * (x0 + x1 * s) + c * (x0 - x1 * s) == 2 * c * x0
    ensures c * (x0 + x1 * s) - c * (x0 - x1 * s) == (2 * c * x1) * s
  {
  }

  /** z = c * (u mod q) modulo q means z = c * u modulo q. */
  lemma ScaledResidue(z: int, c: int, u: int, q: int)
    requires q >= 1 && z % q == (c * (u % q)) % q
    ensures z % q == (c * u) % q
  {
    ModOfMod(u, q);
    MulCong(c, c, u % q, u, q);
  }

  lemma MulAssoc(x: int, y: int, z: int)
    ensures (x * y) * z == x * (y * z)
  {
  }

  /** w * s * s' = w modulo q when s * s' = 1. */
  lemma CancelTwiddle(d: int, w: int, s: int, s': int, q: int)
    requires q >= 1 && (s * s') % q == 1 % q && d % q == (w * s) % q
    ensures (d * s') % q == w % q
  {
    MulCong(d, w * s, s', s', q);
    MulAssoc(w, s, s');
    MulCong(w, w, s * s', 1, q);
  }

  /** A Gentleman-Sande butterfly with twiddle s' fed (c times) the outputs
      of a Cooley-Tukey butterfly with twiddle s, s * s' = 1 modulo q,
      returns 2c times that butterfly's inputs. */
  lemma ButterflyUndone(x0: int, x1: int, z0: int, z1: int, s: int, s': int, c: int, q: int)
    requires q >= 1 && (s * s') % q == 1 % q
    requires z0 % q == (c * ((x0 + x1 * s) % q)) % q
    requires z1 % q == (c * ((x0 - x1 * s) % q)) % q
    ensures (z0 + z1) % q == (2 * c * x0) % q
    ensures ((z0 - z1) * s') % q == (2 * c * x1) % q
  {
    var u, v := x0 + x1 * s, x0 - x1 * s;
    ScaledResidue(z0, c, u, q);
    ScaledResidue(z1, c, v, q);
    ButterflyAlgebra(x0, x1, s, c);
    AddCong(z0, c * u, z1, c * v, q);
    SubCong(z0, c * u, z1, c * v, q);
    CancelTwiddle(z0 - z1, 2 * c * x1, s, s', q);
  }

  // ---------------------------------------------------------------------
  // One stage

  /** One group of butterflies: Gentleman-Sande with twiddle s' after
      Cooley-Tukey with twiddle s gives back 2c times the input. */
  lemma ButterfliesUndone(X: seq<int>, Y: seq<int>, Z: seq<int>, W: seq<int>, q: int, s: int, s': int, lo: int, t: int, c: int)
    requires q >= 1 && (s * s') % q == 1 % q
    requires CtButterflies(X, Y, q, s, lo, t) && GsButterflies(Z, W, q, s', lo, t)
    requires ScaledCong(Z, c, Y, q)
    ensures forall k :: lo <= k < lo + 2 * t ==> W[k] % q == (2 * c * X[k]) % q
  {
    forall k | lo <= k < lo + 2 * t
      ensures W[k] % q == (2 * c * X[k]) % q
    {
      var j := if k < lo + t then k else k - t;
      ButterflyUndone(X[j], X[j + t], Z[j], Z[j + t], s, s', c, q);
      ModOfMod(Z[j] + Z[j + t], q);
      ModOfMod((Z[j] - Z[j + t]) * s', q);
    }
  }

  /** The Gentleman-Sande stage with h groups of half-size t, applied to c
      times the output of the Cooley-Tukey stage with the same groups,
      gives back 2c times that stage's input, when the stage covers the
      whole list and the twiddles S[h + i] and Sinv[h + i] are inverse. */
  lemma GsUndoesCt(X: seq<int>, Z: seq<int>, q: int, S: seq<int>, Sinv: seq<int>, h: nat, t: nat, c: int)
    requires q >= 1 && t >= 1 && 2 * h * t == |X| && 2 * h <= |S| && 2 * h <= |Sinv|
    requires forall k :: h <= k < 2 * h ==> (S[k] * Sinv[k]) % q == 1 % q
    requires ScaledCong(Z, c, CtStage(X, q, S, h, t), q)
    ensures ScaledCong(GsStage(Z, q, Sinv, h, t), 2 * c, X, q)
  {
    var Y := CtStage(X, q, S, h, t);
    var W := GsStage(Z, q, Sinv, h, t);
    forall k | 0 <= k < |X|
      ensures W[k] % q == (2 * c * X[k]) % q
    {
      GroupBounds(k, h, t);
      var i := k / (2 * t);
      var j1 := 2 * i * t;
      assert j1 == 2 * t * i;
      CtGroup(X, q, S, h, t, i, j1);
      GsGroup(Z, q, Sinv, h, t, i, j1);
      ButterfliesUndone(X, Y, Z, W, q, S[h + i], Sinv[h + i], j1, t, c);
    }
  }

  // ---------------------------------------------------------------------
  // All stages

  /** The first inverse stage undoes the last forward stage, doubling the
      factor: with h = m / 2 groups of half-size t, what is left is the
      inverse stages for h groups of half-size t2 = 2t. */
  lemma LastStageUndone(a: seq<int>, q: int, S: seq<int>, Sinv: seq<int>, m: nat, t: nat, h: nat, t2: nat, Z: seq<int>, c: int)
    requires q >= 1 && IsPow2(m) && m >= 2 && t >= 1 && m * t == |a| && InversePairs(S, Sinv, q, |a|)
    requires h == m / 2 && t2 == 2 * t
    requires ScaledCong(Z, c, Fwd(a, q, S, m), q)
    ensures IsPow2(h) && 2 * h == m && m <= |a|
    ensures 2 * h * t == |a| && h * t2 == |a|
    ensures ScaledCong(GsStage(Z, q, Sinv, h, t), 2 * c, Fwd(a, q, S, h), q)
    ensures InvFrom(Z, q, Sinv, m, t) == InvFrom(GsStage(Z, q, Sinv, h, t), q, Sinv, h, t2)
  {
    HalveBlocks(m, t, |a|, h, t2);
    var F := Fwd(a, q, S, h);
    assert Fwd(a, q, S, m) == CtStage(F, q, S, h, t);
    GsUndoesCt(F, Z, q, S, Sinv, h, t, c);
  }

  /** Undoing the forward stages for 1, 2, ..., m/2 groups (half-size t on
      the inverse side, m * t = n) multiplies by m. */
  lemma {:induction false} InvUndoesFwd(a: seq<int>, q: int, S: seq<int>, Sinv: seq<int>, m: nat, t: nat, Z: seq<int>, c: int)
    requires q >= 1 && IsPow2(m) && t >= 1 && m * t == |a| && m <= |a| && InversePairs(S, Sinv, q, |a|)
    requires ScaledCong(Z, c, Fwd(a, q, S, m), q)
    ensures ScaledCong(InvFrom(Z, q, Sinv, m, t), c * m, a, q)
    decreases m
  {
    if m >= 2 {
      var h: nat, t2: nat := m / 2, 2 * t;
      LastStageUndone(a, q, S, Sinv, m, t, h, t2, Z, c);
      var W := GsStage(Z, q, Sinv, h, t);
      InvUndoesFwd(a, q, S, Sinv, h, t2, W, 2 * c);
      assert 2 * c * h == c * m;
    }
  }

  /** x = n y and n c = 1 modulo q give x c = y. */
  lemma CancelEntry(x: int, y: int, n: int, c: int, q: int)
    requires q >= 1 && x % q == (n * y) % q && (n * c) % q == 1 % q
    ensures (x * c) % q == y % q
  {
    MulCong(x, n * y, c, c, q);
    assert (n * y) * c == y * (n * c);
    MulCong(y, y, n * c, 1, q);
  }

  /** Multiplying n times a by an inverse of n gives back a modulo q. */
  lemma ScaleCancels(B: seq<int>, a: seq<int>, n: int, c: int, q: int)
    requires q >= 1 && ScaledCong(B, n, a, q) && (n * c) % q == 1 % q
    ensures Scale(B, c, q) == seq(|a|, j requires 0 <= j < |a| => a[j] % q)
  {
    forall j | 0 <= j < |a| ensures Scale(B, c, q)[j] == a[j] % q {
      CancelEntry(B[j], a[j], n, c, q);
    }
  }

  /** The inverse stages applied to the forward transform give n times the
      input. */
  lemma InvOfFntt(a: seq<int>, q: int, S: seq<int>, Sinv: seq<int>)
    requires q >= 1 && IsPow2(|a|) && InversePairs(S, Sinv, q, |a|)
    ensures TableCovers(|a|, S)
    ensures ScaledCong(InvFrom(Fntt(a, q, S), q, Sinv, |a|, 1), |a|, a, q)
  {
    var n := |a|;
    CoversPow2(n, S);
    var F := Fntt(a, q, S);
    assert F == Fwd(a, q, S, n);
    forall k | 0 <= k < n ensures F[k] % q == (1 * F[k]) % q {
    }
    InvUndoesFwd(a, q, S, Sinv, n, 1, F, 1);
    assert 1 * n == n;
  }

  /** The round trip: for a power-of-two length n, twiddle tables inverse
      to each other at indices 1 .. n-1, and n invertible modulo q, the
      inverse transform of the forward transform is the input reduced
      modulo q; when n is not invertible it is the error pow(n, -1, q)
      raises. */
  lemma NttRoundTrip(a: seq<int>, q: int, S: seq<int>, Sinv: seq<int>)
    requires q >= 1 && IsPow2(|a|) && InversePairs(S, Sinv, q, |a|)
    ensures TableCovers(|a|, S)
    ensures ModInverse(|a|, q).Some? ==>
      Intt(Fntt(a, q, S), q, Sinv) == Ok(seq(|a|, j requires 0 <= j < |a| => a[j] % q))
    ensures ModInverse(|a|, q).None? ==> Intt(Fntt(a, q, S), q, Sinv) == Err(NotInvertible)
  {
    InvOfFntt(a, q, S, Sinv);
    var F := Fntt(a, q, S);
    var ni := ModInverse(|a|, q);
    if ni.Some? {
      ScaleCancels(InvFrom(F, q, Sinv, |a|, 1), a, |a|, ni.value, q);
    }
  }
}
