/** `get_prim_root`: a bounded random search for a primitive 2n-th root of
    unity modulo q (ntt.py:47-82). Each attempt draws x in [2, q-1] with the
    secure sampler, forms x^r mod q and accepts it when its n-th power is
    q - 1. */
module PrimRoot {
  import opened ModArith
  import opened Outcomes
  import opened SecureRandom

  /** The fixed retry budget (ntt.py:76). */
  const Tries: nat := 50

  /** `r` defaults to (q - 1) // (2n) (ntt.py:73-75). Both Python's floor
      division and Dafny's division round down for a positive divisor. */
  function Exponent(n: int, q: int, r: Option<nat>): (e: int)
    requires n >= 1
    ensures q >= 1 ==> e >= 0
    ensures r.Some? ==> e == r.value
  {
    match r
    case Some(e) => e
    case None =>
      var e := (q - 1) / (2 * n);
      assert q >= 1 ==> e >= 0 by {
        if q >= 1 { DivNonNegative(q - 1, 2 * n); }
      }
      e
  }

  /** The acceptance test of ntt.py:79-80 applied to a drawn x. */
  predicate Passes(x: int, n: int, q: int, r: int)
    requires n >= 1
  {
    q >= 3 && r >= 0 && ModPow(ModPow(x, r, q), n, q) == q - 1
  }

  /** The search with `tries` attempts left, and the entropy left over. */
  function Search(n: int, q: int, r: int, src: seq<Byte>, tries: nat): (Result<int>, seq<Byte>)
    requires n >= 1 && (q >= 3 ==> r >= 0)
    decreases tries
  {
    if tries == 0 then (Err(RootNotFound), src)
    else
      var (x, rest) := NextInt(2, q - 1, src);
      if x.Err? then (Err(x.error), rest)
      else
        NextIntContract(2, q - 1, src);
        var candidate := ModPow(x.value, r, q);
        if ModPow(candidate, n, q) == q - 1 then (Ok(candidate), rest)
        else Search(n, q, r, rest, tries - 1)
  }

  method GetPrimRoot(n: int, q: int, r: Option<nat>, entropy: seq<Byte>) returns (root: Result<int>, rest: seq<Byte>)
    requires n >= 1
    ensures (root, rest) == Search(n, q, Exponent(n, q, r), entropy, Tries)
  {
    var nn := 2 * n;
    var e := Exponent(n, q, r);
    ghost var goal := Search(n, q, e, entropy, Tries);
    rest := entropy;
    for i := 0 to Tries
      invariant Search(n, q, e, rest, Tries - i) == goal
    {
      ghost var before := rest;
      var uri;
      uri, rest := SecureNextInt(2, q - 1, rest);
      NextIntBounds(2, q - 1, before);
      SearchStep(n, q, e, before, Tries - i, uri, rest);
      if uri.Err? {
        return Err(uri.error), rest;
      }
      var candidate := ModPow(uri.value, e, q);
      var half := nn / 2;
      assert half == n;
      if ModPow(candidate, half, q) == q - 1 {
        return Ok(candidate), rest;
      }
      assert Tries - (i + 1) == Tries - i - 1;
    }
    return Err(RootNotFound), rest;
  }

  /** One attempt of the search: a failed draw ends it, a passing candidate
      is returned, any other candidate leaves the remaining attempts. */
  lemma SearchStep(n: int, q: int, r: int, src: seq<Byte>, tries: nat, x: Result<int>, rest: seq<Byte>)
    requires n >= 1 && (q >= 3 ==> r >= 0) && tries >= 1
    requires (x, rest) == NextInt(2, q - 1, src)
    requires x.Ok? ==> 2 <= x.value <= q - 1
    ensures x.Err? ==> Search(n, q, r, src, tries) == (Err(x.error), rest)
    ensures x.Ok? && ModPow(ModPow(x.value, r, q), n, q) == q - 1 ==>
      Search(n, q, r, src, tries) == (Ok(ModPow(x.value, r, q)), rest)
    ensures x.Ok? && ModPow(ModPow(x.value, r, q), n, q) != q - 1 ==>
      Search(n, q, r, src, tries) == Search(n, q, r, rest, tries - 1)
  {
  }

  /** What the callers of the search can rely on: the errors it raises, and
      that a root is a residue whose n-th and 2n-th powers are q - 1 and 1. */
  lemma SearchFacts(n: int, q: int, r: int, src: seq<Byte>, tries: nat)
    requires n >= 1 && (q >= 3 ==> r >= 0) && tries >= 1
    ensures var root := Search(n, q, r, src, tries).0;
      && (root.Ok? ==> 0 <= root.value < q && ModPow(root.value, n, q) == q - 1)
      && (root.Ok? ==> ModPow(root.value, 2 * n, q) == 1)
      && (root.Err? ==> root.error == RootNotFound || root.error == InvalidRange || root.error == EntropyExhausted)
      && (root == Err(InvalidRange) <==> q < 3)
    ensures IsSuffix(Search(n, q, r, src, tries).1, src)
  {
    if Search(n, q, r, src, tries).0.Ok? {
      SearchSound(n, q, r, src, tries);
    }
    SearchErrorKinds(n, q, r, src, tries);
    SearchRangeError(n, q, r, src, tries);
    SearchSuffix(n, q, r, src, tries);
  }

  lemma {:induction false} SearchErrorKinds(n: int, q: int, r: int, src: seq<Byte>, tries: nat)
    requires n >= 1 && (q >= 3 ==> r >= 0)
    ensures var root := Search(n, q, r, src, tries).0;
      root.Err? ==> root.error == RootNotFound || root.error == InvalidRange || root.error == EntropyExhausted
    decreases tries
  {
    if tries > 0 {
      var (x, rest) := NextInt(2, q - 1, src);
      NextIntContract(2, q - 1, src);
      if x.Ok? {
        SearchErrorKinds(n, q, r, rest, tries - 1);
      }
    }
  }

  /** InvalidRange comes only from the first draw, exactly when [2, q-1] is
      empty. */
  lemma {:induction false} SearchRangeError(n: int, q: int, r: int, src: seq<Byte>, tries: nat)
    requires n >= 1 && (q >= 3 ==> r >= 0)
    ensures var root := Search(n, q, r, src, tries).0;
      && (tries >= 1 ==> (root == Err(InvalidRange) <==> q < 3))
      && (q >= 3 ==> root != Err(InvalidRange))
    decreases tries
  {
    if tries > 0 {
      var (x, rest) := NextInt(2, q - 1, src);
      NextIntContract(2, q - 1, src);
      if x.Ok? {
        SearchRangeError(n, q, r, rest, tries - 1);
      }
    }
  }

  /** The search consumes entropy from the front only. */
  lemma {:induction false} SearchSuffix(n: int, q: int, r: int, src: seq<Byte>, tries: nat)
    requires n >= 1 && (q >= 3 ==> r >= 0)
    ensures IsSuffix(Search(n, q, r, src, tries).1, src)
    decreases tries
  {
    if tries > 0 {
      var (x, rest) := NextInt(2, q - 1, src);
      NextIntContract(2, q - 1, src);
      if x.Ok? {
        SearchSuffix(n, q, r, rest, tries - 1);
        SuffixTransitive(Search(n, q, r, rest, tries - 1).1, rest, src);
      }
    }
  }

  lemma SuffixTransitive(a: seq<Byte>, b: seq<Byte>, c: seq<Byte>)
    requires IsSuffix(a, b) && IsSuffix(b, c)
    ensures IsSuffix(a, c)
  {
  }

  /** A candidate whose n-th power is q - 1 has 2n-th power 1: it is a 2n-th
      root of unity of order exactly 2n when q is prime. */
  lemma SquareOfRoot(c: int, n: int, q: int)
    requires q >= 3 && n >= 1 && ModPow(c, n, q) == q - 1
    ensures ModPow(c, 2 * n, q) == 1
  {
    var p := Pow(c, n);
    assert Pow(c, n + n) == p * p by { PowAdd(c, n, n); }
    assert n + n == 2 * n;
    assert (q - 1) % q == q - 1 by { ModUnique(q - 1, q, 0, q - 1); }
    MulCong(p, q - 1, p, q - 1, q);
    MinusOneSquared(q);
  }

  /** The values the first k successful draws of secure_next_int(min, max)
      produce; shorter when a draw fails. */
  function Draws(min: int, max: int, src: seq<Byte>, k: nat): seq<int>
    decreases k
  {
    if k == 0 then []
    else
      var (x, rest) := NextInt(min, max, src);
      if x.Err? then [] else [x.value] + Draws(min, max, rest, k - 1)
  }

  /** A root the search returns is x^r mod q for a drawn x in [2, q-1], lies
      in [0, q), has n-th power q - 1 and 2n-th power 1. */
  lemma {:induction false} SearchSound(n: int, q: int, r: int, src: seq<Byte>, tries: nat)
    requires n >= 1 && (q >= 3 ==> r >= 0)
    requires Search(n, q, r, src, tries).0.Ok?
    ensures var c := Search(n, q, r, src, tries).0.value;
      && 0 <= c < q && ModPow(c, n, q) == q - 1 && ModPow(c, 2 * n, q) == 1
      && exists x :: 2 <= x <= q - 1 && r >= 0 && c == ModPow(x, r, q)
    decreases tries
  {
    var (x, rest) := NextInt(2, q - 1, src);
    NextIntContract(2, q - 1, src);
    var candidate := ModPow(x.value, r, q);
    if ModPow(candidate, n, q) == q - 1 {
      SquareOfRoot(candidate, n, q);
    } else {
      SearchSound(n, q, r, rest, tries - 1);
    }
  }

  /** Every one of `tries` draws happened and none passed the test. */
  predicate AllRejected(d: seq<int>, tries: nat, n: int, q: int, r: int)
    requires n >= 1
  {
    |d| == tries && forall i :: 0 <= i < |d| ==> !Passes(d[i], n, q, r)
  }

  lemma AllRejectedCons(x: int, d: seq<int>, tries: nat, n: int, q: int, r: int)
    requires n >= 1 && tries >= 1
    ensures AllRejected([x] + d, tries, n, q, r) <==> !Passes(x, n, q, r) && AllRejected(d, tries - 1, n, q, r)
  {
    var e := [x] + d;
    if !Passes(x, n, q, r) && AllRejected(d, tries - 1, n, q, r) {
      forall i | 0 <= i < |e| ensures !Passes(e[i], n, q, r) {
        if i > 0 {
          assert e[i] == d[i - 1];
        }
      }
    }
    if AllRejected(e, tries, n, q, r) {
      assert e[0] == x;
      forall i | 0 <= i < |d| ensures !Passes(d[i], n, q, r) {
        assert e[i + 1] == d[i];
      }
    }
  }

  /** The search gives up with RootNotFound exactly when all of its draws
      succeed and none of them passes the test. */
  lemma {:induction false} NotFoundIffAllRejected(n: int, q: int, r: int, src: seq<Byte>, tries: nat)
    requires n >= 1 && (q >= 3 ==> r >= 0)
    ensures Search(n, q, r, src, tries).0 == Err(RootNotFound) <==>
      AllRejected(Draws(2, q - 1, src, tries), tries, n, q, r)
    decreases tries
  {
    if tries > 0 {
      var (x, rest) := NextInt(2, q - 1, src);
      NextIntContract(2, q - 1, src);
      SearchStep(n, q, r, src, tries, x, rest);
      if x.Ok? {
        NotFoundIffAllRejected(n, q, r, rest, tries - 1);
        assert Draws(2, q - 1, src, tries) == [x.value] + Draws(2, q - 1, rest, tries - 1);
        AllRejectedCons(x.value, Draws(2, q - 1, rest, tries - 1), tries, n, q, r);
      }
    }
  }
}
