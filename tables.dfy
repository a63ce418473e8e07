/** The twiddle tables of usage.py:14-22: psi_table[i] = psi^i mod q and
    psi_inv_table[i] = psi_inv^i mod q, each then put in bit-reversed order.
    What the transforms need of them is proved here: when psi^n = -1
    the reordered table is a tree of square roots (TwiddlesValid), and when
    psi * psi_inv = 1 the two reordered tables are inverse entry by entry
    (InversePairs). */
module Tables {
  import opened ModArith
  import opened Outcomes
  import opened BitReverse
  import opened BitReverseFacts
  import opened Evaluation
  import opened RoundTrip

  /** The table after the loop of usage.py:14-18: entry 0 keeps the initial
      1, entry i >= 1 is psi^i reduced modulo q. */
  function PowerTable(psi: int, q: int, n: nat): (r: seq<int>)
    requires q >= 1
    ensures |r| == n
  {
    seq(n, i requires 0 <= i < n => if i == 0 then 1 else Pow(psi, i) % q)
  }

  /** Each entry is the previous one times psi, reduced. */
  lemma TableStep(x: int, q: int, i: int)
    requires q >= 1 && i >= 1
    ensures ((if i == 1 then 1 else Pow(x, i - 1) % q) * x) % q == Pow(x, i) % q
  {
    assert Pow(x, i) == x * Pow(x, i - 1);
    if i > 1 {
      ModOfMod(Pow(x, i - 1), q);
      MulCong(Pow(x, i - 1) % q, Pow(x, i - 1), x, x, q);
      assert Pow(x, i - 1) * x == x * Pow(x, i - 1);
    }
  }

  /** The table satisfies the recurrence the loop of usage.py:16-18 runs:
      it starts at 1 and each entry is the previous one times psi, reduced. */
  lemma PowerTableRecurrence(psi: int, q: int, n: nat, i: int)
    requires q >= 1 && 1 <= i < n
    ensures PowerTable(psi, q, n)[0] == 1
    ensures PowerTable(psi, q, n)[i] == (PowerTable(psi, q, n)[i - 1] * psi) % q
  {
    TableStep(psi, q, i);
  }

  /** The loop of usage.py:14-18, filling both tables in place from their
      previous entries. */
  method BuildTables(psi: int, psiInv: int, q: int, n: nat) returns (psiTable: seq<int>, psiInvTable: seq<int>)
    requires q >= 1
    ensures psiTable == PowerTable(psi, q, n)
    ensures psiInvTable == PowerTable(psiInv, q, n)
  {
    var T := new int[n](_ => 1);
    var U := new int[n](_ => 1);
    var i := 1;
    while i < n
      invariant 1 <= i && (n >= 1 ==> i <= n)
      invariant forall k :: 0 <= k < i && k < n ==> T[k] == PowerTable(psi, q, n)[k]
      invariant forall k :: 0 <= k < i && k < n ==> U[k] == PowerTable(psiInv, q, n)[k]
    {
      TableStep(psi, q, i);
      TableStep(psiInv, q, i);
      T[i] := (T[i - 1] * psi) % q;
      U[i] := (U[i - 1] * psiInv) % q;
      i := i + 1;
    }
    psiTable := T[..];
    psiInvTable := U[..];
  }

  /** The table reordered by bit_reverse_order (usage.py:21-22), which never
      fails for a power-of-two length. */
  function RevPowerTable(psi: int, q: int, n: nat): (S: seq<int>)
    requires q >= 1 && IsPow2(n)
    ensures BitReversed(PowerTable(psi, q, n)) == Ok(S) && |S| == n
  {
    PowerOfTwoFits(n);
    BitReversed(PowerTable(psi, q, n)).value
  }

  /** Entry k of the reordered table is entry Rev(k) of the table. */
  lemma RevTableAt(psi: int, q: int, n: nat, k: int, b: nat)
    requires q >= 1 && IsPow2(n) && 0 <= k < n && b == NumBits(n)
    ensures Rev(k, b) < n && Rev(Rev(k, b), b) == k
    ensures RevPowerTable(psi, q, n)[k] == PowerTable(psi, q, n)[Rev(k, b)]
  {
    PowerOfTwoFits(n);
    FitsRev(n, k);
  }

  /** The placement usage.py:21 relies on: psi^i mod q (1 for i = 0) sits
      at position Rev(i) of the reordered table. */
  lemma RevTablePlacement(psi: int, q: int, n: nat, i: int)
    requires q >= 1 && IsPow2(n) && 0 <= i < n
    ensures Rev(i, NumBits(n)) < n
    ensures RevPowerTable(psi, q, n)[Rev(i, NumBits(n))] == PowerTable(psi, q, n)[i]
  {
    var b := NumBits(n);
    PowerOfTwoFits(n);
    FitsRev(n, i);
    RevTableAt(psi, q, n, Rev(i, b), b);
  }

  /** Entry k of the reordered table is psi to the bit reversal of k, and
      exactly so (not only modulo q) for k >= 1. */
  lemma RevTableEntry(psi: int, q: int, n: nat, k: int, b: nat)
    requires q >= 1 && IsPow2(n) && 0 <= k < n && b == NumBits(n)
    ensures Rev(k, b) < n && Rev(Rev(k, b), b) == k
    ensures RevPowerTable(psi, q, n)[k] % q == Pow(psi, Rev(k, b)) % q
    ensures k >= 1 ==> Rev(k, b) >= 1 && RevPowerTable(psi, q, n)[k] == Pow(psi, Rev(k, b)) % q
  {
    RevTableAt(psi, q, n, k, b);
    var e := Rev(k, b);
    if e == 0 {
      RevOfZero(b);
      assert Pow(psi, 0) == 1;
    } else {
      ModOfMod(Pow(psi, e), q);
    }
  }

  /** The square of psi^e modulo q is psi^(2e). */
  lemma SquareOfPower(psi: int, e: nat, v: int, q: int)
    requires q >= 1 && v % q == Pow(psi, e) % q
    ensures (v * v) % q == Pow(psi, 2 * e) % q
  {
    PowAdd(psi, e, e);
    MulCong(v, Pow(psi, e), v, Pow(psi, e), q);
  }

  /** For n >= 2 the index width is the exact log2 of n. */
  lemma TableBits(n: nat)
    requires IsPow2(n) && n >= 2
    ensures NumBits(n) >= 1 && Pow2(NumBits(n)) == n
  {
    NumBitsOfPow2(n);
  }

  /** The exponents of node k of the reordered table and of its parent
      x = k / 2: the parent's is twice it, plus n for the odd child (that
      factor psi^n being -1). */
  lemma ParentExponent(n: nat, k: int, b: nat, x: nat)
    requires b >= 1 && Pow2(b) == n && 2 <= k < n && x == k / 2
    ensures 2 * Rev(k, b) == Rev(x, b) + (if k % 2 == 1 then n else 0)
  {
    assert Pow2(b) == 2 * Pow2(b - 1);
    RevOfDouble(x, b);
    assert k == 2 * x || k == 2 * x + 1;
  }

  /** Node 1 reads psi^(n/2), whose square is psi^n. */
  lemma RootExponent(n: nat, b: nat)
    requires b >= 1 && Pow2(b) == n
    ensures 2 * Rev(1, b) == n
  {
    RevOfOne(b);
    assert Pow2(b) == 2 * Pow2(b - 1);
  }

  /** Node 1: the square of psi^e with 2e = n is psi^n = -1. */
  lemma RootNode(psi: int, q: int, n: nat, e: nat, sk: int)
    requires q >= 1 && Pow(psi, n) % q == (-1) % q && 2 * e == n && sk == Pow(psi, e) % q
    ensures (sk * sk) % q == (-1) % q
  {
    ModOfMod(Pow(psi, e), q);
    SquareOfPower(psi, e, sk, q);
  }

  /** An even node 2x: the square of psi^e with 2e = ex is psi^ex. */
  lemma EvenNode(psi: int, q: int, e: nat, ex: nat, sk: int, sx: int)
    requires q >= 1 && 2 * e == ex && sk == Pow(psi, e) % q && sx == Pow(psi, ex) % q
    ensures (sk * sk) % q == sx % q
  {
    ModOfMod(Pow(psi, e), q);
    SquareOfPower(psi, e, sk, q);
    ModOfMod(Pow(psi, ex), q);
  }

  /** An odd node 2x + 1: the square of psi^e with 2e = ex + n is
      psi^ex psi^n = -psi^ex. */
  lemma OddNode(psi: int, q: int, n: nat, e: nat, ex: nat, sk: int, sx: int)
    requires q >= 1 && Pow(psi, n) % q == (-1) % q && 2 * e == ex + n
    requires sk == Pow(psi, e) % q && sx == Pow(psi, ex) % q
    ensures (sk * sk) % q == (-sx) % q
  {
    ModOfMod(Pow(psi, e), q);
    SquareOfPower(psi, e, sk, q);
    PowAdd(psi, ex, n);
    ModOfMod(Pow(psi, ex), q);
    MulCong(Pow(psi, ex), sx, Pow(psi, n), -1, q);
    assert sx * -1 == -sx;
  }

  /** Entries 1 .. n-1 of S are psi to the bit reversal (b bits) of their
      index. */
  predicate PowersAt(S: seq<int>, psi: int, q: int, n: nat, b: nat)
    requires q >= 1
  {
    n <= |S| && forall k :: 1 <= k < n ==> S[k] == Pow(psi, Rev(k, b)) % q
  }

  /** The reordered table holds those powers. */
  lemma RevTableIsPowers(psi: int, q: int, n: nat)
    requires q >= 1 && IsPow2(n)
    ensures PowersAt(RevPowerTable(psi, q, n), psi, q, n, NumBits(n))
  {
    var S, b := RevPowerTable(psi, q, n), NumBits(n);
    forall k | 1 <= k < n ensures S[k] == Pow(psi, Rev(k, b)) % q {
      RevTableEntry(psi, q, n, k, b);
    }
  }

  /** Node k >= 2 with parent x = k / 2: the square of entry k is plus or
      minus entry x, minus for the odd child. */
  lemma ChildOfTable(psi: int, q: int, n: nat, k: int, b: nat, x: int, S: seq<int>)
    requires q >= 1 && Pow(psi, n) % q == (-1) % q && 2 <= k < n && x == k / 2
    requires b >= 1 && Pow2(b) == n && PowersAt(S, psi, q, n, b)
    ensures (S[k] * S[k]) % q == (if k % 2 == 1 then -S[x] else S[x]) % q
  {
    ParentExponent(n, k, b, x);
    if k % 2 == 1 {
      OddNode(psi, q, n, Rev(k, b), Rev(x, b), S[k], S[x]);
    } else {
      EvenNode(psi, q, Rev(k, b), Rev(x, b), S[k], S[x]);
    }
  }

  /** One node of the tree: the square of entry k is the value of node k. */
  lemma NodeOfTable(psi: int, q: int, n: nat, k: int, b: nat, S: seq<int>)
    requires q >= 1 && Pow(psi, n) % q == (-1) % q && 1 <= k < n
    requires b >= 1 && Pow2(b) == n && PowersAt(S, psi, q, n, b)
    ensures (S[k] * S[k]) % q == Parent(S, k) % q
  {
    if k == 1 {
      RootExponent(n, b);
      RootNode(psi, q, n, Rev(k, b), S[k]);
    } else {
      ChildOfTable(psi, q, n, k, b, k / 2, S);
    }
  }

  /** With psi^n = -1 modulo q, the reordered psi table is a tree of square
      roots, as the forward transform needs to evaluate at the roots of
      x^n + 1. */
  lemma TableIsTree(psi: int, q: int, n: nat)
    requires q >= 1 && IsPow2(n) && Pow(psi, n) % q == (-1) % q
    ensures TwiddlesValid(RevPowerTable(psi, q, n), q, n)
  {
    var S, b := RevPowerTable(psi, q, n), NumBits(n);
    if n >= 2 {
      TableBits(n);
      RevTableIsPowers(psi, q, n);
      forall k | 1 <= k < n ensures (S[k] * S[k]) % q == Parent(S, k) % q {
        NodeOfTable(psi, q, n, k, b, S);
      }
    }
  }

  /** Entry k of the two reordered tables are inverse. */
  lemma EntriesInverse(psi: int, psiInv: int, q: int, n: nat, k: int, b: nat, S: seq<int>, Sinv: seq<int>)
    requires q >= 1 && (psi * psiInv) % q == 1 % q && 1 <= k < n
    requires PowersAt(S, psi, q, n, b) && PowersAt(Sinv, psiInv, q, n, b)
    ensures (S[k] * Sinv[k]) % q == 1 % q
  {
    var e := Rev(k, b);
    ModOfMod(Pow(psi, e), q);
    ModOfMod(Pow(psiInv, e), q);
    MulCong(S[k], Pow(psi, e), Sinv[k], Pow(psiInv, e), q);
    PowOfProduct(psi, psiInv, e);
    PowCong(psi * psiInv, 1, e, q);
    PowOfOne(e);
  }

  /** With psi * psi_inv = 1 modulo q, the two reordered tables are inverse
      at every twiddle index 1 .. n-1. */
  lemma TablesInverse(psi: int, psiInv: int, q: int, n: nat)
    requires q >= 1 && IsPow2(n) && (psi * psiInv) % q == 1 % q
    ensures InversePairs(RevPowerTable(psi, q, n), RevPowerTable(psiInv, q, n), q, n)
  {
    var S, Sinv, b := RevPowerTable(psi, q, n), RevPowerTable(psiInv, q, n), NumBits(n);
    RevTableIsPowers(psi, q, n);
    RevTableIsPowers(psiInv, q, n);
    forall k | 1 <= k < n ensures (S[k] * Sinv[k]) % q == 1 % q {
      EntriesInverse(psi, psiInv, q, n, k, b, S, Sinv);
    }
  }

  /** A witness x with a x = 1 modulo q makes pow(a, -1, q) succeed. */
  lemma InverseExists(a: int, q: int, x: int)
    requires q >= 1 && 0 <= x < q && (a * x) % q == 1 % q
    ensures ModInverse(a, q).Some?
  {
  }

  /** A root of x^n + 1 modulo q is invertible: psi^(2n-1) mod q is its
      inverse, so pow(psi, -1, q) of usage.py:7 succeeds. */
  lemma RootInvertible(psi: int, q: int, n: nat)
    requires q >= 1 && n >= 1 && Pow(psi, n) % q == (-1) % q
    ensures ModInverse(psi, q).Some?
  {
    var x := Pow(psi, 2 * n - 1) % q;
    PowAdd(psi, 1, 2 * n - 1);
    assert Pow(psi, 1) == psi;
    ModOfMod(Pow(psi, 2 * n - 1), q);
    MulCong(psi, psi, x, Pow(psi, 2 * n - 1), q);
    SquareOfPower(psi, n, Pow(psi, n), q);
    MulCong(Pow(psi, n), -1, Pow(psi, n), -1, q);
    InverseExists(psi, q, x);
  }
}
