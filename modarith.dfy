/** Integer arithmetic modulo q, powers and powers of two, as used by the
    transform engine. Python's `%` with a positive modulus is the Euclidean
    remainder, which is what Dafny's `%` on `int` computes. */
module ModArith {

  datatype Option<T> = None | Some(value: T)

  /** b to the power e, over the unbounded integers. */
  function Pow(b: int, e: nat): int
  {
    if e == 0 then 1 else b * Pow(b, e - 1)
  }

  /** Python's three-argument `pow(b, e, q)` with e >= 0. */
  function ModPow(b: int, e: nat, q: int): (r: int)
    requires q >= 1
    ensures 0 <= r < q
  {
    Pow(b, e) % q
  }

  function Pow2(k: nat): (r: nat)
    ensures r >= 1
  {
    if k == 0 then 1 else 2 * Pow2(k - 1)
  }

  /** n is 1, 2, 4, 8, ... */
  predicate IsPow2(n: int)
    decreases if n < 0 then 0 else n
  {
    n == 1 || (n >= 2 && n % 2 == 0 && IsPow2(n / 2))
  }

  /** The exponent of a power of two. */
  function Log2(n: int): (k: nat)
    requires IsPow2(n)
    ensures Pow2(k) == n
    decreases if n < 0 then 0 else n
  {
    if n == 1 then 0 else 1 + Log2(n / 2)
  }

  lemma {:induction false} Pow2IsPow2(k: nat)
    ensures IsPow2(Pow2(k))
  {
    if k > 0 {
      Pow2IsPow2(k - 1);
      assert Pow2(k) / 2 == Pow2(k - 1);
    }
  }

  lemma HalfOfPow2(n: int)
    requires IsPow2(n) && n >= 2
    ensures IsPow2(n / 2) && n == 2 * (n / 2)
  {
  }

  // ---------------------------------------------------------------------
  // Remainders

  /** Division with remainder is unique. */
  lemma ModUnique(x: int, q: int, d: int, r: int)
    requires q > 0 && 0 <= r < q && x == d * q + r
    ensures x / q == d && x % q == r
  {
    var d', r' := x / q, x % q;
    assert x == d' * q + r';
    if d > d' {
      assert (d - d') * q == r' - r;
      MulAtLeast(d - d', q);
    } else if d < d' {
      assert (d' - d) * q == r - r';
      MulAtLeast(d' - d, q);
    }
  }

  /** Floor division of a non-negative number by a positive one is
      non-negative. */
  lemma DivNonNegative(a: int, b: int)
    requires a >= 0 && b > 0
    ensures a / b >= 0
  {
  }

  lemma MulLe(a: int, b: int, c: int)
    requires a <= b && c >= 0
    ensures a * c <= b * c
  {
    assert b * c - a * c == (b - a) * c;
  }

  lemma PosFactor(x: int, y: int)
    requires x > 0 && x * y > 0
    ensures y > 0
  {
  }

  /** m * (n / m) never exceeds n. */
  lemma MulFloorLe(n: nat, m: int)
    requires m >= 1
    ensures 0 <= m * (n / m) <= n
  {
    assert n == m * (n / m) + n % m;
  }

  /** Halving the quotient is dividing by twice the divisor. */
  lemma DivHalf(n: nat, m: int)
    requires m >= 1
    ensures (n / m) / 2 == n / (2 * m)
  {
    var d, r := n / m, n % m;
    var e, s := d / 2, d % 2;
    assert n == d * m + r;
    assert d == 2 * e + s;
    assert d * m == e * (2 * m) + s * m;
    assert 0 <= s * m <= m by { MulLe(s, 1, m); }
    ModUnique(n, 2 * m, e, s * m + r);
  }

  /** Of two powers of two, the smaller one divides into the larger one at
      least twice. */
  lemma {:induction false} Pow2Below(m: int, n: int)
    requires IsPow2(m) && IsPow2(n) && m < n
    ensures 2 * m <= n
    decreases n
  {
    if m > 1 {
      HalfOfPow2(m);
      HalfOfPow2(n);
      Pow2Below(m / 2, n / 2);
    } else {
      HalfOfPow2(n);
    }
  }

  lemma MulAtLeast(k: int, q: int)
    requires k >= 1 && q > 0
    ensures k * q >= q
  {
  }

  lemma ModMultiple(x: int, k: int, q: int)
    requires q > 0
    ensures (x + k * q) % q == x % q
  {
    ModUnique(x + k * q, q, x / q + k, x % q);
  }

  lemma ModOfMod(x: int, q: int)
    requires q > 0
    ensures (x % q) % q == x % q
  {
    ModUnique(x % q, q, 0, x % q);
  }

  lemma ModAdd(a: int, b: int, q: int)
    requires q > 0
    ensures (a + b) % q == (a % q + b % q) % q
  {
    assert a + b == (a % q + b % q) + (a / q + b / q) * q;
    ModMultiple(a % q + b % q, a / q + b / q, q);
  }

  lemma ModSub(a: int, b: int, q: int)
    requires q > 0
    ensures (a - b) % q == (a % q - b % q) % q
  {
    assert a - b == (a % q - b % q) + (a / q - b / q) * q;
    ModMultiple(a % q - b % q, a / q - b / q, q);
  }

  lemma ModMulLeft(a: int, b: int, q: int)
    requires q > 0
    ensures (a * b) % q == ((a % q) * b) % q
  {
    var d := a / q;
    assert a == d * q + a % q;
    assert a * b == (a % q) * b + (d * b) * q;
    ModMultiple((a % q) * b, d * b, q);
  }

  lemma ModMul(a: int, b: int, q: int)
    requires q > 0
    ensures (a * b) % q == ((a % q) * (b % q)) % q
  {
    ModMulLeft(a, b, q);
    ModMulLeft(b, a % q, q);
    assert (a % q) * b == b * (a % q);
    assert (b % q) * (a % q) == (a % q) * (b % q);
  }

  /** Congruence is compatible with multiplication. */
  lemma MulCong(a: int, a': int, b: int, b': int, q: int)
    requires q > 0 && a % q == a' % q && b % q == b' % q
    ensures (a * b) % q == (a' * b') % q
  {
    ModMul(a, b, q);
    ModMul(a', b', q);
  }

  /** Congruence is compatible with addition. */
  lemma AddCong(a: int, a': int, b: int, b': int, q: int)
    requires q > 0 && a % q == a' % q && b % q == b' % q
    ensures (a + b) % q == (a' + b') % q
  {
    ModAdd(a, b, q);
    ModAdd(a', b', q);
  }

  /** Congruence is compatible with subtraction. */
  lemma SubCong(a: int, a': int, b: int, b': int, q: int)
    requires q > 0 && a % q == a' % q && b % q == b' % q
    ensures (a - b) % q == (a' - b') % q
  {
    ModSub(a, b, q);
    ModSub(a', b', q);
  }

  // ---------------------------------------------------------------------
  // Powers

  lemma {:induction false} PowAdd(b: int, e1: nat, e2: nat)
    ensures Pow(b, e1 + e2) == Pow(b, e1) * Pow(b, e2)
  {
    if e1 > 0 {
      PowAdd(b, e1 - 1, e2);
    }
  }

  lemma {:induction false} PowMul(b: int, e1: nat, e2: nat)
    ensures Pow(b, e1 * e2) == Pow(Pow(b, e1), e2)
  {
    if e2 > 0 {
      var c := Pow(b, e1);
      PowMul(b, e1, e2 - 1);
      assert e1 * e2 == e1 * (e2 - 1) + e1;
      PowAdd(b, e1 * (e2 - 1), e1);
      assert Pow(b, e1 * e2) == Pow(c, e2 - 1) * c;
    }
  }

  lemma {:induction false} PowOfProduct(a: int, b: int, e: nat)
    ensures Pow(a * b, e) == Pow(a, e) * Pow(b, e)
  {
    if e > 0 {
      PowOfProduct(a, b, e - 1);
      MulSwap(a, b, Pow(a, e - 1), Pow(b, e - 1));
    }
  }

  lemma MulSwap(x: int, y: int, z: int, w: int)
    ensures (x * y) * (z * w) == (x * z) * (y * w)
  {
  }

  /** A power depends on its base only modulo q. */
  lemma {:induction false} PowCong(a: int, b: int, e: nat, q: int)
    requires q > 0 && a % q == b % q
    ensures Pow(a, e) % q == Pow(b, e) % q
  {
    if e > 0 {
      PowCong(a, b, e - 1, q);
      MulCong(a, b, Pow(a, e - 1), Pow(b, e - 1), q);
    }
  }

  lemma {:induction false} PowOfOne(e: nat)
    ensures Pow(1, e) == 1
  {
    if e > 0 {
      PowOfOne(e - 1);
    }
  }

  /** (q-1)^2 is 1 modulo q. */
  lemma MinusOneSquared(q: int)
    requires q > 1
    ensures ((q - 1) * (q - 1)) % q == 1
  {
    ModUnique(q - 1, q, 0, q - 1);
    ModUnique(-1, q, -1, q - 1);
    ModUnique(1, q, 0, 1);
    MulCong(q - 1, -1, q - 1, -1, q);
  }

  // ---------------------------------------------------------------------
  // Modular inverse

  /** Python's `pow(a, -1, q)`: the residue x with a * x == 1 (mod q), or
      None where Python raises because a is not invertible. For q == 1 every
      residue is 0 and the answer is 0, as in Python. */
  function ModInverse(a: int, q: int): (r: Option<int>)
    requires q >= 1
    ensures r.Some? ==> 0 <= r.value < q && (a * r.value) % q == 1 % q
    ensures r.None? ==> forall x :: 0 <= x < q ==> (a * x) % q != 1 % q
  {
    InverseFrom(a, q, 0)
  }

  function InverseFrom(a: int, q: int, x: nat): (r: Option<int>)
    requires q >= 1 && x <= q
    ensures r.Some? ==> x <= r.value < q && (a * r.value) % q == 1 % q
    ensures r.None? ==> forall y :: x <= y < q ==> (a * y) % q != 1 % q
    decreases q - x
  {
    if x == q then None
    else if (a * x) % q == 1 % q then Some(x)
    else InverseFrom(a, q, x + 1)
  }
}
