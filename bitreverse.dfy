/** `bit_reverse_order` (ntt.py:170-195): element i of the input moves to the
    position whose num_bits-bit binary numeral is that of i read backwards.
    The index is computed, as in the source, by formatting i in binary,
    padding it with zeros, reversing the string and parsing it again; the
    arithmetic reversal `Rev` is what the proofs work with. */
module BitReverse {
  import opened ModArith
  import opened BitOps
  import opened Outcomes

  // ---------------------------------------------------------------------
  // Binary numerals, as Python's bin, str.zfill, [::-1] and int(s, 2) see them

  function Digit(b: nat): char
    requires b < 2
  {
    if b == 0 then '0' else '1'
  }

  /** bin(x)[2:] for x >= 0: the binary digits of x, most significant
      first, and "0" for zero. */
  function Binary(x: nat): (s: seq<char>)
    ensures |s| >= 1
  {
    if x < 2 then [Digit(x)] else Binary(x / 2) + [Digit(x % 2)]
  }

  /** Python's bin(x), with its "0b" prefix and a sign for negative x. */
  function Bin(x: int): seq<char>
  {
    if x < 0 then "-0b" + Binary(-x) else "0b" + Binary(x)
  }

  /** num_bits of ntt.py:190: len(bin(len(a) - 1)) - 2. */
  function NumBits(n: nat): nat
  {
    |Bin(n - 1)| - 2
  }

  function Zeros(k: nat): (s: seq<char>)
    ensures |s| == k
  {
    seq(k, _ => '0')
  }

  /** s.zfill(width) for a string without a sign: zeros on the left up to
      the width, nothing removed when s is already as wide. */
  function ZFill(s: seq<char>, width: nat): seq<char>
  {
    if |s| >= width then s else Zeros(width - |s|) + s
  }

  /** s[::-1]. */
  function Reverse(s: seq<char>): (r: seq<char>)
    ensures |r| == |s|
  {
    if s == [] then [] else Reverse(s[1..]) + [s[0]]
  }

  /** int(s, 2) for a numeral of '0' and '1' digits, the last one least
      significant. */
  function ParseBinary(s: seq<char>): nat
  {
    if s == [] then 0
    else 2 * ParseBinary(s[..|s| - 1]) + (if s[|s| - 1] == '1' then 1 else 0)
  }

  /** rev_index of ntt.py:193. */
  function RevIndex(i: nat, numBits: nat): nat
  {
    ParseBinary(Reverse(ZFill(Binary(i), numBits)))
  }

  // ---------------------------------------------------------------------
  // The arithmetic reversal

  /** The `bits`-bit numeral of i read backwards: the lowest bit of i
      becomes the highest of the result. */
  function Rev(i: nat, bits: nat): nat
  {
    if bits == 0 then 0 else (if i % 2 == 1 then Pow2(bits - 1) else 0) + Rev(i / 2, bits - 1)
  }

  /** The numeral the source builds and parses is the arithmetic reversal. */
  lemma RevIndexIsRev(i: nat, bits: nat)
    requires i < Pow2(bits)
    ensures RevIndex(i, bits) == Rev(i, bits)
  {
    if bits == 0 {
      var zero := [Digit(0)];
      assert Binary(i) == zero;
      assert ZFill(zero, 0) == zero;
      assert zero[1..] == [];
      assert Reverse(zero) == zero;
      assert zero[..0] == [];
    } else {
      PaddedIsHighFirst(i, bits);
      ReverseOfHighFirst(i, bits);
      ParseLowFirst(i, bits);
    }
  }

  /** The b digits of i, most significant first. */
  function HighFirst(i: nat, b: nat): (s: seq<char>)
    ensures |s| == b
  {
    if b == 0 then [] else HighFirst(i / 2, b - 1) + [Digit(i % 2)]
  }

  /** The b digits of i, least significant first. */
  function LowFirst(i: nat, b: nat): (s: seq<char>)
    ensures |s| == b
  {
    if b == 0 then [] else [Digit(i % 2)] + LowFirst(i / 2, b - 1)
  }

  lemma {:induction false} HighFirstOfZero(b: nat)
    ensures HighFirst(0, b) == Zeros(b)
  {
    if b > 0 {
      HighFirstOfZero(b - 1);
      assert Zeros(b) == Zeros(b - 1) + ['0'];
    }
  }

  lemma ZFillAppend(s: seq<char>, width: nat, d: char)
    ensures ZFill(s + [d], width + 1) == ZFill(s, width) + [d]
  {
    if |s| < width {
      assert Zeros(width - |s|) + (s + [d]) == (Zeros(width - |s|) + s) + [d];
    }
  }

  lemma {:induction false} PaddedIsHighFirst(i: nat, b: nat)
    requires b >= 1 && i < Pow2(b)
    ensures ZFill(Binary(i), b) == HighFirst(i, b)
    decreases b
  {
    if i < 2 {
      HighFirstOfZero(b - 1);
      assert i / 2 == 0 && i % 2 == i;
      if b > 1 {
        assert ZFill([Digit(i)], b) == Zeros(b - 1) + [Digit(i)];
      }
    } else {
      assert Pow2(1) == 2;
      assert b >= 2;
      PaddedIsHighFirst(i / 2, b - 1);
      ZFillAppend(Binary(i / 2), b - 1, Digit(i % 2));
    }
  }

  lemma {:induction false} ReverseAppend(s: seq<char>, d: char)
    ensures Reverse(s + [d]) == [d] + Reverse(s)
  {
    if s != [] {
      assert (s + [d])[1..] == s[1..] + [d];
      ReverseAppend(s[1..], d);
    }
  }

  lemma {:induction false} ReverseOfHighFirst(i: nat, b: nat)
    ensures Reverse(HighFirst(i, b)) == LowFirst(i, b)
  {
    if b > 0 {
      ReverseOfHighFirst(i / 2, b - 1);
      ReverseAppend(HighFirst(i / 2, b - 1), Digit(i % 2));
    }
  }

  lemma {:induction false} ParseConcat(x: seq<char>, y: seq<char>)
    ensures ParseBinary(x + y) == ParseBinary(x) * Pow2(|y|) + ParseBinary(y)
    decreases |y|
  {
    if y == [] {
      assert x + y == x;
    } else {
      var y' := y[..|y| - 1];
      var z := x + y;
      var d := if y[|y| - 1] == '1' then 1 else 0;
      assert z[..|z| - 1] == x + y';
      assert z[|z| - 1] == y[|y| - 1];
      assert ParseBinary(z) == 2 * ParseBinary(x + y') + d;
      assert ParseBinary(y) == 2 * ParseBinary(y') + d;
      ParseConcat(x, y');
      var p, w := ParseBinary(x), Pow2(|y'|);
      assert Pow2(|y|) == 2 * w;
      DoubleFactor(p, w);
    }
  }

  lemma DoubleFactor(p: int, w: int)
    ensures p * (2 * w) == 2 * (p * w)
  {
  }

  lemma {:induction false} ParseLowFirst(i: nat, b: nat)
    ensures ParseBinary(LowFirst(i, b)) == Rev(i, b)
  {
    if b > 0 {
      var d := Digit(i % 2);
      var low := LowFirst(i / 2, b - 1);
      assert LowFirst(i, b) == [d] + low;
      ParseConcat([d], low);
      assert [d][..0] == [];
      assert ParseBinary([d]) == (if i % 2 == 1 then 1 else 0);
      assert ParseBinary([d]) * Pow2(b - 1) == (if i % 2 == 1 then Pow2(b - 1) else 0);
      ParseLowFirst(i / 2, b - 1);
    }
  }

  // ---------------------------------------------------------------------
  // num_bits

  lemma {:induction false} BinaryLength(x: nat)
    ensures |Binary(x)| == if x == 0 then 1 else BitLength(x)
  {
    if x >= 2 {
      BinaryLength(x / 2);
    }
  }

  /** Every index of a list of length n has a num_bits-bit numeral. */
  lemma IndexFitsNumBits(n: nat, i: nat)
    requires i < n
    ensures i < Pow2(NumBits(n))
  {
    BinaryLength(n - 1);
    assert NumBits(n) == |Binary(n - 1)|;
    if n - 1 == 0 {
      assert Pow2(1) == 2;
    }
  }

  /** For a power of two n = 2^B with B >= 1, num_bits is B. */
  lemma NumBitsOfPow2(n: nat)
    requires IsPow2(n) && n >= 2
    ensures NumBits(n) == Log2(n)
  {
    var b := Log2(n);
    BinaryLength(n - 1);
    assert NumBits(n) == |Binary(n - 1)|;
    assert Pow2(b) == 2 * Pow2(b - 1);
    BitLengthUnique(n - 1, b);
  }

  // ---------------------------------------------------------------------
  // Properties of the reversal

  lemma {:induction false} RevBound(i: nat, bits: nat)
    ensures Rev(i, bits) < Pow2(bits)
  {
    if bits > 0 {
      RevBound(i / 2, bits - 1);
    }
  }

  lemma {:induction false} RevOfZero(bits: nat)
    ensures Rev(0, bits) == 0
  {
    if bits > 0 {
      RevOfZero(bits - 1);
    }
  }

  /** Splitting off the top bit: the top bit of i becomes the lowest bit of
      the reversal. */
  lemma {:induction false} RevTop(h: nat, l: nat, k: nat)
    requires h < 2 && l < Pow2(k)
    ensures Rev((if h == 1 then Pow2(k) else 0) + l, k + 1) == 2 * Rev(l, k) + h
    decreases k
  {
    var top := if h == 1 then Pow2(k) else 0;
    if k > 0 {
      var p := Pow2(k - 1);
      var low := if h == 1 then p else 0;
      assert Pow2(k) == 2 * p;
      assert top + l == 2 * (low + l / 2) + l % 2;
      ModUnique(top + l, 2, low + l / 2, l % 2);
      RevTop(h, l / 2, k - 1);
    }
  }

  /** Reversing twice gives back the index. */
  lemma {:induction false} RevInvolution(i: nat, bits: nat)
    requires i < Pow2(bits)
    ensures Rev(Rev(i, bits), bits) == i
    decreases bits
  {
    if bits > 0 {
      var y := i / 2;
      RevBound(y, bits - 1);
      RevTop(i % 2, Rev(y, bits - 1), bits - 1);
      assert Rev(i, bits) == (if i % 2 == 1 then Pow2(bits - 1) else 0) + Rev(y, bits - 1);
      RevInvolution(y, bits - 1);
    }
  }

  lemma RevInjective(i: nat, j: nat, bits: nat)
    requires i < Pow2(bits) && j < Pow2(bits) && Rev(i, bits) == Rev(j, bits)
    ensures i == j
  {
    RevInvolution(i, bits);
    RevInvolution(j, bits);
  }

  /** One more bit of width doubles the reversal of a number that fits. */
  lemma {:induction false} RevWiden(x: nat, b: nat)
    requires x < Pow2(b)
    ensures Rev(x, b + 1) == 2 * Rev(x, b)
    decreases b
  {
    if b == 0 {
      RevOfZero(1);
    } else {
      RevWiden(x / 2, b - 1);
      assert Pow2(b) == 2 * Pow2(b - 1);
    }
  }

  /** The identities the twiddle tables rest on: for x < 2^(b-1),
      Rev(x) = 2 Rev(2x) and Rev(2x+1) = Rev(2x) + 2^(b-1). */
  lemma RevOfDouble(x: nat, b: nat)
    requires b >= 1 && x < Pow2(b - 1)
    ensures Rev(x, b) == 2 * Rev(2 * x, b)
    ensures Rev(2 * x + 1, b) == Rev(2 * x, b) + Pow2(b - 1)
  {
    RevWiden(x, b - 1);
    assert (2 * x) % 2 == 0 && (2 * x) / 2 == x;
    assert (2 * x + 1) % 2 == 1 && (2 * x + 1) / 2 == x;
  }

  lemma RevOfOne(b: nat)
    requires b >= 1
    ensures Rev(1, b) == Pow2(b - 1)
  {
    RevOfZero(b - 1);
  }

  // ---------------------------------------------------------------------
  // The reordering

  /** Every rev_index of a list of length n is a valid position in it. */
  predicate Fits(n: nat)
  {
    forall i :: 0 <= i < n ==> RevIndex(i, NumBits(n)) < n
  }

  /** What bit_reverse_order returns: the element whose index reverses to
      k lands at k; IndexError when some rev_index is past the end. */
  function BitReversed<T>(a: seq<T>): Result<seq<T>>
  {
    if Fits(|a|) then
      Ok(seq(|a|, k requires 0 <= k < |a| => a[RevIndex(k, NumBits(|a|))]))
    else
      Err(IndexOutOfRange)
  }

  /** Distinct indexes of a list get distinct rev_index values. */
  lemma DistinctIndexes(n: nat, i: nat, j: nat)
    requires j < i < n
    ensures RevIndex(j, NumBits(n)) != RevIndex(i, NumBits(n))
  {
    var b := NumBits(n);
    IndexFitsNumBits(n, i);
    IndexFitsNumBits(n, j);
    RevIndexIsRev(i, b);
    RevIndexIsRev(j, b);
    if Rev(j, b) == Rev(i, b) {
      RevInjective(i, j, b);
    }
  }

  /** A list holding a[j] at rev_index(j) for every j is the reordering. */
  lemma PlacedIsBitReversed<T>(a: seq<T>, s: seq<T>)
    requires |s| == |a|
    requires forall j :: 0 <= j < |a| ==> RevIndex(j, NumBits(|a|)) < |a|
    requires forall j :: 0 <= j < |a| ==> s[RevIndex(j, NumBits(|a|))] == a[j]
    ensures BitReversed(a) == Ok(s)
  {
    var b := NumBits(|a|);
    forall k | 0 <= k < |a|
      ensures s[k] == a[RevIndex(k, b)]
    {
      IndexFitsNumBits(|a|, k);
      RevIndexIsRev(k, b);
      var j := Rev(k, b);
      IndexFitsNumBits(|a|, j);
      RevIndexIsRev(j, b);
      RevInvolution(k, b);
    }
    assert s == seq(|a|, k requires 0 <= k < |a| => a[RevIndex(k, b)]);
  }

  /** After i turns of the loop: a[j] sits at rev_index(j) for every j < i. */
  ghost predicate PlacedUpTo<T>(s: seq<T>, a: seq<T>, i: int, numBits: nat)
  {
    |s| == |a| && i <= |a| && forall j :: 0 <= j < i ==> RevIndex(j, numBits) < |a| && s[RevIndex(j, numBits)] == a[j]
  }

  /** Writing a[i] at its own rev_index keeps the earlier placements, whose
      rev_index values differ from it. */
  lemma PlaceNext<T>(before: seq<T>, after: seq<T>, a: seq<T>, i: nat, numBits: nat, revIndex: nat)
    requires i < |a| && numBits == NumBits(|a|) && revIndex == RevIndex(i, numBits) && revIndex < |a|
    requires PlacedUpTo(before, a, i, numBits) && after == before[revIndex := a[i]]
    ensures PlacedUpTo(after, a, i + 1, numBits)
  {
    forall j | 0 <= j < i + 1
      ensures RevIndex(j, numBits) < |a| && after[RevIndex(j, numBits)] == a[j]
    {
      if j < i {
        DistinctIndexes(|a|, i, j);
      }
    }
  }

  method BitReverseOrder<T(0)>(a: seq<T>) returns (r: Result<seq<T>>)
    ensures r == BitReversed(a)
    ensures r.Ok? ==> |r.value| == |a|
    ensures r.Ok? ==> forall i :: 0 <= i < |a| ==> r.value[RevIndex(i, NumBits(|a|))] == a[i]
  {
    var numBits := NumBits(|a|);
    var result := new T[|a|];
    for i := 0 to |a|
      invariant PlacedUpTo(result[..], a, i, numBits)
    {
      var revIndex := RevIndex(i, numBits);
      if revIndex >= |a| {
        assert !Fits(|a|);
        return Err(IndexOutOfRange);
      }
      ghost var before := result[..];
      result[revIndex] := a[i];
      PlaceNext(before, result[..], a, i, numBits, revIndex);
    }
    PlacedIsBitReversed(a, result[..]);
    r := Ok(result[..]);
  }
}

/** What the reordering promises: it only moves elements, bit reversal undoes
    itself, and a power-of-two length never raises. */
module BitReverseFacts {
  import opened ModArith
  import opened Outcomes
  import opened BitReverse

  /** A list whose length is a power of two is always reordered. */
  lemma PowerOfTwoFits(n: nat)
    requires IsPow2(n)
    ensures Fits(n)
  {
    var b := NumBits(n);
    if n == 1 {
      IndexFitsNumBits(1, 0);
      RevIndexIsRev(0, b);
      RevOfZero(b);
    } else {
      NumBitsOfPow2(n);
      forall i | 0 <= i < n
        ensures RevIndex(i, b) < n
      {
        RevIndexIsRev(i, b);
        RevBound(i, b);
      }
    }
  }

  /** The index reversal stays inside a list it fits, and undoes itself. */
  lemma FitsRev(n: nat, k: nat)
    requires Fits(n) && k < n
    ensures RevIndex(k, NumBits(n)) == Rev(k, NumBits(n))
    ensures Rev(k, NumBits(n)) < n
    ensures Rev(Rev(k, NumBits(n)), NumBits(n)) == k
  {
    var b := NumBits(n);
    IndexFitsNumBits(n, k);
    RevIndexIsRev(k, b);
    RevInvolution(k, b);
  }

  /** Reordering twice gives the original list back. */
  lemma BitReversedTwice<T>(a: seq<T>)
    requires BitReversed(a).Ok?
    ensures BitReversed(BitReversed(a).value) == Ok(a)
  {
    var n := |a|;
    var b := NumBits(n);
    var t := BitReversed(a).value;
    assert Fits(n);
    forall k | 0 <= k < n
      ensures t[RevIndex(k, b)] == a[k]
    {
      FitsRev(n, k);
      FitsRev(n, Rev(k, b));
    }
    assert seq(n, k requires 0 <= k < n => t[RevIndex(k, b)]) == a;
  }

  /** The positions of x in s. */
  ghost function IndexSet<T>(s: seq<T>, x: T): set<nat>
  {
    set i: nat | i < |s| && s[i] == x
  }

  lemma {:induction false} CountIsIndexSet<T>(s: seq<T>, x: T)
    ensures multiset(s)[x] == |IndexSet(s, x)|
    decreases |s|
  {
    if s != [] {
      var s', y := s[..|s| - 1], s[|s| - 1];
      assert s == s' + [y];
      CountIsIndexSet(s', x);
      if y == x {
        assert IndexSet(s, x) == IndexSet(s', x) + {|s'|};
      } else {
        assert IndexSet(s, x) == IndexSet(s', x);
      }
    }
  }

  /** The image of a set of b-bit numbers under the reversal. */
  function RevImage(S: set<nat>, b: nat): set<nat>
  {
    set i | i in S :: Rev(i, b)
  }

  /** The reversal is one-to-one, so it keeps the size of a set. */
  lemma {:induction false} RevImageSize(S: set<nat>, b: nat)
    requires forall i :: i in S ==> i < Pow2(b)
    ensures |RevImage(S, b)| == |S|
    decreases |S|
  {
    if S != {} {
      var x :| x in S;
      var S' := S - {x};
      RevImageSize(S', b);
      assert RevImage(S, b) == RevImage(S', b) + {Rev(x, b)};
      if Rev(x, b) in RevImage(S', b) {
        var y :| y in S' && Rev(y, b) == Rev(x, b);
        RevInjective(x, y, b);
      }
    }
  }

  /** x occurs at the reversals of the positions where it occurs in a. */
  lemma PositionsMove<T>(a: seq<T>, x: T)
    requires BitReversed(a).Ok?
    ensures IndexSet(BitReversed(a).value, x) == RevImage(IndexSet(a, x), NumBits(|a|))
  {
    forall k | k in IndexSet(BitReversed(a).value, x)
      ensures k in RevImage(IndexSet(a, x), NumBits(|a|))
    {
      MovedFrom(a, x, k);
    }
    forall k | k in RevImage(IndexSet(a, x), NumBits(|a|))
      ensures k in IndexSet(BitReversed(a).value, x)
    {
      var i :| i in IndexSet(a, x) && k == Rev(i, NumBits(|a|));
      MovedTo(a, x, i);
    }
  }

  lemma MovedFrom<T>(a: seq<T>, x: T, k: nat)
    requires BitReversed(a).Ok? && k in IndexSet(BitReversed(a).value, x)
    ensures k in RevImage(IndexSet(a, x), NumBits(|a|))
  {
    assert Fits(|a|);
    FitsRev(|a|, k);
    var i := Rev(k, NumBits(|a|));
    assert i in IndexSet(a, x);
  }

  lemma MovedTo<T>(a: seq<T>, x: T, i: nat)
    requires BitReversed(a).Ok? && i in IndexSet(a, x)
    ensures Rev(i, NumBits(|a|)) in IndexSet(BitReversed(a).value, x)
  {
    var b := NumBits(|a|);
    assert Fits(|a|);
    FitsRev(|a|, i);
    FitsRev(|a|, Rev(i, b));
  }

  lemma SameCount<T>(a: seq<T>, x: T)
    requires BitReversed(a).Ok?
    ensures multiset(BitReversed(a).value)[x] == multiset(a)[x]
  {
    var b := NumBits(|a|);
    var A := IndexSet(a, x);
    PositionsMove(a, x);
    forall i | i in A
      ensures i < Pow2(b)
    {
      IndexFitsNumBits(|a|, i);
    }
    RevImageSize(A, b);
    CountIsIndexSet(BitReversed(a).value, x);
    CountIsIndexSet(a, x);
  }

  /** The reordering is a permutation of the list. */
  lemma BitReversedPermutes<T>(a: seq<T>)
    requires BitReversed(a).Ok?
    ensures multiset(BitReversed(a).value) == multiset(a)
  {
    forall x
      ensures multiset(BitReversed(a).value)[x] == multiset(a)[x]
    {
      SameCount(a, x);
    }
  }
}
