/** `secure_next_int`: a uniform integer in [min, max] by rejection sampling
    over masked random bytes (ntt.py:10-45).

    The operating system's entropy source is an explicit stream of bytes: each
    draw consumes `numSize` bytes from the front, rejected draws included, and
    the unconsumed rest is returned so that callers can draw again. */
module SecureRandom {
  import opened ModArith
  import opened BitOps
  import opened Outcomes

  type Byte = x: int | 0 <= x < 256

  /** `int.from_bytes(bs, byteorder="little")`. */
  function FromLittleEndian(bs: seq<Byte>): nat
  {
    if bs == [] then 0 else bs[0] + 256 * FromLittleEndian(bs[1..])
  }

  lemma {:induction false} Pow2Add(a: nat, b: nat)
    ensures Pow2(a + b) == Pow2(a) * Pow2(b)
  {
    if a > 0 {
      Pow2Add(a - 1, b);
    }
  }

  /** `numSize`: the number of whole bytes that hold the range. */
  function ByteWidth(range: nat): nat
  {
    (BitLength(range) + 7) / 8
  }

  /** `int(math.log(x, 2))`, computed exactly. */
  function FloorLog2(x: nat): (k: nat)
    requires x >= 1
    ensures Pow2(k) <= x < Pow2(k + 1)
  {
    if x == 1 then 0 else 1 + FloorLog2(x / 2)
  }

  /** The number of shift rounds as the source computes it:
      floor(log2(8 * numSize)). See the finding in AsWrittenMaskMissesLowBits. */
  function AsWrittenRounds(numSize: nat): nat
    requires numSize >= 1
  {
    FloorLog2(8 * numSize)
  }

  /** The number of shift rounds needed to saturate every bit of the byte
      width: ceil(log2(8 * numSize)), i.e. `(8 * numSize - 1).bit_length()`. */
  function ShiftRounds(numSize: nat): (k: nat)
    requires numSize >= 1
    ensures Pow2(k) >= 8 * numSize
  {
    BitLength(8 * numSize - 1)
  }

  /** `mask` after k rounds of `mask |= mask >> pow(2, i)`, i = 0 .. k-1. */
  function MaskAfter(range: nat, k: nat): nat
  {
    if k == 0 then range
    else
      var m := MaskAfter(range, k - 1);
      Or(m, ShiftRight(m, Pow2(k - 1)))
  }

  /** The mask with the source's round count. */
  function AsWrittenMask(range: nat): nat
    requires range >= 1
  {
    MaskAfter(range, AsWrittenRounds(ByteWidth(range)))
  }

  /** The mask the sampler is meant to build: all ones below the bit length
      of the range. RoundsSaturate shows that the shift rounds produce it. */
  function Mask(range: nat): nat
  {
    Pow2(BitLength(range)) - 1
  }

  /** The rejection loop on the byte stream: draw `size` bytes, mask them,
      accept the first value <= range. */
  function Draw(range: nat, mask: nat, size: nat, src: seq<Byte>): (Result<nat>, seq<Byte>)
    requires size >= 1
    decreases |src|
  {
    if |src| < size then (Err(EntropyExhausted), src)
    else
      var v := And(FromLittleEndian(src[..size]), mask);
      if v <= range then (Ok(v), src[size..])
      else Draw(range, mask, size, src[size..])
  }

  /** What `secure_next_int(min, max)` returns, with the bytes left over:
      the draws are masked with the source's mask `AsWrittenMask`. */
  function NextInt(min: int, max: int, src: seq<Byte>): (Result<int>, seq<Byte>)
  {
    if min == max then (Ok(min), src)
    else if min > max then (Err(InvalidRange), src)
    else
      var range := max - min;
      Offset(min, Draw(range, AsWrittenMask(range), ByteWidth(range), src))
  }

  /** The sampler as it is meant to work: the same steps, with the saturated
      mask `Mask` that the corrected round count `ShiftRounds` builds. */
  function CorrectedNextInt(min: int, max: int, src: seq<Byte>): (Result<int>, seq<Byte>)
  {
    if min == max then (Ok(min), src)
    else if min > max then (Err(InvalidRange), src)
    else
      var range := max - min;
      Offset(min, Draw(range, Mask(range), ByteWidth(range), src))
  }

  /** A draw from [0, range] moved to [min, max]. */
  function Offset(min: int, d: (Result<nat>, seq<Byte>)): (Result<int>, seq<Byte>)
  {
    (if d.0.Ok? then Ok(min + d.0.value) else Err(d.0.error), d.1)
  }

  predicate IsSuffix(rest: seq<Byte>, src: seq<Byte>)
  {
    |rest| <= |src| && rest == src[|src| - |rest|..]
  }

  method SecureNextInt(min: int, max: int, entropy: seq<Byte>) returns (r: Result<int>, rest: seq<Byte>)
    ensures (r, rest) == NextInt(min, max, entropy)
  {
    if min == max {
      return Ok(min), entropy;
    }
    if min > max {
      return Err(InvalidRange), entropy;
    }
    var range: nat := max - min;
    var numSize := ByteWidth(range);
    var mask := SaturateMask(range, numSize);
    var result;
    result, rest := DrawLoop(range, mask, numSize, entropy);
    NextIntIsOffsetDraw(min, max, entropy);
    r := if result.Ok? then Ok(result.value + min) else Err(result.error);
  }

  /** The `while True` loop of secure_next_int: draw `numSize` bytes, mask
      them, stop at the first value <= range. */
  method DrawLoop(range: nat, mask: nat, numSize: nat, entropy: seq<Byte>) returns (r: Result<nat>, rest: seq<Byte>)
    requires numSize >= 1
    ensures (r, rest) == Draw(range, mask, numSize, entropy)
  {
    rest := entropy;
    while |rest| >= numSize
      invariant Draw(range, mask, numSize, rest) == Draw(range, mask, numSize, entropy)
      decreases |rest|
    {
      var result := And(FromLittleEndian(rest[..numSize]), mask);
      rest := rest[numSize..];
      if result <= range {
        return Ok(result), rest;
      }
    }
    return Err(EntropyExhausted), rest;
  }

  /** For min < max the sampler is the rejection draw over [0, max - min],
      shifted by min; stated once so that callers need not unfold it. */
  lemma NextIntIsOffsetDraw(min: int, max: int, src: seq<Byte>)
    requires min < max
    ensures NextInt(min, max, src) == Offset(min, Draw(max - min, AsWrittenMask(max - min), ByteWidth(max - min), src))
  {
  }

  /** The same for the corrected sampler. */
  lemma CorrectedIsOffsetDraw(min: int, max: int, src: seq<Byte>)
    requires min < max
    ensures CorrectedNextInt(min, max, src) == Offset(min, Draw(max - min, Mask(max - min), ByteWidth(max - min), src))
  {
  }

  /** The mask-building loop of secure_next_int, with the source's round
      count: the mask keeps every bit of the range, so it is at least the
      range. */
  method SaturateMask(range: nat, numSize: nat) returns (mask: nat)
    requires range >= 1 && numSize == ByteWidth(range)
    ensures mask == AsWrittenMask(range)
    ensures And(mask, range) == range && range <= mask
  {
    mask := range;
    var rounds := AsWrittenRounds(numSize);
    for i := 0 to rounds
      invariant mask == MaskAfter(range, i)
    {
      mask := Or(mask, ShiftRight(mask, Pow2(i)));
    }
    MaskCoversRange(range, rounds);
  }

  // ---------------------------------------------------------------------
  // The mask

  /** Every set bit of the range stays set in the mask, whatever the number
      of rounds: `mask & i_range == i_range`, hence `mask >= i_range`. */
  lemma MaskCoversRange(range: nat, k: nat)
    ensures And(MaskAfter(range, k), range) == range
    ensures MaskAfter(range, k) >= range
  {
    var m := MaskAfter(range, k);
    forall i: nat ensures Bit(And(m, range), i) == Bit(range, i) {
      BitOfAnd(m, range, i);
      MaskKeepsBits(range, k, i);
    }
    BitsDetermine(And(m, range), range);
    AndAtMost(m, range);
    forall i: nat ensures Bit(range, i) ==> Bit(m, i) {
      MaskKeepsBits(range, k, i);
    }
    SubsetBitsAtMost(range, m);
  }

  lemma {:induction false} MaskKeepsBits(range: nat, k: nat, i: nat)
    ensures Bit(range, i) ==> Bit(MaskAfter(range, k), i)
  {
    if k > 0 {
      var m := MaskAfter(range, k - 1);
      MaskKeepsBits(range, k - 1, i);
      BitOfOr(m, ShiftRight(m, Pow2(k - 1)), i);
    }
  }

  /** Right shifts never add a bit above the range's top bit. */
  lemma {:induction false} MaskHasNoHighBits(range: nat, k: nat, i: nat)
    requires i >= BitLength(range)
    ensures !Bit(MaskAfter(range, k), i)
  {
    if k == 0 {
      NoBitAbove(range, BitLength(range), i);
    } else {
      var m := MaskAfter(range, k - 1);
      BitOfOr(m, ShiftRight(m, Pow2(k - 1)), i);
      BitOfShift(m, Pow2(k - 1), i);
      MaskHasNoHighBits(range, k - 1, i);
      MaskHasNoHighBits(range, k - 1, i + Pow2(k - 1));
    }
  }

  /** After k rounds the top min(L, 2^k) bits below the bit length L are set. */
  lemma {:induction false} MaskTopBits(range: nat, k: nat, i: nat)
    requires range >= 1
    requires BitLength(range) - Pow2(k) <= i < BitLength(range)
    ensures Bit(MaskAfter(range, k), i)
  {
    var len := BitLength(range);
    if k == 0 {
      TopBit(range);
    } else {
      var m := MaskAfter(range, k - 1);
      BitOfOr(m, ShiftRight(m, Pow2(k - 1)), i);
      if i >= len - Pow2(k - 1) {
        MaskTopBits(range, k - 1, i);
      } else {
        BitOfShift(m, Pow2(k - 1), i);
        MaskTopBits(range, k - 1, i + Pow2(k - 1));
      }
    }
  }

  /** A bit of the mask is clear when no bit of the range lies in the 2^k
      positions from it upwards. */
  lemma {:induction false} MaskBitClear(range: nat, k: nat, i: nat)
    requires forall j: nat :: i <= j < i + Pow2(k) ==> !Bit(range, j)
    ensures !Bit(MaskAfter(range, k), i)
  {
    if k > 0 {
      var m := MaskAfter(range, k - 1);
      var s := Pow2(k - 1);
      BitOfOr(m, ShiftRight(m, s), i);
      BitOfShift(m, s, i);
      MaskBitClear(range, k - 1, i);
      MaskBitClear(range, k - 1, i + s);
    }
  }

  /** With enough rounds the mask is all ones below the range's bit length,
      and at most twice the range. */
  lemma SaturatedMask(range: nat, k: nat)
    requires range >= 1 && Pow2(k) >= BitLength(range)
    ensures MaskAfter(range, k) == Pow2(BitLength(range)) - 1
    ensures range <= MaskAfter(range, k) < 2 * range
  {
    var len := BitLength(range);
    MaskIsAllOnes(range, k);
    assert Pow2(len) == 2 * Pow2(len - 1);
    MaskCoversRange(range, k);
  }

  lemma MaskIsAllOnes(range: nat, k: nat)
    requires range >= 1 && Pow2(k) >= BitLength(range)
    ensures MaskAfter(range, k) == Pow2(BitLength(range)) - 1
  {
    forall i: nat ensures Bit(MaskAfter(range, k), i) == (i < BitLength(range)) {
      SaturatedBit(range, k, i);
    }
    AllOnesByBits(MaskAfter(range, k), BitLength(range));
  }

  /** With enough rounds, bit i of the mask is set exactly below the bit
      length of the range. */
  lemma SaturatedBit(range: nat, k: nat, i: nat)
    requires range >= 1 && Pow2(k) >= BitLength(range)
    ensures Bit(MaskAfter(range, k), i) == (i < BitLength(range))
  {
    if i < BitLength(range) {
      MaskTopBits(range, k, i);
    } else {
      MaskHasNoHighBits(range, k, i);
    }
  }

  /** With ShiftRounds rounds the shifts fill every bit below the top bit of
      the range, so the mask is all ones and covers the range. */
  lemma RoundsSaturate(range: nat)
    requires range >= 1
    ensures MaskAfter(range, ShiftRounds(ByteWidth(range))) == Mask(range)
    ensures range <= Mask(range) < 2 * range
  {
    var size := ByteWidth(range);
    assert 8 * size >= BitLength(range);
    SaturatedMask(range, ShiftRounds(size));
  }

  /** FINDING. With the source's round count, a range 2^j with 16 <= j <= 23
      takes three bytes, gets floor(log2(24)) = 4 rounds of doubling shifts,
      which fill only the 16 bits below the top bit: bit 0 of the mask stays
      clear (for 2^23 the mask is 0xFFFF00), so every masked draw is even
      and 1 can never be returned. */
  lemma AsWrittenMaskMissesLowBits(j: nat)
    requires 16 <= j <= 23
    ensures ByteWidth(Pow2(j)) == 3 && AsWrittenRounds(3) == 4
    ensures !Bit(AsWrittenMask(Pow2(j)), 0)
    ensures forall x: nat :: And(x, AsWrittenMask(Pow2(j))) != 1
  {
    var range := Pow2(j);
    assert ByteWidth(range) == 3 by { WidthOfPow2(j); }
    RoundsOfThreeBytes();
    assert AsWrittenMask(range) == MaskAfter(range, 4);
    PowerMaskMissesBitZero(j, 4);
    EvenMaskNeverGivesOne(MaskAfter(range, 4));
  }

  /** For a range 2^j, k rounds with 2^k <= j leave bit 0 of the mask clear. */
  lemma PowerMaskMissesBitZero(j: nat, k: nat)
    requires Pow2(k) <= j
    ensures !Bit(MaskAfter(Pow2(j), k), 0)
  {
    forall i: nat | 0 <= i < 0 + Pow2(k) ensures !Bit(Pow2(j), i) {
      BitOfPow2(j, i);
    }
    MaskBitClear(Pow2(j), k, 0);
  }

  lemma EvenMaskNeverGivesOne(m: nat)
    requires !Bit(m, 0)
    ensures forall x: nat :: And(x, m) != 1
  {
    forall x: nat ensures And(x, m) != 1 {
      BitOfAnd(x, m, 0);
    }
  }

  /** 2^j takes j + 1 bits, hence (j + 8) / 8 bytes. */
  lemma WidthOfPow2(j: nat)
    ensures ByteWidth(Pow2(j)) == (j + 8) / 8
  {
    BitLengthOfPow2(j);
  }

  lemma RoundsOfThreeBytes()
    ensures AsWrittenRounds(3) == 4 && Pow2(4) == 16
  {
    assert Pow2(4) == 16 && Pow2(5) == 32;
    FloorLog2Is(24, 4);
  }

  lemma {:induction false} BitLengthOfPow2(j: nat)
    ensures BitLength(Pow2(j)) == j + 1
  {
    if j > 0 {
      BitLengthOfPow2(j - 1);
      assert Pow2(j) / 2 == Pow2(j - 1);
    }
  }

  lemma FloorLog2Is(x: nat, k: nat)
    requires x >= 1 && Pow2(k) <= x < Pow2(k + 1)
    ensures FloorLog2(x) == k
  {
    var j := FloorLog2(x);
    if j < k {
      Pow2Monotone(j + 1, k);
    } else if j > k {
      Pow2Monotone(k + 1, j);
    }
  }

  lemma {:induction false} Pow2Monotone(a: nat, b: nat)
    requires a <= b
    ensures Pow2(a) <= Pow2(b)
  {
    if a < b {
      Pow2Monotone(a, b - 1);
    }
  }

  /** Consequently the source's sampler never returns min + 1 on such a
      range: `secure_next_int(0, 2**j)` never returns 1, whatever the
      entropy, whereas the corrected sampler does for some entropy. */
  lemma AsWrittenNeverDrawsOne(j: nat, src: seq<Byte>)
    requires 16 <= j <= 23
    ensures NextInt(0, Pow2(j), src).0 != Ok(1)
    ensures exists e: seq<Byte> :: CorrectedNextInt(0, Pow2(j), e).0 == Ok(1)
  {
    AsWrittenMaskMissesLowBits(j);
    EvenMaskNeverDraws(Pow2(j), AsWrittenMask(Pow2(j)), 3, src);
    NextIntIsOffsetDraw(0, Pow2(j), src);
    EveryValueReachable(0, Pow2(j), 1);
  }

  /** When the source's round count already reaches the bit length of the
      range (for instance for ranges of 1, 2, 4 or 8 bytes, where the floor
      and the ceiling of the logarithm agree), the two samplers coincide. */
  lemma SamplersAgree(min: int, max: int, src: seq<Byte>)
    requires min < max && Pow2(AsWrittenRounds(ByteWidth(max - min))) >= BitLength(max - min)
    ensures NextInt(min, max, src) == CorrectedNextInt(min, max, src)
  {
    var range: nat := max - min;
    var size := ByteWidth(range);
    AsWrittenMaskSaturated(range);
    calc {
      NextInt(min, max, src);
      == { NextIntIsOffsetDraw(min, max, src); }
      Offset(min, Draw(range, AsWrittenMask(range), size, src));
      == // the two masks are equal
      Offset(min, Draw(range, Mask(range), size, src));
      == { CorrectedIsOffsetDraw(min, max, src); }
      CorrectedNextInt(min, max, src);
    }
  }

  /** The source's mask is the intended one once its rounds reach the bit
      length of the range. */
  lemma AsWrittenMaskSaturated(range: nat)
    requires range >= 1 && Pow2(AsWrittenRounds(ByteWidth(range))) >= BitLength(range)
    ensures AsWrittenMask(range) == Mask(range)
  {
    MaskIsAllOnes(range, AsWrittenRounds(ByteWidth(range)));
  }

  /** In particular for every range of one byte, 1 <= range < 256. */
  lemma OneByteSamplersAgree(min: int, max: int, src: seq<Byte>)
    requires min < max <= min + 255
    ensures NextInt(min, max, src) == CorrectedNextInt(min, max, src)
  {
    var range := max - min;
    OneByteWidth(range);
    OneByteRounds();
    assert Pow2(3) == 8;
    SamplersAgree(min, max, src);
  }

  /** A range below 256 takes one byte and has at most 8 bits. */
  lemma OneByteWidth(range: nat)
    requires 1 <= range <= 255
    ensures BitLength(range) <= 8 && ByteWidth(range) == 1
  {
    assert range < Pow2(8);
    BitLengthBelow(range, 8);
  }

  /** One byte gets int(log2(8)) = 3 rounds. */
  lemma OneByteRounds()
    ensures AsWrittenRounds(1) == 3
  {
    assert Pow2(3) == 8 && Pow2(4) == 16;
    FloorLog2Is(8, 3);
  }

  lemma {:induction false} BitLengthBelow(x: nat, k: nat)
    requires x < Pow2(k)
    ensures BitLength(x) <= k
    decreases k
  {
    if x > 0 {
      BitLengthBelow(x / 2, k - 1);
    }
  }

  lemma {:induction false} EvenMaskNeverDraws(range: nat, mask: nat, size: nat, src: seq<Byte>)
    requires size >= 1 && forall x: nat :: And(x, mask) != 1
    ensures Draw(range, mask, size, src).0 != Ok(1)
    decreases |src|
  {
    if |src| >= size {
      EvenMaskNeverDraws(range, mask, size, src[size..]);
    }
  }

  // ---------------------------------------------------------------------
  // Results

  /** The value of an accepted draw lies in [0, range], and the stream only
      shrinks. */
  lemma {:induction false} DrawInRange(range: nat, mask: nat, size: nat, src: seq<Byte>)
    requires size >= 1
    ensures Draw(range, mask, size, src).0.Ok? ==> Draw(range, mask, size, src).0.value <= range
    ensures Draw(range, mask, size, src).0.Err? ==> Draw(range, mask, size, src).0.error == EntropyExhausted
    ensures IsSuffix(Draw(range, mask, size, src).1, src)
    decreases |src|
  {
    if |src| >= size {
      DrawInRange(range, mask, size, src[size..]);
    }
  }

  /** The draw moved to [min, min + range] keeps the facts of DrawInRange. */
  lemma OffsetDrawInRange(min: int, range: nat, mask: nat, size: nat, src: seq<Byte>)
    requires size >= 1
    ensures Offset(min, Draw(range, mask, size, src)).0.Ok? ==>
      min <= Offset(min, Draw(range, mask, size, src)).0.value <= min + range
    ensures Offset(min, Draw(range, mask, size, src)).0.Err? ==>
      Offset(min, Draw(range, mask, size, src)).0.error == EntropyExhausted
    ensures IsSuffix(Offset(min, Draw(range, mask, size, src)).1, src)
  {
    DrawInRange(range, mask, size, src);
  }

  /** `secure_next_int` behaves as documented: min when min == max, an error
      when min > max, otherwise a value in [min, max] unless the stream runs
      out. */
  lemma NextIntContract(min: int, max: int, src: seq<Byte>)
    ensures min == max ==> NextInt(min, max, src).0 == Ok(min)
    ensures NextInt(min, max, src).0 == Err(InvalidRange) <==> min > max
    ensures NextInt(min, max, src).0.Ok? ==> min <= NextInt(min, max, src).0.value <= max
    ensures min < max && NextInt(min, max, src).0.Err? ==> NextInt(min, max, src).0.error == EntropyExhausted
    ensures IsSuffix(NextInt(min, max, src).1, src)
  {
    if min < max {
      var range := max - min;
      NextIntIsOffsetDraw(min, max, src);
      OffsetDrawInRange(min, range, AsWrittenMask(range), ByteWidth(range), src);
    }
  }

  /** A value drawn from [min, max] lies in [min, max]. */
  lemma NextIntBounds(min: int, max: int, src: seq<Byte>)
    ensures NextInt(min, max, src).0.Ok? ==> min <= NextInt(min, max, src).0.value <= max
  {
    NextIntContract(min, max, src);
  }

  /** The corrected sampler keeps the same contract. */
  lemma CorrectedNextIntContract(min: int, max: int, src: seq<Byte>)
    ensures min == max ==> CorrectedNextInt(min, max, src).0 == Ok(min)
    ensures CorrectedNextInt(min, max, src).0 == Err(InvalidRange) <==> min > max
    ensures CorrectedNextInt(min, max, src).0.Ok? ==> min <= CorrectedNextInt(min, max, src).0.value <= max
    ensures min < max && CorrectedNextInt(min, max, src).0.Err? ==> CorrectedNextInt(min, max, src).0.error == EntropyExhausted
    ensures IsSuffix(CorrectedNextInt(min, max, src).1, src)
  {
    if min < max {
      var range := max - min;
      CorrectedIsOffsetDraw(min, max, src);
      OffsetDrawInRange(min, range, Mask(range), ByteWidth(range), src);
    }
  }

  /** `int.to_bytes(size, "little")`. */
  function ToLittleEndian(v: nat, size: nat): (bs: seq<Byte>)
    ensures |bs| == size
  {
    if size == 0 then [] else [v % 256] + ToLittleEndian(v / 256, size - 1)
  }

  lemma {:induction false} LittleEndianRoundTrip(v: nat, size: nat)
    requires v < Pow2(8 * size)
    ensures FromLittleEndian(ToLittleEndian(v, size)) == v
  {
    if size > 0 {
      var p := Pow2(8 * (size - 1));
      var bs := ToLittleEndian(v, size);
      var hi := v / 256;
      assert Pow2(8 * size) == 256 * p by { Pow2Add(8, 8 * (size - 1)); }
      assert hi < p by { QuotientBound(v, p); }
      LittleEndianRoundTrip(hi, size - 1);
      assert bs[1..] == ToLittleEndian(hi, size - 1);
      assert FromLittleEndian(bs) == v % 256 + 256 * hi;
    }
  }

  lemma QuotientBound(v: nat, p: nat)
    requires v < 256 * p
    ensures v / 256 < p
  {
  }

  /** No value of the range is out of reach of the corrected sampler: for
      every v in [min, max] some stream makes it return v at its first draw. */
  lemma EveryValueReachable(min: int, max: int, v: int)
    requires min <= v <= max
    ensures exists src: seq<Byte> :: CorrectedNextInt(min, max, src).0 == Ok(v)
  {
    if min == max {
      assert CorrectedNextInt(min, max, []).0 == Ok(v);
    } else {
      RangeFitsWidth(max - min);
      var src := StreamOf(v - min, ByteWidth(max - min));
      DecodedValueDrawn(min, max, v, src);
    }
  }

  /** For a range that fits in one byte, as in the draws of usage.py with
      q = 17, the sampler as written reaches every value too. */
  lemma OneByteValuesReachable(min: int, max: int, v: int)
    requires min <= v <= max <= min + 255
    ensures exists src: seq<Byte> :: NextInt(min, max, src).0 == Ok(v)
  {
    if min == max {
      assert NextInt(min, max, []).0 == Ok(v);
    } else {
      RangeFitsWidth(max - min);
      var src := StreamOf(v - min, ByteWidth(max - min));
      DecodedValueDrawn(min, max, v, src);
      OneByteSamplersAgree(min, max, src);
    }
  }

  /** The bytes `int.to_bytes(size, "little")` of a value that fits. */
  lemma StreamOf(x: nat, size: nat) returns (src: seq<Byte>)
    requires x < Pow2(8 * size)
    ensures |src| == size && FromLittleEndian(src[..size]) == x
  {
    src := ToLittleEndian(x, size);
    StreamOfValue(x, size);
  }

  /** A stream whose first `numSize` bytes encode v - min makes the
      corrected sampler return v at once. */
  lemma DecodedValueDrawn(min: int, max: int, v: int, src: seq<Byte>)
    requires min < max && min <= v <= max
    requires |src| >= ByteWidth(max - min) && FromLittleEndian(src[..ByteWidth(max - min)]) == v - min
    ensures CorrectedNextInt(min, max, src).0 == Ok(v)
  {
    DecodedDraw(max - min, v - min, src);
    CorrectedIsOffsetDraw(min, max, src);
  }

  /** With the saturated mask, a first draw that decodes to x <= range is
      accepted as it is. */
  lemma DecodedDraw(range: nat, x: nat, src: seq<Byte>)
    requires 1 <= range && x <= range
    requires |src| >= ByteWidth(range) && FromLittleEndian(src[..ByteWidth(range)]) == x
    ensures Draw(range, Mask(range), ByteWidth(range), src).0 == Ok(x)
  {
    MaskKeepsSmallValues(range, x);
    FirstDrawAccepted(range, Mask(range), ByteWidth(range), src, x);
  }

  lemma FirstDrawAccepted(range: nat, mask: nat, size: nat, src: seq<Byte>, x: nat)
    requires size >= 1 && |src| >= size
    requires FromLittleEndian(src[..size]) == x && And(x, mask) == x && x <= range
    ensures Draw(range, mask, size, src).0 == Ok(x)
  {
  }

  /** Every value of the range fits in `numSize` bytes. */
  lemma RangeFitsWidth(range: nat)
    ensures range < Pow2(8 * ByteWidth(range))
  {
    Pow2Monotone(BitLength(range), 8 * ByteWidth(range));
  }

  lemma StreamOfValue(x: nat, size: nat)
    requires x < Pow2(8 * size)
    ensures |ToLittleEndian(x, size)| == size
    ensures FromLittleEndian(ToLittleEndian(x, size)[..size]) == x
  {
    LittleEndianRoundTrip(x, size);
    assert ToLittleEndian(x, size)[..size] == ToLittleEndian(x, size);
  }

  /** Masking leaves every value of the range unchanged. */
  lemma MaskKeepsSmallValues(range: nat, x: nat)
    requires 1 <= range && x <= range
    ensures And(x, Mask(range)) == x
  {
    var len := BitLength(range);
    var m := Mask(range);
    forall i: nat ensures Bit(And(x, m), i) == Bit(x, i) {
      BitOfAnd(x, m, i);
      BitOfAllOnes(len, i);
      if i >= len {
        NoBitAbove(x, len, i);
      }
    }
    BitsDetermine(And(x, m), x);
  }
}
