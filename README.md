# NTT engine: a verified Dafny model

This project models the number-theoretic transform (NTT) engine of `ntt.py` and the toy pipeline of `usage.py`. The engine follows Longa and Naehrig, "Speeding up the Number Theoretic Transform for Faster Ideal Lattice-Based Cryptography". The project also proves what that engine promises.

The model is split into modules that follow the program's pieces:

- `SecureRandom` (with `BitOps`) models `secure_next_int`, the rejection sampler. It has three parts:
  - the byte-width and shift-round arithmetic;
  - the mask-building loop, written as a method (`SaturateMask`);
  - the rejection loop over a stream of entropy bytes (`SecureNextInt`).

  The sampler follows the source's round count. A corrected sampler, `CorrectedNextInt`, is kept beside it for the finding below; the two agree on every range of one byte.
- `PrimRoot` models `get_prim_root`: at most 50 draws, each candidate `x^r mod q` tested against `candidate^n == q - 1`.
- `BitReverse` and `BitReverseFacts` model `bit_reverse_order`. `rev_index` is computed the way the source computes it: `bin`, `zfill`, string reversal, then parsing. It is proved equal to the arithmetic bit reversal `Rev`. The reordering is proved to be a permutation that undoes itself.
- `NttSpec` gives the Cooley-Tukey and Gentleman-Sande stages as functions on sequences.
- `Ntt` has `speedup_FNTT` and `speedup_INTT` as the in-place array loops they are. Each is proved to compute the `NttSpec` functions and to read exactly the twiddle indices listed.
- `TransformFacts` holds the shape facts: output lengths and ranges, and which twiddle indices are read.
- `RoundTrip` proves that the inverse transform undoes the forward one.
- `Polynomial` and `Evaluation` prove that the forward transform evaluates its input at the roots of x^n + 1 taken from the table. The pipeline of `usage.py` therefore computes the product modulo x^n + 1.
- `Tables` models the twiddle tables of `usage.py:14-22` and proves the properties the transforms need of them.
- `Usage` states the pipeline theorem and models `usage.py` itself as a method (`Example`). For n = 8, q = 17 and inputs `[1..8]`, that method returns `[7, 10, 10, 9, 9, 12, 3, 1]` whenever the root search succeeds.

Python's `%` with a positive modulus is the Euclidean remainder, which is what Dafny's `%` gives, so every `% q` carries over as written. Integers are unbounded, as in Python. `os.urandom` is replaced by an explicit byte stream: each draw consumes the next `numSize` bytes, and each operation returns the bytes left over.

## Model

The table lists the operations and the properties proved about them first. The functions those contracts are stated in terms of follow, from `BitOps.Or` on, each modelling one piece of the source. Last come the steps of the proofs, from `SecureRandom.NextIntIsOffsetDraw` on, each about one turn of a loop or one piece of a stage.

| member | source | states |
|---|---|---|
| BitOps.BitLength | ntt.py:36 | `i_range.bit_length()`, characterised by 2^(L-1) <= x < 2^L, with L = 0 exactly for 0 |
| BitOps.BitLengthUnique | ntt.py:36 | the bit length is the only L with 2^(L-1) <= x < 2^L |
| SecureRandom.FloorLog2 | ntt.py:37 | `int(math.log(x, 2))` taken exactly: 2^k <= x < 2^(k+1) |
| SecureRandom.ShiftRounds | ntt.py:37-38 | the corrected round count, ceil(log2(8 * numSize)): 2^k >= 8 * numSize |
| SecureRandom.SaturateMask | ntt.py:35-39 | the loop `mask \|= mask >> 2^i`, run for the source's round count floor(log2(8 * numSize)), builds exactly `AsWrittenMask(range)`, and that mask keeps every bit of the range: `mask & i_range == i_range` and `mask >= i_range` |
| SecureRandom.MaskCoversRange | ntt.py:35-39 | after any number of rounds, `mask & i_range == i_range` and `mask >= i_range` |
| SecureRandom.MaskKeepsBits | ntt.py:39 | every set bit of the range stays set through the rounds |
| SecureRandom.MaskHasNoHighBits | ntt.py:39 | right shifts never set a bit at or above the bit length of the range |
| SecureRandom.MaskTopBits | ntt.py:38-39 | after k rounds the top min(L, 2^k) bits below the bit length L are set |
| SecureRandom.SaturatedMask | ntt.py:35-39 | with 2^k >= L rounds the mask is 2^L - 1, and range <= mask < 2 * range |
| SecureRandom.RoundsSaturate | ntt.py:36-39 | the corrected round count builds the saturated mask `Mask(range)`, which covers the range and is below twice it |
| SecureRandom.SecureNextInt | ntt.py:31-45 | the method returns what `NextInt` specifies: min when min == max, `InvalidRange` when min > max, otherwise the first draw masked with the source's mask that is <= range, plus min |
| SecureRandom.DrawLoop | ntt.py:40-43 | the `while True` loop returns what `Draw` specifies: the first masked draw <= range with the bytes after it, or `EntropyExhausted` when the stream runs out |
| SecureRandom.DrawInRange | ntt.py:41-43 | an accepted draw is <= range; the only failure is running out of entropy; bytes are consumed from the front only |
| SecureRandom.NextIntContract | ntt.py:31-45 | min when min == max; `InvalidRange` exactly when min > max; every returned value lies in [min, max]; otherwise only `EntropyExhausted`; the rest is a suffix of the input |
| SecureRandom.NextIntBounds | ntt.py:41-44 | every returned value lies in [min, max] |
| SecureRandom.CorrectedNextIntContract | ntt.py:31-45 | the corrected sampler keeps the contract of `NextIntContract`: min when min == max, `InvalidRange` exactly when min > max, results in [min, max], otherwise only `EntropyExhausted`, the rest a suffix |
| SecureRandom.SamplersAgree | ntt.py:37-39 | whenever the source's round count is enough to saturate the mask (2^rounds >= bit length of the range), the sampler as written and the corrected one give the same result |
| SecureRandom.OneByteSamplersAgree | ntt.py:36-39 | for a range below 256 (one byte, 3 rounds) the two samplers agree, so the draws of `get_prim_root(8, 17)` follow the source exactly |
| SecureRandom.MaskKeepsSmallValues | ntt.py:42 | masking leaves every value of [0, range] unchanged |
| SecureRandom.FirstDrawAccepted | ntt.py:42-43 | a first draw that decodes to x <= range, kept by the mask, is accepted |
| SecureRandom.LittleEndianRoundTrip | ntt.py:42 | `int.from_bytes(v.to_bytes(size, "little"), "little") == v` for every v that fits |
| SecureRandom.RangeFitsWidth | ntt.py:36 | every value of the range fits in `numSize` bytes |
| SecureRandom.DecodedValueDrawn | ntt.py:41-44 | with the saturated mask, a stream whose first bytes encode v - min makes the corrected sampler return v |
| SecureRandom.EveryValueReachable | ntt.py:41-44 | every v in [min, max] is returned by the corrected sampler for some entropy stream |
| SecureRandom.OneByteValuesReachable | ntt.py:36-44 | for such a range the sampler as written returns every v in [min, max] for some entropy stream |
| SecureRandom.AsWrittenMaskMissesLowBits | ntt.py:36-39 | as written, for a range 2^j with 16 <= j <= 23 (three bytes, 4 rounds), bit 0 of the mask stays clear, so no masked value is 1 |
| SecureRandom.PowerMaskMissesBitZero | ntt.py:38-39 | for a range 2^j, k rounds with 2^k <= j leave bit 0 of the mask clear |
| SecureRandom.AsWrittenNeverDrawsOne | ntt.py:36-43 | as written, `secure_next_int(0, 2^j)` with 16 <= j <= 23 never returns 1, while the corrected sampler returns 1 for some stream |
| SecureRandom.EvenMaskNeverDraws | ntt.py:41-43 | with a mask that no value ANDs to 1, no draw returns 1 |
| PrimRoot.Exponent | ntt.py:73-75 | `r` defaults to (q - 1) // (2n), which is >= 0 for q >= 1; a given r is used as is |
| PrimRoot.GetPrimRoot | ntt.py:73-82 | the loop of at most 50 draws returns exactly what the search function `Search` gives, with `Tries` = 50 |
| PrimRoot.SearchFacts | ntt.py:73-82 | a returned root lies in [0, q), has n-th power q - 1 and 2n-th power 1; the only errors are `RootNotFound`, `InvalidRange` and `EntropyExhausted`; `InvalidRange` comes back exactly when q < 3; the entropy left over is a suffix |
| PrimRoot.SearchSound | ntt.py:78-81 | a returned root is x^r mod q for a drawn x in [2, q-1], lies in [0, q), and has n-th power q - 1 and 2n-th power 1 |
| PrimRoot.SquareOfRoot | ntt.py:80 | candidate^n == q - 1 modulo q implies candidate^(2n) == 1 modulo q |
| PrimRoot.SearchErrorKinds | ntt.py:77-82 | an error is `RootNotFound`, `InvalidRange` or `EntropyExhausted` |
| PrimRoot.SearchRangeError | ntt.py:78 | an empty draw range [2, q-1] (q < 3) is exactly when `InvalidRange` comes back |
| PrimRoot.SearchSuffix | ntt.py:77-81 | the search consumes entropy from the front only |
| PrimRoot.NotFoundIffAllRejected | ntt.py:76-82 | `RootNotFound` comes back exactly when all 50 draws succeed and none passes the test |
| PrimRoot.AllRejectedCons | ntt.py:77-81 | all draws are rejected exactly when the first one is and all the later ones are |
| BitReverse.RevIndexIsRev | ntt.py:193 | `int(bin(i)[2:].zfill(b)[::-1], 2)` equals the arithmetic bit reversal Rev(i, b) for i < 2^b |
| BitReverse.PaddedIsHighFirst | ntt.py:193 | `bin(i)[2:].zfill(b)` is the b binary digits of i, most significant first |
| BitReverse.ReverseOfHighFirst | ntt.py:193 | reversing those digits gives them least significant first |
| BitReverse.ParseLowFirst | ntt.py:193 | parsing the reversed digits gives Rev(i, b) |
| BitReverse.NumBitsOfPow2 | ntt.py:190 | `len(bin(n - 1)) - 2` is log2 n for a power of two n >= 2 |
| BitReverse.IndexFitsNumBits | ntt.py:190-193 | every index below n fits in `num_bits` bits |
| BitReverse.RevBound | ntt.py:193 | Rev(i, b) < 2^b |
| BitReverse.RevInvolution | ntt.py:193 | bit reversal undoes itself: Rev(Rev(i, b), b) == i |
| BitReverse.RevInjective | ntt.py:193-194 | distinct indices have distinct bit reversals |
| BitReverse.RevOfDouble | ntt.py:193 | Rev(x, b) == 2 Rev(2x, b), and Rev(2x + 1, b) == Rev(2x, b) + 2^(b-1) |
| BitReverse.RevOfOne | ntt.py:193 | Rev(1, b) == 2^(b-1) |
| BitReverse.DistinctIndexes | ntt.py:192-194 | two loop turns write to different positions of `result` |
| BitReverse.PlaceNext | ntt.py:194 | writing a[i] at rev_index(i) keeps every earlier placement |
| BitReverse.PlacedIsBitReversed | ntt.py:191-195 | a list holding a[j] at rev_index(j) for every j is the reordering |
| BitReverse.BitReverseOrder | ntt.py:190-195 | the loop returns `BitReversed(a)`: a list of the same length with `result[rev_index(i)] == a[i]`, or `IndexOutOfRange` when some rev_index runs past the end |
| BitReverseFacts.PowerOfTwoFits | ntt.py:190-194 | for a power-of-two length every rev_index is in range, so no `IndexError` is raised |
| BitReverseFacts.FitsRev | ntt.py:193 | for such a length, rev_index is Rev, is below n, and undoes itself |
| BitReverseFacts.BitReversedTwice | ntt.py:190-195 | reordering twice gives back the original list |
| BitReverseFacts.PositionsMove | ntt.py:192-194 | the positions holding a value x after reordering are the bit reversals of those holding it before |
| BitReverseFacts.SameCount | ntt.py:190-195 | every value occurs as often after the reordering as before |
| BitReverseFacts.BitReversedPermutes | ntt.py:190-195 | the reordering is a permutation: same multiset of elements |
| NttSpec.GroupBounds | ntt.py:113-117 | position k < 2mt lies in group k / 2t at offset k % 2t, inside the stage |
| NttSpec.CtPair | ntt.py:117-121 | a Cooley-Tukey butterfly of group i outputs (U + V S) % q and (U - V S) % q with S = table[m + i], both in bounds |
| NttSpec.CtGroup | ntt.py:113-121 | group i of a stage holds t such butterflies from position 2it |
| NttSpec.GsPair | ntt.py:157-161 | a Gentleman-Sande butterfly outputs (U + V) % q and ((U - V) S) % q with S = table[h + i] |
| NttSpec.GsGroup | ntt.py:154-161 | group i of an inverse stage holds t such butterflies from position 2it |
| NttSpec.StagesEnd | ntt.py:110-111 | the value of m when `while m < n` stops is >= n |
| NttSpec.StagesEndIsPow2 | ntt.py:110-122 | that value is a power of two |
| NttSpec.Range | ntt.py:113 | the indices lo .. hi - 1, in order, as `range(m)` and `range(h)` (ntt.py:154) visit them |
| Ntt.ForwardGroup | ntt.py:115-121 | the inner loop writes the t butterflies of one group in place and leaves every other entry alone |
| Ntt.ForwardStage | ntt.py:112-121 | one forward stage in place gives `CtStage` of the old contents, reading twiddles m .. 2m - 1 |
| Ntt.SpeedupFntt | ntt.py:107-123 | `speedup_FNTT` returns `Fntt(a)` and reads the table at exactly `FwdReads` when the table covers every index read; otherwise it gives `IndexOutOfRange`, as the `IndexError` of ntt.py:116 |
| Ntt.InverseGroup | ntt.py:155-161 | the inner loop writes the t Gentleman-Sande butterflies of one group in place and leaves every other entry alone |
| Ntt.NextGroup | ntt.py:162 | `j_1 += t << 1` moves from the start 2it of group i to the start 2(i + 1)t of the next, which is at most 2ht, the end of the stage |
| Ntt.InverseStage | ntt.py:152-162 | one inverse stage in place gives `GsStage` of the old contents, reading twiddles h .. 2h - 1 |
| Ntt.ScaleInPlace | ntt.py:166-167 | the final loop sets every entry to `(A[j] * n_inv) % q` |
| Ntt.SpeedupIntt | ntt.py:147-168 | `speedup_INTT` returns `Intt(a)`: `IndexOutOfRange` when the table has fewer than 2 (n / 2) entries, else the inverse stages then a multiplication by n^-1, or `NotInvertible` when `pow(n, -1, q)` fails; with a long enough table it reads exactly `InvReads` |
| TransformFacts.StagesEndOfPow2 | ntt.py:110-122 | for a power-of-two n the forward loop stops at m == n |
| TransformFacts.CoversPow2 | ntt.py:116 | for a power-of-two n a table of length n covers every twiddle index read |
| TransformFacts.CtStageReduced | ntt.py:120-121 | every entry a stage writes is in [0, q) |
| TransformFacts.FnttShape | ntt.py:107-123 | the forward transform has length len(a) and, for a power-of-two n >= 2, every entry in [0, q) |
| TransformFacts.FwdReduced | ntt.py:110-122 | after any number m >= 2 of forward stages the first 2 (n / 2) entries are in [0, q), and for odd n entry n - 1 is still the input's |
| TransformFacts.FnttReduced | ntt.py:107-123 | for every n >= 2 whose table covers the reads, `speedup_FNTT` reduces the first 2 (n / 2) entries modulo q, so every entry when n is even, and returns entry n - 1 unchanged when n is odd |
| TransformFacts.InttShape | ntt.py:147-168 | a result has length len(a) and entries in [0, q); `IndexOutOfRange` exactly when n >= 2 and the table has fewer than 2 (n / 2) entries; `NotInvertible` exactly when the table is long enough and n has no inverse modulo q; no other error |
| TransformFacts.OddLengthInverse | ntt.py:147-168 | for n = 5 the inverse transform reads only 4 table entries, so a table of 4 entries gives a result (no `IndexError`) |
| TransformFacts.OddLengthTail | ntt.py:110-122 | for n = 5 the forward stages stop at m = 8 and never write position 4, which keeps its unreduced input 20 with q = 17 |
| TransformFacts.RangeCount | ntt.py:111-122 | each index occurs once in its range and not elsewhere |
| TransformFacts.FwdReadsAll | ntt.py:111-122 | over all stages the forward loop reads twiddles 1 .. n-1, once each, in order |
| TransformFacts.InvReadsPermuted | ntt.py:151-164 | the inverse loop reads the same indices as the forward one, in another order |
| TransformFacts.FnttTwiddleReads | ntt.py:111-122 | `speedup_FNTT` reads table entries 1 .. n-1, once each, and never entry 0 |
| TransformFacts.InttTwiddleReads | ntt.py:151-164 | `speedup_INTT` reads each table entry 1 .. n-1 exactly once and no other entry |
| RoundTrip.ButterflyUndone | ntt.py:157-161 | a Gentleman-Sande butterfly with twiddle s' = s^-1, fed c times the outputs of a Cooley-Tukey butterfly with twiddle s, returns 2c times its inputs |
| RoundTrip.ButterfliesUndone | ntt.py:154-161 | the same for one group of butterflies |
| RoundTrip.GsUndoesCt | ntt.py:154-162 | an inverse stage undoes the matching forward stage, doubling the factor |
| RoundTrip.LastStageUndone | ntt.py:151-164 | the first inverse stage undoes the last forward stage |
| RoundTrip.InvUndoesFwd | ntt.py:151-164 | the inverse stages applied to c times the forward stages give cn times the input |
| RoundTrip.CancelEntry | ntt.py:165-167 | x = n y and n c = 1 modulo q give x c = y modulo q |
| RoundTrip.ScaleCancels | ntt.py:165-167 | multiplying n times a by n^-1 gives back a reduced modulo q |
| RoundTrip.InvOfFntt | ntt.py:147-164 | with inverse twiddle tables, the inverse stages of the forward transform give n times the input |
| RoundTrip.NttRoundTrip | ntt.py:107-168 | round trip: `speedup_INTT(speedup_FNTT(a)) == [x % q for x in a]` for a power-of-two length, twiddle tables inverse at 1 .. n-1 and n invertible; `NotInvertible` when n is not invertible |
| Polynomial.EvalConcat | usage.py:9-30 | the value of a + b at w is a(w) + w^len(a) b(w) |
| Polynomial.EvalCong | usage.py:9-30 | coefficients congruent modulo q give congruent values |
| Polynomial.EvalAdd | usage.py:9-30 | evaluation is additive |
| Polynomial.EvalTimes | usage.py:9-30 | evaluation commutes with scaling |
| Polynomial.RotateStep | usage.py:9-30 | multiplying by x once more modulo x^n + 1 moves the top coefficient, negated, to the bottom |
| Polynomial.EvalRotate | usage.py:9-30 | when w^n = -1 modulo q, the value of x^i b(x) mod x^n + 1 at w is w^i b(w) |
| Polynomial.PartialStep | usage.py:9-30 | the negacyclic sum over the first i + 1 terms adds a[i] x^i b(x) mod x^n + 1 |
| Polynomial.EvalPartial | usage.py:9-30 | the first i contributions evaluate to (a[0] + ... + a[i-1] w^(i-1)) b(w) modulo q |
| Polynomial.NegacyclicEval | usage.py:9-30 | at a w with w^n = -1 modulo q, the product modulo x^n + 1 evaluates to a(w) b(w) |
| Evaluation.HalfBlock | ntt.py:117-121 | a butterfly block with twiddle sigma, at a point w with w^t = sigma, keeps the value: nb(w) = (lo + hi)(w) |
| Evaluation.SquareStep | ntt.py:113-116 | from w^t = +-s and s^2 = z one gets w^2t = z |
| Evaluation.GroupHalves | ntt.py:117-121 | the two halves a group writes are lo + hi s and lo - hi s, entry by entry |
| Evaluation.GroupValue | ntt.py:113-121 | each half of a group, at a point w with w^t = +-s, has the value of the group's input block |
| Evaluation.BlockStep | ntt.py:113-121 | the same for block i of any stage with twiddle table[h + i] |
| Evaluation.FwdBlockStep | ntt.py:111-122 | one stage down: block b of the M-group output has the value of block b / 2 of the M / 2-group output |
| Evaluation.FwdBlocks | ntt.py:107-123 | block b of the forward stages' output, at a point w with w^T = node M + b, has the value a(w) |
| Evaluation.FnttEval | ntt.py:107-123 | entry k of `speedup_FNTT(a)` is a evaluated at the root `Root(S, n, k)` read off the table, modulo q |
| Evaluation.NodeSquare | ntt.py:116 | the square of node M + b of the table tree is node M / 2 + b / 2 |
| Evaluation.NodePower | ntt.py:116 | node M + b raised to the M is -1 modulo q |
| Evaluation.PowOfSquare | ntt.py:116 | x^2 = z gives x^2h = z^h |
| Evaluation.RootPower | ntt.py:107-123 | every evaluation point of the forward transform is a root of x^n + 1 modulo q |
| Tables.PowerTableRecurrence | usage.py:14-18 | the table starts at 1 and each entry is the previous one times psi, reduced |
| Tables.TableStep | usage.py:17-18 | (psi^(i-1) mod q) psi mod q is psi^i mod q |
| Tables.BuildTables | usage.py:14-18 | the loop fills both tables in place: entry 0 is 1 and entry i is psi^i mod q (resp. psi_inv^i mod q), length n |
| Tables.RevTablePlacement | usage.py:21-22 | after reordering, psi^i mod q (1 for i = 0) sits at position Rev(i) |
| Tables.RevTableAt | usage.py:21-22 | entry k of the reordered table is entry Rev(k) of the table |
| Tables.RevTableEntry | usage.py:21-22 | entry k of the reordered table is psi^Rev(k) modulo q |
| Tables.SquareOfPower | usage.py:16-22 | the square of psi^e is psi^2e modulo q |
| Tables.ParentExponent | usage.py:21-22 | exponents in the reordered table double from child k to parent k / 2, plus n for the odd child |
| Tables.RootExponent | usage.py:21-22 | entry 1 of the reordered table is psi^(n/2) |
| Tables.RootNode | usage.py:21-22 | entry 1 squares to -1 when psi^n = -1 |
| Tables.EvenNode | usage.py:21-22 | an even entry 2x squares to entry x |
| Tables.OddNode | usage.py:21-22 | an odd entry 2x + 1 squares to minus entry x |
| Tables.RevTableIsPowers | usage.py:21-22 | all entries 1 .. n-1 of the reordered table are psi to their bit reversal |
| Tables.ChildOfTable | usage.py:21-22 | entry k >= 2 squares to plus or minus entry k / 2, minus for odd k |
| Tables.NodeOfTable | usage.py:21-22 | entry k squares to the value of node k of the tree |
| Tables.TableIsTree | usage.py:14-22 | with psi^n = -1 modulo q, the reordered psi table is the tree of square roots the forward transform needs |
| Tables.EntriesInverse | usage.py:14-22 | entry k of the two reordered tables are inverse modulo q |
| Tables.TablesInverse | usage.py:14-22 | psi psi_inv = 1 modulo q makes the two reordered tables inverse at 1 .. n-1 |
| Tables.InverseExists | usage.py:7 | a witness x with a x = 1 modulo q makes `pow(a, -1, q)` succeed |
| Tables.RootInvertible | usage.py:6-7 | a root of x^n + 1 modulo q is invertible, so `pow(psi, -1, q)` succeeds |
| ModArith.ModInverse | ntt.py:165 | `pow(a, -1, q)`: when found, it is in [0, q) and a v = 1 modulo q; when none, no x in [0, q) has a x = 1 modulo q |
| ModArith.ModPow | ntt.py:79-80 | `pow(b, e, q)` lies in [0, q) |
| Usage.Pointwise | usage.py:28 | `[(x*y) % q for x,y in zip(A,B)]` has the length of its inputs and entries in [0, q) |
| Usage.ProductAt | usage.py:25-28 | entry k of the pointwise product of the transforms is entry k of the transform of the negacyclic product, modulo q |
| Usage.ProductOfTransforms | usage.py:25-28 | the pointwise product of the forward transforms is the forward transform of a(x) b(x) mod x^n + 1, modulo q |
| Usage.NttMultiplies | usage.py:25-30 | the inverse transform of that pointwise product is a(x) b(x) mod x^n + 1, reduced modulo q, for any power-of-two n and suitable tables; `NotInvertible` when n has no inverse |
| Usage.TablesRoundTrip | usage.py:14-30 | with the tables `usage.py` builds, the inverse transform of the forward transform of a is a mod q |
| Usage.TablesMultiply | usage.py:14-30 | with those tables and psi^n = -1, the pipeline computes a(x) b(x) mod x^n + 1, reduced modulo q |
| Usage.ExampleProduct | usage.py:10-11 | (1 + 2x + ... + 8x^7)^2 mod x^8 + 1 is -146 - 160x - 160x^2 - 144x^3 - 110x^4 - 56x^5 + 20x^6 + 120x^7 |
| Usage.ExampleResidues | usage.py:4-11 | the same modulo 17 is [7, 10, 10, 9, 9, 12, 3, 1] |
| Usage.LengthInvertible | usage.py:4-5 | n = 8 is invertible modulo q = 17, so `pow(n, -1, q)` in `speedup_INTT` (ntt.py:165) succeeds |
| Usage.ExampleTables | usage.py:14-22 | the tables built from a root psi of x^8 + 1 modulo 17 have the shape the transforms need |
| Usage.ExampleOutcome | usage.py:25-30 | on the script's inputs the pipeline gives [7, 10, 10, 9, 9, 12, 3, 1] |
| Usage.Example | usage.py:4-30 | the script: when `get_prim_root(8, 17)` finds a root, C is [7, 10, 10, 9, 9, 12, 3, 1]; otherwise the search's error (`RootNotFound` or `EntropyExhausted`) comes back; the entropy left over is the search's |
| BitOps.Or | ntt.py:39 | Python `\|` on naturals, bit by bit |
| BitOps.And | ntt.py:42 | Python `&` on naturals, bit by bit |
| BitOps.ShiftRight | ntt.py:39 | Python `>>`: floor division by 2 once per shifted bit |
| SecureRandom.FromLittleEndian | ntt.py:42 | `int.from_bytes(bs, byteorder="little")`: byte 0 is the least significant |
| SecureRandom.ByteWidth | ntt.py:36 | `numSize = (i_range.bit_length() + 7) // 8` |
| SecureRandom.AsWrittenRounds | ntt.py:37 | `iter = int(math.log(numSize*8, 2))`, the floor of log2(8 * numSize) |
| SecureRandom.MaskAfter | ntt.py:38-39 | `mask` after k turns of `mask \|= mask >> pow(2, i)` |
| SecureRandom.AsWrittenMask | ntt.py:35-39 | the mask after the source's `iter` rounds |
| SecureRandom.Mask | ntt.py:35-39 | the intended mask: all ones below the bit length of the range |
| SecureRandom.Draw | ntt.py:40-43 | the `while True` loop: take `numSize` bytes, mask them, accept the first value <= range; `EntropyExhausted` when the stream runs out |
| SecureRandom.NextInt | ntt.py:31-45 | what `secure_next_int` returns: min when min == max, the exception of ntt.py:32 as `InvalidRange`, otherwise min plus the draw with the source's mask |
| SecureRandom.CorrectedNextInt | ntt.py:31-45 | the same sampler with the saturated mask `Mask`, as the rounds are evidently meant to build |
| PrimRoot.Passes | ntt.py:79-80 | the test `pow(pow(x, r, q), n, q) == q - 1` on a drawn x |
| PrimRoot.Search | ntt.py:77-82 | the `for _ in range(tries)` loop: draw from [2, q-1], return the first candidate that passes, stop at the first failed draw, `RootNotFound` after the last try |
| BitReverse.NumBits | ntt.py:190 | `num_bits = len(bin(len(a) - 1)) - 2`, with `bin` of -1 for the empty list |
| BitReverse.RevIndex | ntt.py:193 | `int(bin(i)[2:].zfill(num_bits)[::-1], 2)` on strings |
| BitReverse.BitReversed | ntt.py:190-195 | what `bit_reverse_order` returns: a[i] at position rev_index(i), or `IndexOutOfRange` when some rev_index is past the end |
| NttSpec.CtStage | ntt.py:113-121 | one turn of `while m < n`: m groups of t Cooley-Tukey butterflies, twiddle table[m + i] for group i |
| NttSpec.GsStage | ntt.py:154-162 | one turn of `while m > 1`: h groups of t Gentleman-Sande butterflies, twiddle table[h + i] for group i |
| NttSpec.Fwd | ntt.py:110-122 | the list after the forward stages for 1, 2, ..., m/2 groups |
| NttSpec.TableCovers | ntt.py:116 | the table has an entry at every index m + i the forward loop reads |
| NttSpec.Fntt | ntt.py:107-123 | what `speedup_FNTT` returns: the forward stages up to the value where `while m < n` stops |
| NttSpec.InvFrom | ntt.py:151-164 | the list after the inverse stages still to run from m with half-size t |
| NttSpec.InvTableCovers | ntt.py:156 | the table has an entry at every index h + i the inverse loop reads, the largest being 2 (n / 2) - 1 |
| NttSpec.Scale | ntt.py:166-167 | `A[j] = (A[j] * n_inv) % q` for every j |
| NttSpec.Intt | ntt.py:147-168 | what `speedup_INTT` returns or raises: `IndexError` first, then the failure of `pow(n, -1, q)`, else the inverse stages scaled by n^-1 |
| NttSpec.FwdReads | ntt.py:113-116 | the twiddle indices the forward loop reads, in order |
| NttSpec.InvReads | ntt.py:154-156 | the twiddle indices the inverse loop reads, in order |
| Tables.PowerTable | usage.py:14-18 | `psi_table` after the loop: 1 at entry 0, psi^i mod q at entry i |
| Tables.RevPowerTable | usage.py:21-22 | that table after `bit_reverse_order` |
| Usage.ValidParams | usage.py:4-7 | the parameters the pipeline works for: a power-of-two n, q > 1, and n invertible modulo q |
| SecureRandom.NextIntIsOffsetDraw | ntt.py:33-44 | for min < max the result is the rejection draw over [0, max - min] with the source's mask, shifted by min |
| SecureRandom.CorrectedIsOffsetDraw | ntt.py:33-44 | the same for the corrected sampler, with the saturated mask |
| SecureRandom.MaskIsAllOnes | ntt.py:38-39 | with 2^k >= L rounds every bit below the bit length L is set and none above, so the mask is 2^L - 1 |
| SecureRandom.AsWrittenMaskSaturated | ntt.py:37-39 | when the source's round count reaches the bit length, its mask is the saturated one |
| PrimRoot.SearchStep | ntt.py:77-81 | one attempt: a failed draw ends the search, a passing candidate is returned, otherwise the search goes on with one try fewer |
| NttSpec.FwdStep | ntt.py:111-122 | one more turn of the forward loop applies the stage with m groups of half-size n / 2m and adds the twiddle reads m .. 2m - 1 |
| NttSpec.InvStep | ntt.py:151-164 | one more turn of the inverse loop applies the stage with m / 2 groups of half-size t and doubles t |
| NttSpec.CtTail | ntt.py:113-121 | entries past 2mt are left alone |
| NttSpec.GsTail | ntt.py:154-161 | entries past 2ht are left alone |
| Ntt.StagedAll | ntt.py:113-121 | once every position of a stage is done, the list is that stage's output |
| TransformFacts.RangeConcat | ntt.py:111-122 | consecutive index ranges join |
| TransformFacts.StageKeepsReduced | ntt.py:117-121 | a stage keeps reduced the entries it leaves alone and reduces those it writes |
| TransformFacts.OddTailUntouched | ntt.py:113-115 | for odd n every stage ends at an even position, at most n - 1 |
| TransformFacts.HalveBlocks | ntt.py:163-164 | m blocks of size t are m / 2 blocks of size 2t |
| NttSpec.GroupSpan | ntt.py:162 | group i starts at 2it (j_1 in both loops); the next starts 2t further on; all m groups fit in 2mt |

## Left out

- `os.urandom` (ntt.py:42) is replaced by a byte stream passed in. Running out of it gives `EntropyExhausted`, an error the source does not have. The source's `while True` retries without bound; here each draw consumes bytes, so the loop ends.
- The uniformity of `secure_next_int` is statistical and is not stated. `EveryValueReachable` states only that no value of the range is out of reach.
- `math.log(numSize*8, 2)` (ntt.py:37) is a floating-point call. `AsWrittenRounds` replaces it by the exact floor log2 `FloorLog2`; a rounding error of the floating-point logarithm is not modelled.
- The branch `if i_range == 0: return min` (ntt.py:34) cannot be reached after the `min == max` test, so it is not modelled separately.
- Primality of q is never checked by the source and is not modelled. The theorems instead take the algebraic facts they need as preconditions: twiddle tables inverse to each other, psi^n = -1, and n invertible modulo q.
- Whether the search finds a root depends on the entropy. `Example` therefore states its result only for the case where the search succeeds.
- The transforms require q >= 1. With q = 0, `speedup_FNTT` raises `ZeroDivisionError` at ntt.py:120 when n >= 2 (after the table reads of ntt.py:116) and returns its copy unchanged when n <= 1, since `while m < n` never runs. With q = 0, `speedup_INTT` raises `ZeroDivisionError` at ntt.py:160 when n >= 2 and `ValueError` at `pow(n, -1, q)` (ntt.py:165) when n <= 1. With q < 0 Python's `%` gives remainders in (q, 0]. None of these cases is modelled.
- Lengths that are not a power of two are modelled as the source runs them, including the `IndexError` of a table that is too short (`IndexOutOfRange`). The round trip and multiplication theorems are stated for power-of-two lengths only.
- TransformFacts.FnttShape: claims entries in [0, q) only for a power-of-two n >= 2. `FnttReduced` covers every other length: for even n >= 2 every entry is reduced, and for odd n only position n - 1 is never written and keeps its input (`OddLengthTail` shows this for n = 5). For n = 1 the input comes back unreduced, as in the source.
- PrimRoot.Exponent: a given `r` is taken as a natural number. For a negative r Python's `pow(uri, r, q)` computes a modular inverse or raises `ValueError`; that case is not modelled. The docstring describes r as a factor of q - 1.
- PrimRoot.GetPrimRoot: requires n >= 1. With n = 0 the source raises `ZeroDivisionError` in the default `r` (ntt.py:75); negative n is not modelled either.
- The docstring examples with random outputs (ntt.py:28-29, ntt.py:70-71) are not contracts. The second one calls a misspelled `get_prim_roots`.
- The `bit_reverse_order` docstring example (ntt.py:186-188) passes 7 elements and shows 8. It is inconsistent and is not modelled. For lengths that are not a power of two, `rev_index` can run past the end and the source raises `IndexError`; that case is modelled as `IndexOutOfRange`.
- `print(C)` (usage.py:31) is output only and is omitted.
- The lists the transforms copy (ntt.py:109, ntt.py:148) are Dafny sequences, which are values. The caller's list can therefore never be changed, and aliasing is not modelled.
- `pow(psi, -1, q)` raises when psi has no inverse. `Example` instead proves that the inverse exists (`RootInvertible`) and then uses it.
- The group loops of each stage are separate methods (`ForwardGroup`, `InverseGroup`, `ForwardStage`, `InverseStage`), called from the stage loops. The source nests them in one function. In the same way the rejection loop of `secure_next_int` is the separate method `DrawLoop`.

## Findings

| source | as written | input that shows it | evidently intended | confidence | as-written member | corrected member |
|---|---|---|---|---|---|---|
| ntt.py:36-39 | `iter = int(math.log(numSize*8, 2))` shift rounds, i.e. floor(log2(8 * numSize)); the doubling shifts 1, 2, 4, 8 fill only 16 bits below the top bit | `secure_next_int(0, 2**23)`: range 2^23 takes 3 bytes, 4 rounds, mask 0xFFFF00, so every draw has its low byte clear and 1 is never returned | a mask with every bit below the top bit set, i.e. ceil(log2(8 * numSize)) rounds, so that every value of the range can be drawn | not executed | SecureRandom.AsWrittenMaskMissesLowBits, SecureRandom.AsWrittenNeverDrawsOne | SecureRandom.CorrectedNextInt, SecureRandom.RoundsSaturate, SecureRandom.EveryValueReachable |
