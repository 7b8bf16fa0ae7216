# Verified model of an ElGamal toolkit, a hand-written SHA-1 and three FIPS 140-1 RNG tests

This project models three small, independent components of a cryptography
coursework repository and proves properties of them in Dafny.

- **ElGamal toolkit** (`elgamal.dfy`, with `number_theory.dfy` and `bytes.dfy`).
  It covers the following:
  - the iterative extended Euclidean algorithm and the modular inverse built on it;
  - the quadratic-residue generator test and the primitive-root search;
  - key generation;
  - the toolkit's own signature scheme, signing and verification;
  - ElGamal encryption and decryption over Z_p.

  Python's floor division and modulo are modelled explicitly (`FloorDiv`,
  `FloorMod`), so that `extended_gcd` is modelled exactly for negative
  arguments too. The
  retry loops consume caller-supplied sequences of draws in place of
  `random.randint`. The message digest is a caller-supplied function `H`.
- **SHA-1** (`sha1.dfy`). It covers the byte-by-byte padding loop, the
  message schedule, the 80 rounds, the chunk loop and the final packing.
  - Registers are `bv32`, so every `& 0xFFFFFFFF` is `bv32` wrap-around.
  - Each loop is a method proved equal to a specification function
    (`Padded`, `Schedule`, `Rounds`, `Compress`, `ProcessBlocks`, `Digest`).
  - The properties of those functions are proved against FIPS 180-4: the
    padding layout, the schedule recurrence, the round functions and
    constants, and the packing.
- **RNG tests** (`rng_tests.dfy`). These are the monobit test, the long-run
  test and the runs test of section 4.11.1 of FIPS PUB 140-1, as the C++ code
  implements them.
  - The monobit bounds are inclusive, [9654, 10346].
  - The long-run limit is 36.
  - The runs test keeps two 7-slot histograms, and it never fills slot 5, so
    it can never pass. This is proved (`SeriesLengthNeverPasses`).

Where the ElGamal code does not do what its own surroundings expect, the
model follows the code, and "Findings" records the difference:

- **The nonce inverse.** Textbook ElGamal signing uses the inverse of `k`
  modulo `p - 1`, and the verification equation of `verify_signature`
  (task_09/elgamal_signature_encryption.py:77-85) only works for that choice.
  The code (task_09/elgamal_signature_encryption.py:38) instead uses the
  third value returned by `extended_gcd(k, p - 1)`, which is the Bézout
  coefficient of `p - 1`, and then publishes the inverse of the result.
- **Verification raising.** When `s` has no inverse modulo `p - 1`,
  `mod_inverse` returns `None` and `h * None` raises `TypeError`
  (task_09/elgamal_signature_encryption.py:78-79). The `except ValueError`
  at :82, whose comment says "Handle exceptions gracefully", does not catch
  it. The model returns `Err(NoInverseTypeError)`.
- **Sign then verify.** The demo (task_09/elgamal_signature_encryption.py:121-122,130)
  signs a message, verifies it and prints "Signature Verified:", so it
  expects `True`. `ElGamal.SignatureNotVerified` exhibits a key, digest and
  nonce for which verification rejects what signing produced.

## Model

| member | source | states |
|---|---|---|
| ElGamal.FloorMod | task_09/elgamal_signature_encryption.py:56 | Python's `b % a`: `n == d * (n // d) + r`, with `0 <= r < d` for a positive divisor and `d < r <= 0` for a negative one |
| ElGamal.EuclidLoopBezout | task_09/elgamal_signature_encryption.py:54-58 | the loop keeps `x*a0 + y*b0 == b` and `u*a0 + v*b0 == a`, so its result `(g, x, y)` satisfies `a0*x + b0*y == g` |
| ElGamal.EuclidCorrect | task_09/elgamal_signature_encryption.py:53-60 | `extended_gcd(a, b)` returns a Bézout identity; its gcd is `gcd(a, b)` when `a, b >= 0` and negative when `a < 0`; `extended_gcd(0, b) == (b, 0, 1)` |
| ElGamal.ExtendedGcd | task_09/elgamal_signature_encryption.py:53-60 | the six-variable loop returns the triple of the recursive specification `Euclid`, with `a0*x + b0*y == g`, `g == gcd(a0, b0)` for non-negative arguments and `g < 0` for a negative `a0` |
| ElGamal.ModInverse | task_09/elgamal_signature_encryption.py:62-66 | for `a >= 0`, returns `None` exactly when `gcd(a, m) != 1`, and otherwise the unique `t` with `0 <= t < m` and `a*t % m == 1 % m`; for `a < 0` it always returns `None`, since the gcd it sees is negative |
| NumberTheory.InverseUnique | task_09/elgamal_signature_encryption.py:62-66 | an inverse of `a` modulo `m` in `[0, m)` is unique |
| NumberTheory.InverseInvolution | task_09/elgamal_signature_encryption.py:62-66 | for `gcd(a, m) == 1`, the inverse is coprime to `m`, and inverting it again gives `a % m` |
| ElGamal.IsQuadraticResidue | task_09/elgamal_signature_encryption.py:12-14 | Euler's test `n^((p-1)/2) mod p == 1`; for odd `p` a multiple of `p` never passes it |
| ElGamal.SquareIsResidue | task_09/elgamal_signature_encryption.py:12-14 | one direction of Euler's criterion: modulo an odd prime `p`, the square of any number `p` does not divide passes `is_quadratic_residue` |
| ElGamal.FindPrimitiveRoot | task_09/elgamal_signature_encryption.py:16-24 | `NotPrime` for a non-prime `p`; the `randint` range error for `p = 2, 3`; otherwise returns the first draw that fails the residue test, so it lies in `[2, p-2]` and `pow(c, (p-1)/2, p) != 1`; the draws run out only when all of them are residues |
| ElGamal.GenerateKeys | task_09/elgamal_signature_encryption.py:26-33 | the `randint` range error for `p < 2`; otherwise returns the first draw `a` with `gcd(a, p-1) == 1`, so `1 <= a <= p-1`, and `b == pow(g, a, p)`; the draws run out exactly when none is coprime to `p - 1` |
| ElGamal.PrivateKeyBelowPMinusOne | task_09/elgamal_signature_encryption.py:28 | for `p > 2` such a private key is at most `p - 2`, as the comment claims |
| ElGamal.SignWithShape | task_09/elgamal_signature_encryption.py:37-48 | an accepted nonce `k` is coprime to `p - 1`; its signature has `r == pow(g, k, p)` and `0 < s < p - 1` |
| ElGamal.SignMessage | task_09/elgamal_signature_encryption.py:35-51 | the `randint` range error for `p < 3`; otherwise returns the signature of the first nonce whose gcd is 1, whose third Bézout coefficient is positive and whose `s` candidate is invertible modulo `p - 1`; the nonces run out exactly when none qualifies; `0 <= r < p` and `0 < s < p - 1` |
| ElGamal.VerifySignature | task_09/elgamal_signature_encryption.py:68-88 | `False` outside `0 < r < p`, `0 < s < p - 1`, or when `s == 1`; a `TypeError` error when `s` is not invertible modulo `p - 1`; otherwise `True` exactly when `g^u1 * b^u2 mod p == r`; wherever it returns, it agrees with `FailClosedVerify`, and `FailClosedVerify` is `False` wherever it raises |
| ElGamal.VerificationDualForm | task_09/elgamal_signature_encryption.py:77-85 | with `b == g^a mod p`, the verification equation holds exactly when `g^(u1 + a*u2) mod p == r` |
| ElGamal.SignatureNotVerified | task_09/elgamal_signature_encryption.py:35-88 | with `p = 7`, `g = 3`, `a = 5`, `h = 4` and nonce 5, signing yields `(5, 5)` and verification rejects it |
| ElGamal.EvenSHasNoInverse | task_09/elgamal_signature_encryption.py:78-79 | for an odd `p`, every even `s` with `1 < s < p - 1` has no inverse modulo `p - 1`, so `verify_signature` raises on it |
| ElGamal.FailClosedVerify | task_09/elgamal_signature_encryption.py:68-88 | the intended verifier: accepts exactly a well-shaped signature with `s` invertible modulo `p - 1` that satisfies the verification equation, and returns `False` instead of raising otherwise; the last two `ensures` of `ElGamal.VerifySignature` prove that it gives the same answer wherever `verify_signature` returns, and `False` wherever it raises |
| ElGamal.SignatureExponent | task_09/elgamal_signature_encryption.py:77-81 | for `s = k^-1 * (h + a*r) mod (p-1)` and `w = s^-1`, the exponent `u1 + a*u2` is `k` modulo `p - 1` |
| NumberTheory.FermatLittle | task_09/elgamal_signature_encryption.py:81 | `g^(p-1) mod p == 1` for a prime `p` that does not divide `g` |
| NumberTheory.ExponentModPMinusOne | task_09/elgamal_signature_encryption.py:81 | modulo a prime `p` that does not divide `g`, `pow(g, e, p)` depends only on `e mod (p - 1)` |
| ElGamal.IntendedSignatureVerifies | task_09/elgamal_signature_encryption.py:35-88 | for a prime `p`, `g % p != 0` and `b == g^a mod p`, the intended signature for an accepted nonce passes every check of `verify_signature` and satisfies its equation |
| ElGamal.Encode | task_09/elgamal_signature_encryption.py:94-99 | a string's big-endian byte value, or the integer, reduced into `[0, p)` |
| ElGamal.Encrypt | task_09/elgamal_signature_encryption.py:90-102 | `ValueError` exactly for a message that is neither a string nor an integer; otherwise `x == pow(g, k, p)` and `0 <= y < p` |
| ElGamal.Decrypt | task_09/elgamal_signature_encryption.py:104-108 | for a prime `p`, raises exactly when `x^a mod p == 0`; otherwise the result `m` lies in `[0, p)` and `m * x^a == y (mod p)` |
| ElGamal.UnitsModPrime | task_09/elgamal_signature_encryption.py:107 | modulo a prime, `pow(s, -1, p)` exists exactly for `s != 0` |
| ElGamal.EncryptDecryptRoundTrip | task_09/elgamal_signature_encryption.py:90-108 | for a prime `p`, `g % p != 0` and `b == g^a mod p`, decrypting the encryption of a string or integer gives back its value modulo `p` |
| Bytes.ValueOfBytes | task_05/my_Algorithm_SHA1.py:14 | the `n`-byte big-endian encoding of a value below `256^n` decodes back to it |
| Bytes.BytesOfValue | task_05/my_Algorithm_SHA1.py:27 | re-encoding the big-endian value of a byte string gives back the byte string |
| Sha1.LeftRotateIsRotation | task_05/my_Algorithm_SHA1.py:6-7 | `left_rotate` by 1, 5 and 30 is the 32-bit cyclic left rotation |
| Sha1.ZeroCount | task_05/my_Algorithm_SHA1.py:12-13 | the number of zero bytes is the least that makes `len + 9 + z` a multiple of 64 |
| Sha1.PaddedShape | task_05/my_Algorithm_SHA1.py:9-15 | the padded message has a length that is a multiple of 64, the least one that is at least `len + 9`; it starts with the message and 0x80, then zero bytes, and its last 8 bytes are the big-endian `8 * len` |
| Sha1.Sha1Padding | task_05/my_Algorithm_SHA1.py:9-15 | the byte-by-byte loop produces exactly `Padded(message)` |
| Sha1.WordOfBytes | task_05/my_Algorithm_SHA1.py:27 | `struct.unpack('>I')` inverts the 4-byte big-endian encoding of a word |
| Sha1.ScheduleWords | task_05/my_Algorithm_SHA1.py:27-29 | the schedule starts with the 16 unpacked words, and every word from 16 on is the rotate-by-one of the xor of the words 3, 8, 14 and 16 back |
| Sha1.ScheduleChunk | task_05/my_Algorithm_SHA1.py:27-29 | the append loop produces 80 words, the schedule `Schedule(Unpack(chunk), 80)` |
| Sha1.RoundFunctionIsFips | task_05/my_Algorithm_SHA1.py:33-45 | the `|` forms of Ch and Maj and the four constants agree with `f_t` and `K_t` of FIPS 180-4 for every round |
| Sha1.RunRounds | task_05/my_Algorithm_SHA1.py:31-48 | the 80-round loop leaves `a..e` equal to `Rounds(h, words, 80)` |
| Sha1.CompressChunk | task_05/my_Algorithm_SHA1.py:26-54 | one chunk turns `h0..h4` into `Compress(h, chunk)`: schedule, rounds, and word-wise sums modulo 2^32 |
| Sha1.HashBlocks | task_05/my_Algorithm_SHA1.py:19-54 | the chunk loop, started from H(0), leaves `h0..h4` equal to `ProcessBlocks(H(0), padded, blocks)` |
| Sha1.PackDecodes | task_05/my_Algorithm_SHA1.py:56 | the packed digest is 20 bytes, and its five 4-byte slices read back as `h0..h4` |
| Sha1.Sha1 | task_05/my_Algorithm_SHA1.py:17-56 | `sha1(message)` is `Digest(message)`, which is 20 bytes |
| RngTests.CountsPartition | task_04/TEST_KEYS.cpp:14-17 | `onesCount + zerosCount == |sequence|` |
| RngTests.MonobitTest | task_04/TEST_KEYS.cpp:9-30 | passes exactly when the count of 1s and the count of other values both lie in [9654, 10346] |
| RngTests.MonobitLength | task_04/TEST_KEYS.cpp:20-29 | a passing sequence has between 19308 and 20692 elements |
| RngTests.LongestRunBlock | task_04/TEST_KEYS.cpp:38-49 | the longest run of a class is at least `n` exactly when the sequence holds a block of `n` elements of that class |
| RngTests.MaxSeriesLengthTest | task_04/TEST_KEYS.cpp:32-58 | with the loop invariant `current <= max <= i` and one current counter 0, passes exactly when neither longest run exceeds 36 |
| RngTests.MaxSeriesPassesIff | task_04/TEST_KEYS.cpp:52-55 | the test passes exactly when there is no block of 37 zeros and no block of 37 non-zero values |
| RngTests.FlattenRuns | task_04/TEST_KEYS.cpp:107-133 | the runs the loop cuts spell out the sequence |
| RngTests.RunsSeparated | task_04/TEST_KEYS.cpp:107-122 | neighbouring runs have different values, so every run is maximal |
| RngTests.RunCount | task_04/TEST_KEYS.cpp:107-133 | there is one run more than there are positions `i >= 1` with `sequence[i] != sequence[i-1]` |
| RngTests.TallyTotal | task_04/TEST_KEYS.cpp:111-132 | every run is counted once, in one of the two histograms |
| RngTests.RunsRecorded | task_04/TEST_KEYS.cpp:107-133 | the counts in both histograms total 1 plus the number of value changes |
| RngTests.SlotFiveEmpty | task_04/TEST_KEYS.cpp:111-132 | slot 5 of either histogram is never incremented |
| RngTests.SeriesLengthNeverPasses | task_04/TEST_KEYS.cpp:136-148 | slot 5 is 0 and its lower bound is 90, so the runs test fails for every non-empty sequence |
| RngTests.RecordRun | task_04/TEST_KEYS.cpp:111-118 | filing a run adds exactly its slot, in the histogram of its class |
| RngTests.TallyRuns | task_04/TEST_KEYS.cpp:100-133 | the counting loop leaves the two histograms of the sequence's runs, for non-zero values and for zeros |
| RngTests.CheckBounds | task_04/TEST_KEYS.cpp:141-148 | the bounds loop accepts exactly when every slot of both histograms lies within its bounds |
| RngTests.SeriesLengthTest | task_04/TEST_KEYS.cpp:98-149 | passes exactly when the histograms of the runs lie within the bounds |

## Findings

| source | as written | input that shows it | evidently intended | confidence | as-written member | corrected member |
|---|---|---|---|---|---|---|
| task_09/elgamal_signature_encryption.py:38-48 | `k_inv` is the third value of `extended_gcd(k, p-1)`, the Bézout coefficient of `p - 1`, and the published `s` is the inverse of `k_inv * (h + a*r) mod (p-1)` | `p = 7`, `g = 3`, `a = 5` (`b = 5`), `h = 4`, `k = 5`: signing gives `(5, 5)`; verification computes `3^2 * 5^1 mod 7 == 3`, not `5` | `s = k^-1 * (h + a*r) mod (p-1)` with the true inverse of `k`, kept when `s > 1` and `s` is invertible; then `verify_signature` accepts every signature, as the demo at :121-122,130 expects | not executed; the counterexample is proved, and the fix is the one the verification equation needs | ElGamal.SignatureNotVerified | ElGamal.IntendedSignatureVerifies |
| task_09/elgamal_signature_encryption.py:77-83 | when `s` has no inverse modulo `p - 1`, `mod_inverse` returns `None` and `h * None` raises `TypeError`, which `except ValueError` does not catch | `p = 7`, `r = 1`, `s = 2`: `gcd(2, 6) == 2`; in general every even `s` for an odd `p` (`ElGamal.EvenSHasNoInverse`) | return `False`, as the handler's comment says ("Handle exceptions gracefully") | not executed; high | ElGamal.VerifySignature | ElGamal.FailClosedVerify |

## Left out

- `generate_prime` (task_09/elgamal_signature_encryption.py:6-10) is not modelled. It rests on `sympy.isprime` and operating-system randomness.
- FindPrimitiveRoot: `isprime` is modelled as the exact predicate `Prime`.
- All randomness is out of the model. The draws of `random.randint` are caller-supplied sequences that satisfy the draw ranges. An endless `while True` retry loop becomes a loop over that sequence, and it returns `CandidatesExhausted` when the sequence is used up.
- Encrypt: the nonce `k` is a parameter, required to be in `[1, p - 2]` as `random.randint(1, p - 2)` draws it. So `p >= 3` is required; for `p < 3` that `randint` raises `ValueError`, which this function does not model (unlike `FindPrimitiveRoot`, `GenerateKeys` and `SignMessage`, which return `EmptyDrawRange`).
- `hashlib.sha256(message.encode())` is the caller-supplied function `H`.
- Encode: a string is given by its UTF-8 bytes (`Text`). UTF-8 encoding itself is not modelled.
- ModInverse: requires `m >= 1`, which both call sites guarantee (`p - 1 >= 2` at task_09/elgamal_signature_encryption.py:46 and :78). For `m == 0`, `mod_inverse` returns `None` except for `a == 1`, where `x % 0` raises `ZeroDivisionError`. For `m < 0` it can return a non-positive value (`mod_inverse(2, -3) == -1`). Neither is modelled.
- Decrypt: requires `p >= 2` and `a >= 0`. Python's `pow(x, a, p)` with a negative `a` computes an inverse, which is not modelled.
- IsQuadraticResidue: requires `p >= 2`, which the `isprime` guard at task_09/elgamal_signature_encryption.py:17 guarantees at the only call site. `p = 1` (where the test is always `False`) and `p <= 0` are not modelled.
- SignMessage: no sign-then-verify round trip is stated for it, because the code does not deliver one. `ElGamal.SignatureNotVerified` is a counterexample. The round trip is proved for the corrected signer `IntendedSignWith` (see "Findings"). `SignMessage` itself stays as written.
- LeftRotateIsRotation: rotation is proved only for the three amounts `sha1` uses (1, 5 and 30). The argument of `left_rotate` is a `bv32`, so arguments of 2^32 or more, which `sha1` never passes, are not modelled.
- Sha1: requires `8 * len(message) < 2^64`. Beyond that, `struct.pack('>Q', …)` raises `struct.error`, which is not modelled.
- RunRounds: the inline `if j <= 19 … else` chain is written as the functions `RoundFunction` and `RoundConstant`, which have the same branches and constants.
- The 32-bit `int` counters of the C++ tests are unbounded naturals. Overflow would need more than 2^31 elements.
- SeriesLengthTest: requires a non-empty sequence. On an empty vector, `sequence[0]` is undefined behaviour.
- TallyRuns: the loop bodies that file a run are the helper method `RecordRun`, which has the same branches as the inline code.
- `pokerTest` (task_04/TEST_KEYS.cpp:60-96) is not modelled. Its verdict is a `double` computation compared against 1.03 and 57.4.
- Demo and I/O code is not modelled: `main`, `test_crypto_operations`, printing, console code pages, and the timing and `hashlib` comparison loop of the SHA-1 script.
- task_07 (the elliptic-curve wrappers) is not part of this model. It is a thin wrapper over library code.
