# LWE bit cryptosystem, modelled in Dafny

This project models the core of a small Learning-With-Errors (LWE) public-key
cryptosystem in the style of Regev, the class `LWE` in `src/lwe.py`:

- **key generation** builds a public key `(A, b)` with `b = (A s + e) mod q`
  from a uniform matrix `A`, a uniform secret `s` and a small noise vector `e`;
- **bit encryption** picks three distinct rows of `A`, adds them up modulo `q`
  into the vector `a`, adds the matching entries of `b` into the scalar, and
  adds `q div 2` to the scalar for a 1-bit;
- **bit decryption** computes `|b - (a . s mod q)| mod q` and answers 1 when
  that exceeds `q div 4`;
- **string encryption and decryption** apply the bit operations to every
  character of a `'0'/'1'` string, in order.

Every random draw is an explicit argument: `A`, `s` and `e` for key
generation, and the three row indices (`Rows`) for each bit encryption. The
modulus `q` is an integer argument. The defaults are the constants `DefaultN`
(256) and `DefaultQ` (16384, the smallest power of two that is at least
50 * 256).

Files:

- `arith.dfy` (module `Arith`): inner products, element-wise sums and
  reductions of integer vectors, and congruence lemmas modulo `q`.
- `lwe.dfy` (module `Lwe`): the data model and the five operations.
- `lwe_correctness.dfy` (module `LweCorrectness`): the ciphertext invariant
  and the decryption-correctness theorems.

What is proved, in short:

- Keys and ciphertexts have the right shapes, and all their entries lie in `[0, q)`.
- Every ciphertext of a key pair related by noise `e` satisfies
  `b_ct == a . s + E + [bit = 1] * (q div 2) (mod q)`. Here `E` is the sum of
  the three selected noise entries.
- A 1-bit decrypts to 1 whenever `|E| < q div 4`.
- Decryption takes the absolute value of the plain difference `b - m`. It
  does not measure the distance to 0 modulo `q`. So for `|E| <= q div 4`, a
  0-bit decrypts to 0 exactly when `b - m == E`, that is, when the residual
  does not wrap around the modulus. In particular, a 0-bit decrypts to 0 when
  `E == 0`.
- A concrete key pair with the default modulus and one noise entry of -1
  makes an encrypted 0 decrypt to 1. The 0-bit guarantee is therefore
  conditional.
- A `'0'/'1'` string round-trips through string encryption and decryption
  when each character's noise is tolerated. This holds for every string when
  the noise vector is zero and `q >= 4`, which is what the default parameters
  produce in practice.

Two behaviours of the code are modelled as written, rather than as the
intended input checks one might expect:

- Characters other than `'0'` and `'1'` are not rejected by string
  encryption. `int(c)` turns `'2'` to `'9'` into 2 to 9, and `encrypt_bit`
  encrypts every value other than 1 exactly as 0. The model takes any ASCII
  digit and proves the "encrypted as 0" behaviour (`EncryptNonOneAsZero`).
- A dimension below 3 is not rejected up front. It surfaces as the error of
  the three-row draw without replacement: `Err(SampleLargerThanPopulation)`.
  Encrypting the empty string never draws, so it succeeds for any dimension.
- A secret whose length differs from a ciphertext's vector makes the inner
  product `np.dot` raise a `ValueError`. Bit and string decryption return
  `Err(ShapeMismatch)` in that case.

## Model

| member | source | states |
|---|---|---|
| `Lwe.Pow2Monotone` | src/lwe.py:6 | powers of two grow with the exponent |
| `Lwe.DefaultModulus` | src/lwe.py:5-6 | the default modulus 16384 is `2^14`, it is at least `50 * 256`, and every power of two that is at least `50 * 256` is at least 16384 |
| `Lwe.Keygen` | src/lwe.py:8-21 | the public matrix is the n-by-n draw and the secret is the n-entry draw, all in `[0, q)`; `b` has n entries in `[0, q)`, each congruent to `A_i . s + e_i` modulo `q` (the LWE relation) |
| `Lwe.CollapseRows` | src/lwe.py:36-37 | the collapsed vector has n entries in `[0, q)`, entry `j` congruent to the sum of entry `j` of the three chosen rows |
| `Lwe.EncodeScalar` | src/lwe.py:38-43 | the ciphertext scalar lies in `[0, q)` and is congruent to the chosen sum plus `q div 2` exactly when the bit is 1 |
| `Lwe.EncryptBit` | src/lwe.py:23-44 | fails exactly when the key has fewer than three rows; otherwise `a` has n entries in `[0, q)`, each the sum of the chosen rows' entries modulo `q`, and the scalar in `[0, q)` is the chosen entries of `b` plus `[bit = 1] * (q div 2)` modulo `q` |
| `Lwe.Distance` | src/lwe.py:58-60 | the compared quantity lies in `[0, q)`; for a scalar in `[0, q)` it is exactly `abs(b - (a . s mod q))`, so the outer reduction is the identity |
| `Lwe.DecryptBit` | src/lwe.py:46-62 | fails exactly when the secret and the ciphertext vector differ in length; otherwise the result is 0 or 1, and it is 1 exactly when the distance exceeds `q div 4` |
| `Lwe.DigitValue` | src/lwe.py:74 | `int(c)` of an ASCII digit lies in `[0, 9]`; it is 0 exactly for `'0'` and 1 exactly for `'1'` |
| `Lwe.BitChar` | src/lwe.py:85 | `str(bit)` is `'1'` exactly for 1 and `'0'` exactly for 0 |
| `Lwe.EncryptString` | src/lwe.py:65-74 | fails exactly when the string is non-empty and the key has fewer than three rows; otherwise one ciphertext per character, in order, each the bit encryption of that character's digit with its own draw |
| `Lwe.DecryptString` | src/lwe.py:76-85 | fails exactly when some ciphertext fails to decrypt; otherwise one `'0'/'1'` character per ciphertext, in order, `'1'` exactly where the ciphertext decrypts to 1 |
| `LweCorrectness.EncryptNonOneAsZero` | src/lwe.py:40-43 | any bit value other than 1 is encrypted exactly as 0 |
| `LweCorrectness.CollapsedDot` | src/lwe.py:37 | the collapsed vector's product with `s` is congruent to the sum of the three chosen rows' products with `s` |
| `LweCorrectness.ChosenEntries` | src/lwe.py:20 | for a key pair in the LWE relation, the three chosen entries of `b` add up to the chosen rows' products with `s` plus the noise `E`, modulo `q` |
| `LweCorrectness.CiphertextDot` | src/lwe.py:37 | an encryption's vector has n entries and its product with `s` is congruent to the chosen rows' products with `s` |
| `LweCorrectness.CiphertextInvariant` | src/lwe.py:36-41 | for a key pair in the LWE relation, every ciphertext satisfies `b_ct == a . s + E + [bit = 1] * (q div 2)` modulo `q` |
| `LweCorrectness.ResidualOfEncryption` | src/lwe.py:58-60 | the residual `b - m` lies strictly between `-q` and `q`, is congruent to `E + [bit = 1] * (q div 2)`, and its absolute value is the decryption distance |
| `LweCorrectness.OneBitDecrypts` | tests/test_lwe.py:12-13 | an encrypted 1 decrypts to 1 whenever `-(q div 4) < E < q div 4` |
| `LweCorrectness.ZeroBitDecryptsIff` | src/lwe.py:58-62 | for `abs(E) <= q div 4`, an encrypted 0 decrypts to 0 if and only if the residual `b - m` equals `E`, that is, it does not wrap |
| `LweCorrectness.ZeroBitNoiselessDecrypts` | tests/test_lwe.py:14-15 | an encrypted 0 decrypts to 0 when `E == 0` |
| `LweCorrectness.ZeroBitWrapDecryptsAsOne` | src/lwe.py:60-62 | with the default modulus, the all-zero 3-by-3 `A` and all-zero `s` with noise `[-1, 0, 0]` form a valid key pair under which an encrypted 0 (rows 0, 1, 2) decrypts to 1 |
| `LweCorrectness.DecryptsTo` | src/lwe.py:76-85 | ciphertexts that each decrypt to the matching character of a `'0'/'1'` string decrypt to that string |
| `LweCorrectness.StringRoundTrip` | tests/test_lwe.py:21-26 | a `'0'/'1'` string round-trips when every `'1'` has `abs(E) < q div 4` and every `'0'` has `E == 0` |
| `LweCorrectness.NoiselessStringRoundTrip` | src/lwe.py:18 | with a zero noise vector and `q >= 4`, every `'0'/'1'` string round-trips |

## Left out

- Random sampling (`np.random.randint`, `np.random.normal`, `np.random.choice`) is not modelled as a random process. The draws are arguments, and their ranges are preconditions: `A` and `s` in `[0, q)`, three distinct rows in `[0, n)`.
- The Gaussian noise with standard deviation `1/sqrt(n)`, truncated toward zero, is not modelled. `e` is any integer vector, and each theorem states the noise bound it needs.
- The float-typed default modulus (`2**np.ceil(np.log2(...))`) is the integer constant 16384. NumPy computes with floats when `q` is that default. All values stay integral and below `2^53` for the default parameters, so the integer model gives the same numbers.
- `Keygen`, `EncryptBit`, `EncryptString`, `DecryptBit`, `DecryptString`: a modulus `q <= 0` is excluded by a precondition. In the source, `np.random.randint(0, q)` then raises a `ValueError` in key generation, and `np.mod` by zero or a negative modulus gives NumPy's zero-division result or negative remainders; the model does not promise anything for such a modulus.
- NumPy's 64-bit integer overflow is not modelled. Integers are unbounded; for the default parameters every intermediate value fits easily.
- The column shapes `(n, 1)` of `s`, `e` and `b`, and the shape `(1,)` of the ciphertext scalar, are flattened to plain vectors and integers.
- `EncryptString` only takes ASCII digits. Other characters make `int(c)` raise a `ValueError`, or, for non-ASCII Unicode digits, produce a digit value; neither is modelled.
- Statistical claims are not modelled: success probabilities, the 10000-trial test loops, and the security or hardness of LWE.
- `OneBitDecrypts`, `ZeroBitDecryptsIff`, `ZeroBitNoiselessDecrypts`: the tests expect decryption to succeed on every trial, but these lemmas are stated under explicit noise conditions, because `ZeroBitWrapDecryptsAsOne` shows that an unconditional round trip does not hold.
- `StringRoundTrip`: stated under a per-character noise condition, not unconditionally as the string test expects, for the same reason.
- The unit-test harness and its `print` are not modelled.
