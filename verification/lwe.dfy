/**
 * The LWE bit cryptosystem of `src/lwe.py` (class `LWE`): key generation,
 * encryption and decryption of one bit, and the wrappers that encrypt and
 * decrypt a string of bit characters one character at a time.
 *
 * Every random draw of the source is an explicit argument here: the public
 * matrix `A`, the secret `s` and the noise `e` of key generation, and the
 * three row indices that encryption picks.
 */
module Lwe {
  import opened Arith

  /** The class defaults: dimension 256 and the smallest power of two that is at least 50 * 256. */
  const DefaultN: nat := 256
  const DefaultQ: int := 16384

  /** `2^k`. */
  function Pow2(k: nat): nat
  {
    if k == 0 then 1 else 2 * Pow2(k - 1)
  }

  /** Powers of two grow with the exponent. */
  lemma {:induction false} Pow2Monotone(j: nat, k: nat)
    requires j <= k
    ensures Pow2(j) <= Pow2(k)
    decreases k
  {
    if j < k {
      Pow2Monotone(j, k - 1);
    }
  }

  /**
   * `DefaultQ` is `2^ceil(log2(50 * DefaultN))`: a power of two that is at
   * least `50 * DefaultN`, and no larger than any other such power of two.
   */
  lemma DefaultModulus()
    ensures DefaultQ == Pow2(14) && 50 * DefaultN <= DefaultQ
    ensures forall k: nat :: 50 * DefaultN <= Pow2(k) ==> DefaultQ <= Pow2(k)
  {
    assert Pow2(13) == 8192;
    forall k: nat | 50 * DefaultN <= Pow2(k)
      ensures DefaultQ <= Pow2(k)
    {
      if k <= 13 {
        Pow2Monotone(k, 13);
      } else {
        Pow2Monotone(14, k);
      }
    }
  }

  /** A public key `(A, b)`: `A` is an n-by-n matrix, `b` a vector of n entries. */
  datatype PublicKey = PublicKey(A: seq<seq<int>>, b: seq<int>)

  /** What key generation returns: the public key and the secret vector `s`. */
  datatype KeyPair = KeyPair(pk: PublicKey, sk: seq<int>)

  /** The encryption of one bit: a vector `a` and a scalar `b`. */
  datatype Ciphertext = Ciphertext(a: seq<int>, b: int)

  /** The three row indices that `np.random.choice` draws for one encryption. */
  datatype Rows = Rows(r1: int, r2: int, r3: int)

  /**
   * The `ValueError`s the operations raise: `np.random.choice(n, 3,
   * replace=False)` with fewer than three rows, and `np.dot(a, s)` with a
   * ciphertext vector and a secret of different lengths.
   */
  datatype Error = SampleLargerThanPopulation | ShapeMismatch

  datatype Result<T> = Ok(value: T) | Err(error: Error)

  /** `A` has `n` rows of `n` entries each. */
  predicate IsSquare(A: seq<seq<int>>, n: nat)
  {
    |A| == n && forall i :: 0 <= i < n ==> |A[i]| == n
  }

  /** Every entry of the matrix lies in `[0, q)`. */
  predicate MatrixInRange(A: seq<seq<int>>, q: int)
  {
    forall i :: 0 <= i < |A| ==> InRange(A[i], q)
  }

  /** The shape every public key has: a square matrix and a vector with one entry per row. */
  predicate WellShaped(pk: PublicKey)
  {
    IsSquare(pk.A, |pk.A|) && |pk.b| == |pk.A|
  }

  /**
   * The LWE relation between a public key, a secret and a noise vector:
   * each `b_i` is the representative in `[0, q)` of `A_i . s + e_i`.
   */
  predicate LweRelation(pk: PublicKey, s: seq<int>, e: seq<int>, q: int)
    requires q > 0
  {
    WellShaped(pk) && |s| == |pk.A| && |e| == |pk.A| &&
    InRange(pk.b, q) &&
    forall i :: 0 <= i < |pk.A| ==> RowRelation(pk, s, e, q, i)
  }

  /** Row `i` of the LWE relation: `b_i == A_i . s + e_i` modulo `q`. */
  predicate RowRelation(pk: PublicKey, s: seq<int>, e: seq<int>, q: int, i: int)
    requires q > 0 && WellShaped(pk) && |s| == |pk.A| && |e| == |pk.A| && 0 <= i < |pk.A|
  {
    Congruent(pk.b[i], Dot(pk.A[i], s) + e[i], q)
  }

  /** Three pairwise distinct row indices in `[0, n)`: a draw without replacement. */
  predicate ValidRows(rows: Rows, n: int)
  {
    0 <= rows.r1 < n && 0 <= rows.r2 < n && 0 <= rows.r3 < n &&
    rows.r1 != rows.r2 && rows.r1 != rows.r3 && rows.r2 != rows.r3
  }

  /** The sum of the three noise entries that an encryption with `rows` picks up. */
  function Noise(e: seq<int>, rows: Rows): int
    requires 0 <= rows.r1 < |e| && 0 <= rows.r2 < |e| && 0 <= rows.r3 < |e|
  {
    e[rows.r1] + e[rows.r2] + e[rows.r3]
  }

  /** What a ciphertext of `bit` carries on top of its noise: `q div 2` for a 1-bit, else nothing. */
  function Offset(bit: int, q: int): int
  {
    if bit == 1 then q / 2 else 0
  }

  /**
   * `LWE.keygen(n, q)`: the public key is `(A, (A s + e) mod q)` and the secret
   * key is `s`. `A` and `s` are the uniform draws from `[0, q)`, `e` the
   * integer noise vector.
   */
  function Keygen(n: nat, q: int, A: seq<seq<int>>, s: seq<int>, e: seq<int>): (kp: KeyPair)
    requires q >= 1
    requires IsSquare(A, n) && MatrixInRange(A, q)
    requires |s| == n && InRange(s, q)
    requires |e| == n
    ensures kp.pk.A == A && kp.sk == s
    ensures |kp.pk.b| == n && WellShaped(kp.pk) && MatrixInRange(kp.pk.A, q) && InRange(kp.sk, q)
    ensures LweRelation(kp.pk, kp.sk, e, q)
  {
    var c := seq(n, i requires 0 <= i < n => Dot(A[i], s) + e[i]);
    VecModCongruent(c, q);
    var b := VecMod(c, q);
    KeyPair(PublicKey(A, b), s)
  }

  /** `np.mod(np.sum(A[rows], axis=0), q)`: the chosen rows added up and reduced. */
  function CollapseRows(A: seq<seq<int>>, rows: Rows, q: int): (a: seq<int>)
    requires q >= 1 && IsSquare(A, |A|) && ValidRows(rows, |A|)
    ensures |a| == |A| && InRange(a, q)
    ensures forall j :: 0 <= j < |A| ==> Congruent(a[j], A[rows.r1][j] + A[rows.r2][j] + A[rows.r3][j], q)
  {
    var u := VecAdd(VecAdd(A[rows.r1], A[rows.r2]), A[rows.r3]);
    VecModCongruent(u, q);
    VecMod(u, q)
  }

  /**
   * The ciphertext scalar from the sum of the chosen entries of `b`: reduced
   * modulo `q`, with `q div 2` added (and reduced again) when `bit` is 1.
   */
  function EncodeScalar(sum: int, bit: int, q: int): (b: int)
    requires q >= 1
    ensures 0 <= b < q
    ensures Congruent(b, sum + Offset(bit, q), q)
  {
    var b := sum % q;
    ModOfInRange(b, q);
    if bit == 1 then
      var h := q / 2;
      var r := (b + h) % q;
      ModOfInRange(h, q);
      ModAdd(sum, h, q);
      assert (sum + h) % q == r;
      ModOfInRange(r, q);
      r
    else
      b % q
  }

  /**
   * `LWE.encrypt_bit(pk, bit, q)`: sum the three chosen rows of `A` and the
   * matching entries of `b`, reduce modulo `q`, and add `q div 2` to the scalar
   * when `bit` is 1. Any other bit value is encrypted like 0.
   */
  function EncryptBit(pk: PublicKey, bit: int, q: int, rows: Rows): (r: Result<Ciphertext>)
    requires q >= 1 && WellShaped(pk)
    requires |pk.A| >= 3 ==> ValidRows(rows, |pk.A|)
    ensures r.Err? <==> |pk.A| < 3
    ensures r.Ok? ==> |r.value.a| == |pk.A| && InRange(r.value.a, q) && 0 <= r.value.b < q
    ensures r.Ok? ==> forall j :: 0 <= j < |pk.A| ==>
      Congruent(r.value.a[j], pk.A[rows.r1][j] + pk.A[rows.r2][j] + pk.A[rows.r3][j], q)
    ensures r.Ok? ==>
      Congruent(r.value.b, pk.b[rows.r1] + pk.b[rows.r2] + pk.b[rows.r3] + Offset(bit, q), q)
  {
    if |pk.A| < 3 then Err(SampleLargerThanPopulation)
    else
      var a := CollapseRows(pk.A, rows, q);
      var b := EncodeScalar(pk.b[rows.r1] + pk.b[rows.r2] + pk.b[rows.r3], bit, q);
      Ok(Ciphertext(a, b))
  }

  /**
   * The quantity that `LWE.decrypt_bit` compares with `q div 4`:
   * `|b - (a . s mod q)| mod q`. For a ciphertext scalar in `[0, q)` the
   * absolute difference already lies in `[0, q)`, so the outer reduction does
   * nothing.
   */
  function Distance(s: seq<int>, ct: Ciphertext, q: int): (d: int)
    requires q >= 1 && |ct.a| == |s|
    ensures 0 <= d < q
    ensures 0 <= ct.b < q ==> d == Abs(ct.b - Dot(ct.a, s) % q)
  {
    var m := Dot(ct.a, s) % q;
    if 0 <= ct.b < q then
      ModOfInRange(Abs(ct.b - m), q);
      Abs(ct.b - m) % q
    else
      Abs(ct.b - m) % q
  }

  /**
   * `LWE.decrypt_bit(sk, ct, q)`: 1 when the distance exceeds `q div 4`, else
   * 0. A secret whose length differs from the ciphertext vector makes the
   * inner product fail.
   */
  function DecryptBit(s: seq<int>, ct: Ciphertext, q: int): (r: Result<int>)
    requires q >= 1
    ensures r.Ok? <==> |ct.a| == |s|
    ensures r.Ok? ==> r.value == 0 || r.value == 1
    ensures r.Ok? ==> (r.value == 1 <==> Distance(s, ct, q) > q / 4)
  {
    if |ct.a| != |s| then Err(ShapeMismatch)
    else if Distance(s, ct, q) > q / 4 then Ok(1)
    else Ok(0)
  }

  /** A character `'0'` .. `'9'`, the ones `int(c)` accepts among ASCII. */
  predicate IsDigit(c: char)
  {
    '0' <= c <= '9'
  }

  /** A string over the alphabet `{'0', '1'}`. */
  predicate IsBitString(str: string)
  {
    forall i :: 0 <= i < |str| ==> str[i] == '0' || str[i] == '1'
  }

  /** `int(c)` for an ASCII digit. */
  function DigitValue(c: char): (v: int)
    requires IsDigit(c)
    ensures 0 <= v <= 9
    ensures (v == 0 <==> c == '0') && (v == 1 <==> c == '1')
  {
    c as int - '0' as int
  }

  /** `str(bit)` for a decrypted bit. */
  function BitChar(bit: int): (c: char)
    requires bit == 0 || bit == 1
    ensures (c == '1' <==> bit == 1) && (c == '0' <==> bit == 0)
  {
    if bit == 1 then '1' else '0'
  }

  /**
   * `LWE.encrypt_string(pk, s, q)`: one ciphertext per character, in order,
   * each encrypting `int(c)` with its own row draw. Like the list
   * comprehension, it fails as soon as one encryption fails.
   */
  function EncryptString(pk: PublicKey, str: string, q: int, draws: seq<Rows>): (r: Result<seq<Ciphertext>>)
    requires q >= 1 && WellShaped(pk)
    requires |draws| == |str| && forall i :: 0 <= i < |str| ==> IsDigit(str[i])
    requires |pk.A| >= 3 ==> forall i :: 0 <= i < |draws| ==> ValidRows(draws[i], |pk.A|)
    ensures r.Err? <==> |str| > 0 && |pk.A| < 3
    ensures r.Ok? ==> |r.value| == |str|
    ensures r.Ok? ==> forall i :: 0 <= i < |str| ==>
      EncryptBit(pk, DigitValue(str[i]), q, draws[i]) == Ok(r.value[i])
    decreases |str|
  {
    if |str| == 0 then Ok([])
    else
      match EncryptBit(pk, DigitValue(str[0]), q, draws[0])
      case Err(err) => Err(err)
      case Ok(ct) =>
        match EncryptString(pk, str[1..], q, draws[1..])
        case Err(err) => Err(err)
        case Ok(rest) => Ok([ct] + rest)
  }

  /**
   * `LWE.decrypt_string(sk, ct, q)`: the string of decrypted bits, one
   * character `'0'` or `'1'` per ciphertext, in order. It fails when any
   * ciphertext's decryption fails.
   */
  function DecryptString(s: seq<int>, cts: seq<Ciphertext>, q: int): (r: Result<string>)
    requires q >= 1
    ensures r.Err? <==> exists i :: 0 <= i < |cts| && DecryptBit(s, cts[i], q).Err?
    ensures r.Ok? ==> |r.value| == |cts| && IsBitString(r.value)
    ensures r.Ok? ==> forall i :: 0 <= i < |cts| ==> (r.value[i] == '1' <==> DecryptBit(s, cts[i], q) == Ok(1))
  {
    if forall i :: 0 <= i < |cts| ==> DecryptBit(s, cts[i], q).Ok? then
      Ok(seq(|cts|, i requires 0 <= i < |cts| => BitChar(DecryptBit(s, cts[i], q).value)))
    else
      Err(ShapeMismatch)
  }
}
