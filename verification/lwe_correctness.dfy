/**
 * What the LWE model guarantees about a ciphertext made from a key pair that
 * satisfies the LWE relation: the algebraic invariant tying the ciphertext to
 * the secret and the noise, and when decryption recovers the bit.
 *
 * Decryption compares `|b - m|` with `q div 4`, where `b - m` is a difference
 * of two values in `[0, q)`, not the distance of `b - m` to 0 modulo `q`.
 * A 1-bit therefore decrypts correctly whenever the accumulated noise is
 * below `q div 4` in magnitude, but a 0-bit decrypts correctly exactly when
 * `b - m` equals the noise itself, which holds for zero noise and fails when
 * nonzero noise makes `b - m` wrap around the modulus.
 */
module LweCorrectness {
  import opened Arith
  import opened Lwe

  /** `b - m` of `LWE.decrypt_bit`: the scalar minus `a . s mod q`. */
  function Residual(s: seq<int>, ct: Ciphertext, q: int): int
    requires q >= 1 && |ct.a| == |s|
  {
    ct.b - Dot(ct.a, s) % q
  }

  /** The preconditions of encryption with a key pair related by `e`. */
  predicate Setting(pk: PublicKey, s: seq<int>, e: seq<int>, q: int, rows: Rows)
  {
    q >= 1 && LweRelation(pk, s, e, q) && |pk.A| >= 3 && ValidRows(rows, |pk.A|)
  }

  /** Every bit value other than 1 is encrypted exactly as 0. */
  lemma EncryptNonOneAsZero(pk: PublicKey, bit: int, q: int, rows: Rows)
    requires q >= 1 && WellShaped(pk) && (|pk.A| >= 3 ==> ValidRows(rows, |pk.A|))
    requires bit != 1
    ensures EncryptBit(pk, bit, q, rows) == EncryptBit(pk, 0, q, rows)
  {
  }

  /** The sum of the three chosen rows' products with `s`. */
  function ChosenProducts(pk: PublicKey, s: seq<int>, rows: Rows): int
    requires WellShaped(pk) && |s| == |pk.A| && ValidRows(rows, |pk.A|)
  {
    Dot(pk.A[rows.r1], s) + Dot(pk.A[rows.r2], s) + Dot(pk.A[rows.r3], s)
  }

  /** The collapsed row's inner product with `s` is that of the three chosen rows, modulo `q`. */
  lemma CollapsedDot(A: seq<seq<int>>, s: seq<int>, q: int, rows: Rows)
    requires q >= 1 && IsSquare(A, |A|) && |s| == |A| && ValidRows(rows, |A|)
    ensures Congruent(Dot(CollapseRows(A, rows, q), s), Dot(A[rows.r1], s) + Dot(A[rows.r2], s) + Dot(A[rows.r3], s), q)
  {
    var A1, A2, A3 := A[rows.r1], A[rows.r2], A[rows.r3];
    var u := VecAdd(VecAdd(A1, A2), A3);
    DotVecMod(u, s, q);
    DotVecAdd(VecAdd(A1, A2), A3, s);
    DotVecAdd(A1, A2, s);
  }

  /** The three chosen public entries add up to the chosen rows' products with `s` plus the noise. */
  lemma ChosenEntries(pk: PublicKey, s: seq<int>, e: seq<int>, q: int, rows: Rows)
    requires Setting(pk, s, e, q, rows)
    ensures Congruent(pk.b[rows.r1] + pk.b[rows.r2] + pk.b[rows.r3], ChosenProducts(pk, s, rows) + Noise(e, rows), q)
  {
    var b1, b2, b3 := pk.b[rows.r1], pk.b[rows.r2], pk.b[rows.r3];
    var c1 := Dot(pk.A[rows.r1], s) + e[rows.r1];
    var c2 := Dot(pk.A[rows.r2], s) + e[rows.r2];
    var c3 := Dot(pk.A[rows.r3], s) + e[rows.r3];
    assert RowRelation(pk, s, e, q, rows.r1) && RowRelation(pk, s, e, q, rows.r2) && RowRelation(pk, s, e, q, rows.r3);
    CongruentAdd(b1, c1, b2, c2, q);
    CongruentAdd(b1 + b2, c1 + c2, b3, c3, q);
  }

  /** The ciphertext vector's product with `s` is that of the three chosen rows, modulo `q`. */
  lemma CiphertextDot(pk: PublicKey, s: seq<int>, q: int, bit: int, rows: Rows)
    requires q >= 1 && WellShaped(pk) && |s| == |pk.A| >= 3 && ValidRows(rows, |pk.A|)
    ensures EncryptBit(pk, bit, q, rows).Ok? && |EncryptBit(pk, bit, q, rows).value.a| == |s|
    ensures Congruent(Dot(EncryptBit(pk, bit, q, rows).value.a, s), ChosenProducts(pk, s, rows), q)
  {
    CollapsedDot(pk.A, s, q, rows);
  }

  /**
   * The ciphertext invariant: `b_ct == a . s + E + [bit = 1] * (q div 2)`
   * modulo `q`, where `E` is the sum of the three selected noise entries.
   */
  lemma CiphertextInvariant(pk: PublicKey, s: seq<int>, e: seq<int>, q: int, bit: int, rows: Rows)
    requires Setting(pk, s, e, q, rows)
    ensures EncryptBit(pk, bit, q, rows).Ok?
    ensures var ct := EncryptBit(pk, bit, q, rows).value;
      |ct.a| == |s| && Congruent(ct.b, Dot(ct.a, s) + Noise(e, rows) + Offset(bit, q), q)
  {
    CiphertextDot(pk, s, q, bit, rows);
    ChosenEntries(pk, s, e, q, rows);
    var ct := EncryptBit(pk, bit, q, rows).value;
    CongruentSubstitute(ct.b, pk.b[rows.r1] + pk.b[rows.r2] + pk.b[rows.r3], ChosenProducts(pk, s, rows),
      Dot(ct.a, s), Noise(e, rows), Offset(bit, q), q);
  }

  /**
   * The residual `b - m` that decryption takes the absolute value of lies
   * strictly between `-q` and `q`, is congruent to the noise plus the bit's
   * offset, and its absolute value is the distance decryption compares.
   */
  lemma ResidualOfEncryption(pk: PublicKey, s: seq<int>, e: seq<int>, q: int, bit: int, rows: Rows)
    requires Setting(pk, s, e, q, rows)
    ensures EncryptBit(pk, bit, q, rows).Ok?
    ensures var ct := EncryptBit(pk, bit, q, rows).value;
      var x := Residual(s, ct, q);
      -q < x < q && Congruent(x, Noise(e, rows) + Offset(bit, q), q) &&
      Distance(s, ct, q) == Abs(x)
  {
    CiphertextInvariant(pk, s, e, q, bit, rows);
    var ct := EncryptBit(pk, bit, q, rows).value;
    var D := Dot(ct.a, s);
    var E, H := Noise(e, rows), Offset(bit, q);
    ModOfInRange(D % q, q);
    CongruentNeg(D % q, D, q);
    CongruentAdd(ct.b, D + E + H, -(D % q), -D, q);
    assert D + E + H + -D == E + H;
  }

  /** With accumulated noise below `q div 4` in magnitude, an encrypted 1 decrypts to 1. */
  lemma OneBitDecrypts(pk: PublicKey, s: seq<int>, e: seq<int>, q: int, rows: Rows)
    requires Setting(pk, s, e, q, rows)
    requires -(q / 4) < Noise(e, rows) < q / 4
    ensures EncryptBit(pk, 1, q, rows).Ok?
    ensures DecryptBit(s, EncryptBit(pk, 1, q, rows).value, q) == Ok(1)
  {
    ResidualOfEncryption(pk, s, e, q, 1, rows);
    var ct := EncryptBit(pk, 1, q, rows).value;
    var y := Noise(e, rows) + q / 2;
    SmallCongruent(Residual(s, ct, q), y, q);
  }

  /**
   * With accumulated noise of magnitude at most `q div 4`, an encrypted 0
   * decrypts to 0 exactly when the residual `b - m` is the noise itself, that
   * is, when it does not wrap around the modulus.
   */
  lemma ZeroBitDecryptsIff(pk: PublicKey, s: seq<int>, e: seq<int>, q: int, rows: Rows)
    requires Setting(pk, s, e, q, rows)
    requires -(q / 4) <= Noise(e, rows) <= q / 4
    ensures EncryptBit(pk, 0, q, rows).Ok?
    ensures var ct := EncryptBit(pk, 0, q, rows).value;
      DecryptBit(s, ct, q) == Ok(0) <==> Residual(s, ct, q) == Noise(e, rows)
  {
    ResidualOfEncryption(pk, s, e, q, 0, rows);
    var ct := EncryptBit(pk, 0, q, rows).value;
    var E := Noise(e, rows);
    if E >= 0 {
      SmallCongruent(Residual(s, ct, q), E, q);
    } else {
      ModAddMultiple(E, 1, q);
      SmallCongruent(Residual(s, ct, q), E + q, q);
    }
  }

  /** Without noise an encrypted 0 decrypts to 0. */
  lemma ZeroBitNoiselessDecrypts(pk: PublicKey, s: seq<int>, e: seq<int>, q: int, rows: Rows)
    requires Setting(pk, s, e, q, rows)
    requires Noise(e, rows) == 0
    ensures EncryptBit(pk, 0, q, rows).Ok?
    ensures DecryptBit(s, EncryptBit(pk, 0, q, rows).value, q) == Ok(0)
  {
    ResidualOfEncryption(pk, s, e, q, 0, rows);
    var ct := EncryptBit(pk, 0, q, rows).value;
    ModOfInRange(0, q);
    SmallCongruent(Residual(s, ct, q), 0, q);
  }

  /**
   * The guarantee for 0-bits is conditional: with the default modulus, a
   * single noise entry of -1 makes the residual wrap to `q - 1`, and the
   * encrypted 0 decrypts to 1.
   */
  lemma ZeroBitWrapDecryptsAsOne()
    ensures var A := [[0, 0, 0], [0, 0, 0], [0, 0, 0]];
      var s, e, rows := [0, 0, 0], [-1, 0, 0], Rows(0, 1, 2);
      var kp := Keygen(3, DefaultQ, A, s, e);
      Setting(kp.pk, s, e, DefaultQ, rows) && Noise(e, rows) == -1 &&
      EncryptBit(kp.pk, 0, DefaultQ, rows).Ok? &&
      DecryptBit(s, EncryptBit(kp.pk, 0, DefaultQ, rows).value, DefaultQ) == Ok(1)
  {
    var A := [[0, 0, 0], [0, 0, 0], [0, 0, 0]];
    var s, e, rows := [0, 0, 0], [-1, 0, 0], Rows(0, 1, 2);
    var kp := Keygen(3, DefaultQ, A, s, e);
    assert kp.pk.b == [DefaultQ - 1, 0, 0];
    var ct := EncryptBit(kp.pk, 0, DefaultQ, rows).value;
    assert ct.a == [0, 0, 0];
    assert ct.b == DefaultQ - 1;
  }

  /** The per-character noise condition under which a bit string round-trips. */
  predicate NoiseTolerated(c: char, noise: int, q: int)
  {
    if c == '1' then -(q / 4) < noise < q / 4 else noise == 0
  }

  /**
   * Ciphertexts that each decrypt to the matching character of a `'0'/'1'`
   * string decrypt, as a whole, to that string.
   */
  lemma DecryptsTo(s: seq<int>, cts: seq<Ciphertext>, q: int, str: string)
    requires q >= 1 && IsBitString(str) && |cts| == |str|
    requires forall i :: 0 <= i < |cts| ==>
      DecryptBit(s, cts[i], q).Ok? && (DecryptBit(s, cts[i], q) == Ok(1) <==> str[i] == '1')
    ensures DecryptString(s, cts, q) == Ok(str)
  {
    var back := DecryptString(s, cts, q);
    assert back.Ok?;
    assert forall i :: 0 <= i < |str| ==> back.value[i] == str[i];
    assert back.value == str;
  }

  /**
   * Encrypting a `'0'/'1'` string and decrypting the result gives the string
   * back, provided each character's accumulated noise is tolerated.
   */
  lemma StringRoundTrip(pk: PublicKey, s: seq<int>, e: seq<int>, q: int, str: string, draws: seq<Rows>)
    requires q >= 1 && LweRelation(pk, s, e, q) && |pk.A| >= 3
    requires IsBitString(str) && |draws| == |str|
    requires forall i :: 0 <= i < |str| ==>
      ValidRows(draws[i], |pk.A|) && NoiseTolerated(str[i], Noise(e, draws[i]), q)
    ensures EncryptString(pk, str, q, draws).Ok?
    ensures DecryptString(s, EncryptString(pk, str, q, draws).value, q) == Ok(str)
  {
    var cts := EncryptString(pk, str, q, draws).value;
    forall i | 0 <= i < |cts|
      ensures |cts[i].a| == |s| && (DecryptBit(s, cts[i], q) == Ok(1) <==> str[i] == '1') && DecryptBit(s, cts[i], q).Ok?
    {
      CiphertextInvariant(pk, s, e, q, 0, draws[i]);
      if str[i] == '1' {
        OneBitDecrypts(pk, s, e, q, draws[i]);
      } else {
        ZeroBitNoiselessDecrypts(pk, s, e, q, draws[i]);
      }
    }
    DecryptsTo(s, cts, q, str);
  }

  /**
   * With a zero noise vector and a modulus of at least 4, every `'0'/'1'`
   * string round-trips: the situation of the default parameters, where the
   * truncated Gaussian noise is almost surely zero.
   */
  lemma NoiselessStringRoundTrip(pk: PublicKey, s: seq<int>, e: seq<int>, q: int, str: string, draws: seq<Rows>)
    requires q >= 4 && LweRelation(pk, s, e, q) && |pk.A| >= 3
    requires forall i :: 0 <= i < |e| ==> e[i] == 0
    requires IsBitString(str) && |draws| == |str|
    requires forall i :: 0 <= i < |draws| ==> ValidRows(draws[i], |pk.A|)
    ensures EncryptString(pk, str, q, draws).Ok?
    ensures DecryptString(s, EncryptString(pk, str, q, draws).value, q) == Ok(str)
  {
    forall i | 0 <= i < |str|
      ensures NoiseTolerated(str[i], Noise(e, draws[i]), q)
    {
    }
    StringRoundTrip(pk, s, e, q, str, draws);
  }
}
