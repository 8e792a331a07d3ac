/**
 * Integer vectors and arithmetic modulo a positive modulus, as used by the
 * LWE scheme: inner products, element-wise sums and reductions, and the
 * congruence facts that connect them.
 */
module Arith {

  /** Absolute value (Python's `abs` on an integer). */
  function Abs(x: int): (r: nat)
    ensures r == x || r == -x
  {
    if x < 0 then -x else x
  }

  /** `x` and `y` leave the same remainder modulo `q`. */
  predicate Congruent(x: int, y: int, q: int)
    requires q > 0
  {
    x % q == y % q
  }

  /** Every entry of `v` lies in `[0, q)`. */
  predicate InRange(v: seq<int>, q: int)
  {
    forall i :: 0 <= i < |v| ==> 0 <= v[i] < q
  }

  /** Inner product of two vectors of equal length. */
  function Dot(u: seq<int>, v: seq<int>): int
    requires |u| == |v|
    decreases |u|
  {
    if |u| == 0 then 0 else u[0] * v[0] + Dot(u[1..], v[1..])
  }

  /** Element-wise sum of two vectors of equal length. */
  function VecAdd(u: seq<int>, v: seq<int>): (r: seq<int>)
    requires |u| == |v|
    ensures |r| == |u|
  {
    seq(|u|, i requires 0 <= i < |u| => u[i] + v[i])
  }

  /** Element-wise reduction modulo `q` (NumPy's `np.mod` on a vector). */
  function VecMod(u: seq<int>, q: int): (r: seq<int>)
    requires q > 0
    ensures |r| == |u| && InRange(r, q)
  {
    seq(|u|, i requires 0 <= i < |u| => u[i] % q)
  }

  /** Each entry of `VecMod(u, q)` is congruent to the entry of `u` it reduces. */
  lemma VecModCongruent(u: seq<int>, q: int)
    requires q > 0
    ensures forall i :: 0 <= i < |u| ==> Congruent(VecMod(u, q)[i], u[i], q)
  {
    forall i | 0 <= i < |u|
      ensures Congruent(VecMod(u, q)[i], u[i], q)
    {
      ModOfInRange(u[i] % q, q);
    }
  }

  /** The remainder is determined by any decomposition `x == k * q + r` with `0 <= r < q`. */
  lemma ModUnique(x: int, q: int, k: int, r: int)
    requires q > 0 && 0 <= r < q && x == k * q + r
    ensures x % q == r
  {
    var d := x / q - k;
    assert x == (x / q) * q + x % q;
    assert d * q == r - x % q;
    assert d > 0 ==> d * q >= q;
    assert d < 0 ==> d * q <= -q;
  }

  /** Adding a multiple of the modulus does not change the remainder. */
  lemma ModAddMultiple(x: int, m: int, q: int)
    requires q > 0
    ensures (x + m * q) % q == x % q
  {
    assert x == (x / q) * q + x % q;
    assert x + m * q == (x / q + m) * q + x % q;
    ModUnique(x + m * q, q, x / q + m, x % q);
  }

  /** A value already in `[0, q)` is its own remainder. */
  lemma ModOfInRange(x: int, q: int)
    requires 0 <= x < q
    ensures x % q == x
  {
    ModUnique(x, q, 0, x);
  }

  /** The remainder of a sum depends only on the remainders of its terms. */
  lemma ModAdd(x: int, y: int, q: int)
    requires q > 0
    ensures (x + y) % q == (x % q + y % q) % q
  {
    var a, b := x / q, y / q;
    assert x == a * q + x % q;
    assert y == b * q + y % q;
    assert (a + b) * q == a * q + b * q;
    ModAddMultiple(x % q + y % q, a + b, q);
  }

  /** Congruence is preserved by addition. */
  lemma CongruentAdd(x: int, x': int, y: int, y': int, q: int)
    requires q > 0 && Congruent(x, x', q) && Congruent(y, y', q)
    ensures Congruent(x + y, x' + y', q)
  {
    ModAdd(x, y, q);
    ModAdd(x', y', q);
  }

  /** From `c == B + H`, `B == S + E` and `D == S` modulo `q`, conclude `c == D + E + H`. */
  lemma CongruentSubstitute(c: int, B: int, S: int, D: int, E: int, H: int, q: int)
    requires q > 0 && Congruent(c, B + H, q) && Congruent(B, S + E, q) && Congruent(D, S, q)
    ensures Congruent(c, D + E + H, q)
  {
    CongruentAdd(B, S + E, H, H, q);
    CongruentAdd(S, D, E + H, E + H, q);
    assert S + E + H == S + (E + H) && D + E + H == D + (E + H);
  }

  /** Congruence is preserved by negation. */
  lemma CongruentNeg(x: int, x': int, q: int)
    requires q > 0 && Congruent(x, x', q)
    ensures Congruent(-x, -x', q)
  {
    assert x == (x / q) * q + x % q;
    assert x' == (x' / q) * q + x' % q;
    assert -x == -(x % q) + (-(x / q)) * q;
    assert -x' == -(x % q) + (-(x' / q)) * q;
    ModAddMultiple(-(x % q), -(x / q), q);
    ModAddMultiple(-(x % q), -(x' / q), q);
  }

  /** Congruence is preserved by multiplying both sides with the same factor. */
  lemma CongruentScale(x: int, x': int, c: int, q: int)
    requires q > 0 && Congruent(x, x', q)
    ensures Congruent(x * c, x' * c, q)
  {
    var r := x % q;
    assert x == (x / q) * q + r;
    assert x' == (x' / q) * q + r;
    assert x * c == r * c + ((x / q) * c) * q;
    assert x' * c == r * c + ((x' / q) * c) * q;
    ModAddMultiple(r * c, (x / q) * c, q);
    ModAddMultiple(r * c, (x' / q) * c, q);
  }

  /** The inner product distributes over an element-wise sum. */
  lemma {:induction false} DotVecAdd(u: seq<int>, v: seq<int>, s: seq<int>)
    requires |u| == |v| == |s|
    ensures Dot(VecAdd(u, v), s) == Dot(u, s) + Dot(v, s)
    decreases |u|
  {
    if |u| > 0 {
      var w := VecAdd(u, v);
      assert w[1..] == VecAdd(u[1..], v[1..]);
      DotVecAdd(u[1..], v[1..], s[1..]);
      assert w[0] * s[0] == u[0] * s[0] + v[0] * s[0];
    }
  }

  /** Reducing a vector's entries modulo `q` keeps its inner products congruent. */
  lemma {:induction false} DotVecMod(u: seq<int>, s: seq<int>, q: int)
    requires q > 0 && |u| == |s|
    ensures Congruent(Dot(VecMod(u, q), s), Dot(u, s), q)
    decreases |u|
  {
    if |u| > 0 {
      var w := VecMod(u, q);
      assert w[1..] == VecMod(u[1..], q);
      VecModCongruent(u, q);
      DotVecMod(u[1..], s[1..], q);
      CongruentScale(w[0], u[0], s[0], q);
      CongruentAdd(w[0] * s[0], u[0] * s[0], Dot(w[1..], s[1..]), Dot(u[1..], s[1..]), q);
    }
  }

  /**
   * A difference `x` of two values in `[0, q)` that is congruent to some `y`
   * in `[0, q)` is either `y` itself or `y - q`.
   */
  lemma SmallCongruent(x: int, y: int, q: int)
    requires q > 0 && -q < x < q && 0 <= y < q && Congruent(x, y, q)
    ensures x == y || x == y - q
  {
    ModOfInRange(y, q);
    if x >= 0 {
      ModOfInRange(x, q);
    } else {
      ModAddMultiple(x, 1, q);
      ModOfInRange(x + q, q);
    }
  }
}
