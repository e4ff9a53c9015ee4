/**
 * Little-endian multi-precision numbers over 64-bit limbs: limb 0 is the
 * least significant, and `Val(s)` is the sum of `s[i] * 2^(64*i)`.
 */
module Limbs {

  /** 2^64, the radix of one limb. */
  const BASE: nat := 0x1_0000_0000_0000_0000

  /** A `uint64_t` (`Unit`) value. */
  type Limb = x: nat | x < BASE

  /** BASE^n, the weight of limb n. */
  function Pow(n: nat): (r: nat)
    ensures r >= 1
  {
    if n == 0 then 1 else BASE * Pow(n - 1)
  }

  /** The unsigned integer denoted by a little-endian limb sequence. */
  function Val(s: seq<Limb>): nat
  {
    if |s| == 0 then 0 else s[0] + BASE * Val(s[1..])
  }

  /** Quotient and remainder by a positive modulus are unique. */
  lemma DivModUnique(m: nat, q1: nat, r1: nat, q2: nat, r2: nat)
    requires m > 0 && r1 < m && r2 < m
    requires q1 * m + r1 == q2 * m + r2
    ensures q1 == q2 && r1 == r2
  {
    if q1 < q2 {
      MulStep(q1, q2 - q1, m);
    } else if q2 < q1 {
      MulStep(q2, q1 - q2, m);
    }
  }

  /** (a + k) * m exceeds a * m by at least m when k > 0. */
  lemma MulStep(a: nat, k: nat, m: nat)
    requires k > 0
    ensures (a + k) * m >= a * m + m
  {
    assert (a + k) * m == a * m + k * m;
    assert k * m == m + (k - 1) * m;
  }

  /** Multiplication by a natural number is monotone. */
  lemma MulLe(a: nat, b: nat, c: nat)
    requires a <= b
    ensures a * c <= b * c
  {
    assert b * c == a * c + (b - a) * c;
  }

  /** Appending a limb adds it at weight BASE^|s|. */
  lemma {:induction false} ValAppend(s: seq<Limb>, d: Limb)
    ensures Val(s + [d]) == Val(s) + d * Pow(|s|)
  {
    if |s| == 0 {
      assert (s + [d])[1..] == [];
    } else {
      assert (s + [d])[1..] == s[1..] + [d];
      ValAppend(s[1..], d);
      calc {
        Val(s + [d]);
        s[0] + BASE * Val(s[1..] + [d]);
        s[0] + BASE * (Val(s[1..]) + d * Pow(|s| - 1));
        s[0] + BASE * Val(s[1..]) + d * (BASE * Pow(|s| - 1));
      }
    }
  }

  /** Val of a prefix extended by the next limb. */
  lemma ValPrefixStep(s: seq<Limb>, i: nat)
    requires i < |s|
    ensures Val(s[..i + 1]) == Val(s[..i]) + s[i] * Pow(i)
  {
    assert s[..i + 1] == s[..i] + [s[i]];
    ValAppend(s[..i], s[i]);
  }

  /** An n-limb number is below BASE^n. */
  lemma {:induction false} ValBound(s: seq<Limb>)
    ensures Val(s) < Pow(|s|)
  {
    if |s| > 0 {
      ValBound(s[1..]);
      assert Val(s[1..]) <= Pow(|s| - 1) - 1;
      assert BASE * Val(s[1..]) <= BASE * Pow(|s| - 1) - BASE;
    }
  }

  /** Limb sequences of equal length with equal value are equal. */
  lemma {:induction false} ValInjective(a: seq<Limb>, b: seq<Limb>)
    requires |a| == |b| && Val(a) == Val(b)
    ensures a == b
  {
    if |a| > 0 {
      DivModUnique(BASE, Val(a[1..]), a[0], Val(b[1..]), b[0]);
      ValInjective(a[1..], b[1..]);
      assert a == [a[0]] + a[1..];
      assert b == [b[0]] + b[1..];
    }
  }

  /**
   * The pair (n limbs, carry) representing a number is unique: this is how
   * every backend is shown to agree with the reference kernels.
   */
  lemma Unique(a: seq<Limb>, c: nat, b: seq<Limb>, d: nat)
    requires |a| == |b|
    requires Val(a) + c * Pow(|a|) == Val(b) + d * Pow(|b|)
    ensures a == b && c == d
  {
    ValBound(a);
    ValBound(b);
    DivModUnique(Pow(|a|), c, Val(a), d, Val(b));
    ValInjective(a, b);
  }

  /** A number below BASE^n times a limb is below BASE^(n+1). */
  lemma ScaleBound(v: nat, n: nat, y: Limb)
    requires v < Pow(n)
    ensures v * y < Pow(n) * BASE
  {
    MulLe(y, BASE, v);
    MulStep(v, Pow(n) - v, BASE);
    assert y * v == v * y && BASE * v == v * BASE;
  }

  /** BASE^(a+b) == BASE^a * BASE^b. */
  lemma {:induction false} PowAdd(a: nat, b: nat)
    ensures Pow(a + b) == Pow(a) * Pow(b)
  {
    if a > 0 {
      PowAdd(a - 1, b);
      assert Pow(a + b) == BASE * Pow(a - 1 + b);
    }
  }

  /** A sequence of n zero limbs. */
  function Zeros(n: nat): (s: seq<Limb>)
    ensures |s| == n
    ensures forall i :: 0 <= i < n ==> s[i] == 0
  {
    if n == 0 then [] else [0] + Zeros(n - 1)
  }

  lemma {:induction false} ValZeros(n: nat)
    ensures Val(Zeros(n)) == 0
  {
    if n > 0 {
      assert Zeros(n)[1..] == Zeros(n - 1);
      ValZeros(n - 1);
    }
  }

  /** The value of a four-limb (256-bit) number. */
  lemma Val4(a: Limb, b: Limb, c: Limb, d: Limb)
    ensures Val([a, b, c, d]) == a + BASE * (b + BASE * (c + BASE * d))
    ensures Pow(4) == BASE * BASE * BASE * BASE
  {
    assert [d][1..] == [];
    assert Val([d]) == d;
    assert [c, d][1..] == [d];
    assert Val([c, d]) == c + BASE * d;
    assert [b, c, d][1..] == [c, d];
    assert Val([b, c, d]) == b + BASE * (c + BASE * d);
    assert [a, b, c, d][1..] == [b, c, d];
  }
}
