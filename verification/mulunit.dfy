/**
 * mulunit-cpp.cpp: the compile-time recursive N-limb add, and two
 * N-limb x 1-limb multiplications that return the high limb.
 */
module MulUnitCpp {
  import opened Limbs
  import opened Carry

  /** The limbs an add kernel writes and the carry it returns. */
  datatype Sum = Sum(z: seq<Limb>, carry: nat)

  /** The N limbs a multiply kernel writes and the high limb it returns. */
  datatype Product = Product(z: seq<Limb>, high: Limb)

  /**
   * `addT<N, I>(z, x, y, c)`: while I < N, add limb I of x and y with the
   * incoming carry through `_addcarry_u64`, then recurse on I + 1 with the
   * carry it returned; at I == N return the carry unchanged and write
   * nothing. `r.z` holds the limbs written to z[I..N).
   */
  function AddT(x: seq<Limb>, y: seq<Limb>, i: nat, c: nat): (r: Sum)
    requires |x| == |y| && i <= |x| && c <= 1
    ensures |r.z| == |x| - i && r.carry <= 1
    ensures Val(r.z) + r.carry * Pow(|x| - i) == Val(x[i..]) + Val(y[i..]) + c
    decreases |x| - i
  {
    if i < |x| then
      var s := AddCarryU64(c, x[i], y[i]);
      var rest := AddT(x, y, i + 1, s.carry);
      AddTStep(x, y, i, c, s, rest);
      Sum([s.sum] + rest.z, rest.carry)
    else
      Sum([], c)
  }

  /** One level of the recursion of AddT keeps the value equation. */
  lemma AddTStep(x: seq<Limb>, y: seq<Limb>, i: nat, c: nat, s: AddOut, rest: Sum)
    requires |x| == |y| && i < |x| && c <= 1
    requires s.sum + s.carry * BASE == x[i] + y[i] + c
    requires |rest.z| == |x| - (i + 1)
    requires Val(rest.z) + rest.carry * Pow(|x| - (i + 1)) == Val(x[i + 1..]) + Val(y[i + 1..]) + s.carry
    ensures Val([s.sum] + rest.z) + rest.carry * Pow(|x| - i) == Val(x[i..]) + Val(y[i..]) + c
  {
    var n := |x|;
    assert ([s.sum] + rest.z)[1..] == rest.z;
    assert x[i..][1..] == x[i + 1..];
    assert y[i..][1..] == y[i + 1..];
    assert Pow(n - i) == BASE * Pow(n - (i + 1));
    calc {
      Val([s.sum] + rest.z) + rest.carry * Pow(n - i);
      s.sum + BASE * Val(rest.z) + BASE * (rest.carry * Pow(n - (i + 1)));
      s.sum + BASE * (Val(rest.z) + rest.carry * Pow(n - (i + 1)));
      s.sum + BASE * (Val(x[i + 1..]) + Val(y[i + 1..]) + s.carry);
      x[i] + y[i] + c + BASE * Val(x[i + 1..]) + BASE * Val(y[i + 1..]);
    }
  }

  /** The full-width add `addT<N>(z, x, y)` with carry-in 0. */
  function Add(x: seq<Limb>, y: seq<Limb>): (r: Sum)
    requires |x| == |y|
    ensures |r.z| == |x| && r.carry <= 1
    ensures Val(r.z) + r.carry * Pow(|x|) == Val(x) + Val(y)
  {
    assert x[0..] == x && y[0..] == y;
    AddT(x, y, 0, 0)
  }

  /** Any (limbs, carry) pair with the value of x + y is the output of Add. */
  lemma AddUnique(x: seq<Limb>, y: seq<Limb>, z: seq<Limb>, c: nat)
    requires |x| == |y| == |z|
    requires Val(z) + c * Pow(|z|) == Val(x) + Val(y)
    ensures Add(x, y) == Sum(z, c)
  {
    Unique(z, c, Add(x, y).z, Add(x, y).carry);
  }

  /** Low halves L[i] of the limb products x[i] * y. */
  function Lows(x: seq<Limb>, y: Limb): (l: seq<Limb>)
    ensures |l| == |x|
  {
    if |x| == 0 then [] else [MulUnit1(x[0], y).lo] + Lows(x[1..], y)
  }

  /** High halves H[i] of the limb products x[i] * y. */
  function Highs(x: seq<Limb>, y: Limb): (h: seq<Limb>)
    ensures |h| == |x|
  {
    if |x| == 0 then [] else [MulUnit1(x[0], y).hi] + Highs(x[1..], y)
  }

  /** Limb i of Highs is the high half of x[i] * y. */
  lemma {:induction false} HighsAt(x: seq<Limb>, y: Limb, i: nat)
    requires i < |x|
    ensures Highs(x, y)[i] == MulUnit1(x[i], y).hi
  {
    if i > 0 {
      HighsAt(x[1..], y, i - 1);
    }
  }

  /** x * y is the low halves plus the high halves shifted up one limb. */
  lemma {:induction false} ValMulScalar(x: seq<Limb>, y: Limb)
    ensures Val(x) * y == Val(Lows(x, y)) + BASE * Val(Highs(x, y))
  {
    if |x| > 0 {
      var w := MulUnit1(x[0], y);
      var L := Lows(x, y);
      var H := Highs(x, y);
      assert L[1..] == Lows(x[1..], y);
      assert H[1..] == Highs(x[1..], y);
      ValMulScalar(x[1..], y);
      MulScalarAlg(x[0], Val(x[1..]), y, w.hi, w.lo, Val(L[1..]), Val(H[1..]));
    }
  }

  lemma MulScalarAlg(x0: int, vx: int, y: int, hi: int, lo: int, vl: int, vh: int)
    requires hi * BASE + lo == x0 * y
    requires vx * y == vl + BASE * vh
    ensures (x0 + BASE * vx) * y == (lo + BASE * vl) + BASE * (hi + BASE * vh)
  {
    calc {
      (x0 + BASE * vx) * y;
      x0 * y + BASE * (vx * y);
      hi * BASE + lo + BASE * (vl + BASE * vh);
    }
  }

  /** `addT<N-1>(z + 1, L + 1, H)`: the low halves above limb 0 plus the high halves below N-1. */
  function Combine(x: seq<Limb>, y: Limb): (s: Sum)
    requires |x| >= 1
    ensures |s.z| == |x| - 1 && s.carry <= 1
    ensures Val(s.z) + s.carry * Pow(|x| - 1) == Val(Lows(x, y)[1..]) + Val(Highs(x, y)[..|x| - 1])
  {
    Add(Lows(x, y)[1..], Highs(x, y)[..|x| - 1])
  }

  /** The N limbs `mulUnitT<N>` writes: L[0], then the limbs of the add. */
  function Written(x: seq<Limb>, y: Limb): (z: seq<Limb>)
    requires |x| >= 1
    ensures |z| == |x|
  {
    [Lows(x, y)[0]] + Combine(x, y).z
  }

  /** H[N-1] plus the carry of the add, before the cast to a limb. */
  function TopSum(x: seq<Limb>, y: Limb): nat
    requires |x| >= 1
  {
    Highs(x, y)[|x| - 1] + Combine(x, y).carry
  }

  /**
   * In `mulUnitT<N>`, adding the carry of `addT<N-1>` to H[N-1] never
   * wraps past 2^64 (for N == 1 the add is `addT<0>`, which returns 0),
   * and the limbs written plus that sum at weight BASE^N are exactly x * y.
   */
  lemma MulUnitTNoWrap(x: seq<Limb>, y: Limb)
    requires |x| >= 1
    ensures TopSum(x, y) < BASE
    ensures Val(Written(x, y)) + TopSum(x, y) * Pow(|x|) == Val(x) * y
  {
    var n := |x|;
    var L := Lows(x, y);
    var H := Highs(x, y);
    var s := Combine(x, y);
    HighsAt(x, y, n - 1);
    HighsSplit(x, y);
    WrittenVal(x, y);
    ValMulScalar(x, y);
    assert Pow(n) == BASE * Pow(n - 1);
    AssembleAlg(Val(x) * y, Val(L), Val(H), L[0], Val(L[1..]), Val(H[..n - 1]), H[n - 1],
                Pow(n - 1), Val(s.z), s.carry, Val(Written(x, y)), TopSum(x, y), Pow(n));
  }

  /** Splitting off the top high half: Val(H) = Val(H[..N-1]) + H[N-1] * BASE^(N-1). */
  lemma HighsSplit(x: seq<Limb>, y: Limb)
    requires |x| >= 1
    ensures var H := Highs(x, y);
            Val(H) == Val(H[..|x| - 1]) + H[|x| - 1] * Pow(|x| - 1)
  {
    var H := Highs(x, y);
    assert H == H[..|x| - 1] + [H[|x| - 1]];
    ValAppend(H[..|x| - 1], H[|x| - 1]);
  }

  /** The written limbs are L[0] followed by the limbs of the add. */
  lemma WrittenVal(x: seq<Limb>, y: Limb)
    requires |x| >= 1
    ensures Val(Written(x, y)) == Lows(x, y)[0] + BASE * Val(Combine(x, y).z)
  {
    assert Written(x, y)[1..] == Combine(x, y).z;
  }

  lemma AssembleAlg(xy: int, vL: int, vH: int, l0: int, vl: int, vh: int, top: int,
                    p: int, vz: int, c: int, v0: int, t: int, pn: int)
    requires xy == vL + BASE * vH
    requires vL == l0 + BASE * vl
    requires vH == vh + top * p
    requires vz + c * p == vl + vh
    requires v0 == l0 + BASE * vz
    requires t == top + c && pn == BASE * p
    ensures v0 + t * pn == xy
  {
    calc {
      xy;
      l0 + BASE * vl + BASE * (vh + top * p);
      l0 + BASE * (vl + vh) + BASE * (top * p);
      l0 + BASE * (vz + c * p) + BASE * (top * p);
      v0 + (top + c) * (BASE * p);
    }
  }

  /**
   * `mulUnitT<N>(z, x, y)`: all partial products first, then z[0] = L[0]
   * and z[1..N) plus the carry come from `addT<N-1>(z+1, L+1, H)`; the
   * return value H[N-1] + carry is written with its 64-bit wrap. The
   * result is the exact (N+1)-limb product x * y.
   */
  function MulUnitT(x: seq<Limb>, y: Limb): (r: Product)
    requires |x| >= 1
    ensures |r.z| == |x|
    ensures Val(r.z) + r.high * Pow(|x|) == Val(x) * y
    ensures r.z[0] == (x[0] * y) % BASE
  {
    WrittenIsProduct(x, y);
    Product(Written(x, y), TopSum(x, y) % BASE)
  }

  /** MulUnitTNoWrap with the cast of the top sum made explicit, and limb 0 of the product. */
  lemma {:induction false} WrittenIsProduct(x: seq<Limb>, y: Limb)
    requires |x| >= 1
    ensures Val(Written(x, y)) + (TopSum(x, y) % BASE) * Pow(|x|) == Val(x) * y
    ensures Written(x, y)[0] == (x[0] * y) % BASE
  {
    MulUnitTNoWrap(x, y);
    assert TopSum(x, y) % BASE == TopSum(x, y);
    assert Written(x, y)[0] == MulUnit1(x[0], y).lo;
  }

  /** Any (N limbs, high limb) pair worth x * y is the output of MulUnitT. */
  lemma MulUnitTUnique(x: seq<Limb>, y: Limb, z: seq<Limb>, h: Limb)
    requires |x| >= 1 && |z| == |x|
    requires Val(z) + h * Pow(|z|) == Val(x) * y
    ensures MulUnitT(x, y) == Product(z, h)
  {
    Unique(z, h, MulUnitT(x, y).z, MulUnitT(x, y).high);
  }

  /** Multiplying by 0 writes zero limbs and returns 0. */
  lemma MulUnitTByZero(x: seq<Limb>)
    requires |x| >= 1
    ensures MulUnitT(x, 0) == Product(Zeros(|x|), 0)
  {
    ValZeros(|x|);
    MulUnitTUnique(x, 0, Zeros(|x|), 0);
  }

  /** Multiplying by 1 copies x and returns 0. */
  lemma MulUnitTByOne(x: seq<Limb>)
    requires |x| >= 1
    ensures MulUnitT(x, 1) == Product(x, 0)
  {
    MulUnitTUnique(x, 1, x, 0);
  }

  /** `mulUnit4`: the four-limb instance of mulUnitT. */
  function MulUnit4(x: seq<Limb>, y: Limb): (r: Product)
    requires |x| == 4
    ensures |r.z| == 4
    ensures Val(r.z) + r.high * Pow(4) == Val(x) * y
  {
    MulUnitT(x, y)
  }

  /**
   * `mulUnitT2<N>(z, x, y)`: the interleaved chain. Each step multiplies
   * one limb, adds its low half to the previous high half with the running
   * carry, and keeps its high half for the next step; the final
   * `_addcarry_u64(c, 0, L, &H)` never carries out. The result is the same
   * as MulUnitT on every input.
   */
  method MulUnitT2(x: seq<Limb>, y: Limb) returns (z: seq<Limb>, ret: Limb)
    requires |x| >= 1
    ensures |z| == |x|
    ensures Val(z) + ret * Pow(|x|) == Val(x) * y
    ensures Product(z, ret) == MulUnitT(x, y)
  {
    var w := MulUnit1(x[0], y);
    z := [w.lo];
    var L: Limb := w.hi;
    var c: U8 := 0;
    var i := 1;
    assert x[..1] == [x[0]];
    while i < |x|
      invariant 1 <= i <= |x|
      invariant |z| == i
      invariant c <= 1
      invariant Val(z) + (c + L) * Pow(i) == Val(x[..i]) * y
    {
      var p := MulUnit1(x[i], y);
      var s := AddCarryU64(c, p.lo, L);
      MulUnitT2Step(x, y, i, z, c, L, p, s);
      z := z + [s.sum];
      c := s.carry;
      L := p.hi;
      i := i + 1;
    }
    assert x[..i] == x;
    MulUnitT2FinalNoCarry(x, y, z, c, L);
    var fin := AddCarryU64(c, 0, L);
    ret := fin.sum;
    MulUnitTUnique(x, y, z, ret);
  }

  /**
   * When the interleaved chain has consumed every limb, the final
   * `_addcarry_u64(c, 0, L, &H)` never carries out: c + L fits in a limb,
   * so H is the whole top limb of x * y.
   */
  lemma MulUnitT2FinalNoCarry(x: seq<Limb>, y: Limb, z: seq<Limb>, c: U8, L: Limb)
    requires |z| == |x| && c <= 1
    requires Val(z) + (c + L) * Pow(|x|) == Val(x) * y
    ensures AddCarryU64(c, 0, L).carry == 0
    ensures AddCarryU64(c, 0, L).sum == c + L
    ensures Val(z) + AddCarryU64(c, 0, L).sum * Pow(|x|) == Val(x) * y
  {
    ValBound(z);
    ValBound(x);
    ScaleBound(Val(x), |x|, y);
    if c + L >= BASE {
      MulLe(BASE, c + L, Pow(|x|));
      assert false;
    }
  }

  /** One iteration of the interleaved chain keeps its value equation. */
  lemma MulUnitT2Step(x: seq<Limb>, y: Limb, i: nat, z: seq<Limb>, c: U8, L: Limb, p: Wide, s: AddOut)
    requires 1 <= i < |x| && |z| == i && c <= 1
    requires Val(z) + (c + L) * Pow(i) == Val(x[..i]) * y
    requires p.hi * BASE + p.lo == x[i] * y
    requires s.sum + s.carry * BASE == p.lo + L + c
    ensures Val(z + [s.sum]) + (s.carry + p.hi) * Pow(i + 1) == Val(x[..i + 1]) * y
  {
    ValAppend(z, s.sum);
    ValPrefixStep(x, i);
    assert Pow(i + 1) == BASE * Pow(i);
    T2StepAlg(Val(z), s.sum, s.carry, p.hi, p.lo, L, c, Pow(i), Val(x[..i]), x[i], y);
  }

  lemma T2StepAlg(vz: int, sum: int, carry: int, hi: int, lo: int, l: int, c: int, p: int, vx: int, xi: int, y: int)
    requires vz + (c + l) * p == vx * y
    requires hi * BASE + lo == xi * y
    requires sum + carry * BASE == lo + l + c
    ensures vz + sum * p + (carry + hi) * (BASE * p) == (vx + xi * p) * y
  {
    calc {
      vz + sum * p + (carry + hi) * (BASE * p);
      vz + (sum + carry * BASE + hi * BASE) * p;
      vz + (lo + l + c + hi * BASE) * p;
      vz + (c + l) * p + (xi * y) * p;
    }
  }

  /** `mulUnit2_4`: the four-limb instance of mulUnitT2, equal to mulUnit4. */
  method MulUnit2_4(x: seq<Limb>, y: Limb) returns (z: seq<Limb>, ret: Limb)
    requires |x| == 4
    ensures Product(z, ret) == MulUnit4(x, y)
  {
    z, ret := MulUnitT2(x, y);
  }

  /** A carry out of limb 0 lands in limb 1: [2^64-1, 0, 0, 0] + [1, 0, 0, 0]. */
  lemma AddCarriesIntoNextLimb()
    ensures Add([BASE - 1, 0, 0, 0], [1, 0, 0, 0]) == Sum([0, 1, 0, 0], 0)
  {
    var x: seq<Limb> := [BASE - 1, 0, 0, 0];
    var y: seq<Limb> := [1, 0, 0, 0];
    var z: seq<Limb> := [0, 1, 0, 0];
    Val4(BASE - 1, 0, 0, 0);
    Val4(1, 0, 0, 0);
    Val4(0, 1, 0, 0);
    AddUnique(x, y, z, 0);
  }

  /** All-ones plus one wraps to zero limbs with carry 1. */
  lemma AddFullOverflow()
    ensures Add([BASE - 1, BASE - 1, BASE - 1, BASE - 1], [1, 0, 0, 0]) == Sum([0, 0, 0, 0], 1)
  {
    var x: seq<Limb> := [BASE - 1, BASE - 1, BASE - 1, BASE - 1];
    var y: seq<Limb> := [1, 0, 0, 0];
    var z: seq<Limb> := [0, 0, 0, 0];
    Val4(BASE - 1, BASE - 1, BASE - 1, BASE - 1);
    Val4(1, 0, 0, 0);
    Val4(0, 0, 0, 0);
    AddUnique(x, y, z, 1);
  }

  /** [2, 0, 0, 0] * 2^63 == 2^64: the product moves into limb 1, high limb 0. */
  lemma MulUnitTExample()
    ensures MulUnitT([2, 0, 0, 0], 0x8000_0000_0000_0000) == Product([0, 1, 0, 0], 0)
  {
    var x: seq<Limb> := [2, 0, 0, 0];
    var z: seq<Limb> := [0, 1, 0, 0];
    Val4(2, 0, 0, 0);
    Val4(0, 1, 0, 0);
    MulUnitTUnique(x, 0x8000_0000_0000_0000, z, 0);
  }
}
