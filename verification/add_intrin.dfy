/**
 * add-intrin.cpp: the N-limb add through `_addcarry_u64`. As written, the
 * carry the intrinsic returns is discarded and `c` stays 0, so no carry
 * crosses a limb boundary. AddT models that code; AddTFixed is the loop
 * with the carry fed back, which is what the other backends compute.
 */
module AddIntrin {
  import opened Limbs
  import opened Carry
  import MulUnitCpp

  /** Every limb of z is the wrapped sum of the same limbs of x and y, with no carry-in. */
  predicate LimbwiseSum(x: seq<Limb>, y: seq<Limb>, z: seq<Limb>)
  {
    |x| == |y| == |z| && forall i :: 0 <= i < |z| ==> z[i] == (x[i] + y[i]) % BASE
  }

  /** No pair of limbs x[i], y[i] overflows 64 bits on its own. */
  predicate NoLimbOverflow(x: seq<Limb>, y: seq<Limb>)
    requires |x| == |y|
  {
    forall i :: 0 <= i < |x| ==> x[i] + y[i] < BASE
  }

  /**
   * `addT<N>` as written: `c` is initialised to 0 and never reassigned, so
   * every limb is added with carry-in 0 and the call returns 0.
   */
  method AddT(x: seq<Limb>, y: seq<Limb>) returns (z: seq<Limb>, ret: nat)
    requires |x| == |y|
    ensures LimbwiseSum(x, y, z)
    ensures ret == 0
  {
    var c: U8 := 0;
    z := [];
    var i := 0;
    while i < |x|
      invariant 0 <= i <= |x|
      invariant |z| == i
      invariant forall k :: 0 <= k < i ==> z[k] == (x[k] + y[k]) % BASE
    {
      var out := AddCarryU64(c, x[i], y[i]);
      z := z + [out.sum];
      i := i + 1;
    }
    ret := c;
  }

  /** `add4` as written. */
  method Add4(x: seq<Limb>, y: seq<Limb>) returns (z: seq<Limb>, ret: nat)
    requires |x| == 4 && |y| == 4
    ensures LimbwiseSum(x, y, z)
    ensures ret == 0
  {
    z, ret := AddT(x, y);
  }

  /**
   * The value lost by dropping carries: each overflowing limb pair i loses
   * BASE^(i+1).
   */
  function LostCarries(x: seq<Limb>, y: seq<Limb>): nat
    requires |x| == |y|
  {
    if |x| == 0 then 0
    else (if x[0] + y[0] >= BASE then BASE else 0) + BASE * LostCarries(x[1..], y[1..])
  }

  /** A limbwise sum falls short of x + y by exactly the dropped carries. */
  lemma {:induction false} LimbwiseSumVal(x: seq<Limb>, y: seq<Limb>, z: seq<Limb>)
    requires LimbwiseSum(x, y, z)
    ensures Val(z) + LostCarries(x, y) == Val(x) + Val(y)
  {
    if |x| > 0 {
      LimbwiseSumVal(x[1..], y[1..], z[1..]);
      var o := if x[0] + y[0] >= BASE then BASE else 0;
      assert z[0] as int + o == x[0] as int + y[0];
      LostAlg(z[0], o, Val(z[1..]), LostCarries(x[1..], y[1..]), x[0], y[0], Val(x[1..]), Val(y[1..]));
    }
  }

  lemma LostAlg(z0: int, o: int, vz: int, w: int, x0: int, y0: int, vx: int, vy: int)
    requires z0 + o == x0 + y0
    requires vz + w == vx + vy
    ensures z0 + BASE * vz + (o + BASE * w) == x0 + BASE * vx + y0 + BASE * vy
  {
  }

  /** Nothing is lost exactly when no limb pair overflows. */
  lemma {:induction false} LostCarriesZero(x: seq<Limb>, y: seq<Limb>)
    requires |x| == |y|
    ensures LostCarries(x, y) == 0 <==> NoLimbOverflow(x, y)
  {
    if |x| > 0 {
      LostCarriesZero(x[1..], y[1..]);
      if NoLimbOverflow(x[1..], y[1..]) && x[0] + y[0] < BASE {
        forall i | 0 <= i < |x|
          ensures x[i] + y[i] < BASE
        {
          if i > 0 {
            assert x[i] == x[1..][i - 1] && y[i] == y[1..][i - 1];
          }
        }
      }
      if NoLimbOverflow(x, y) {
        forall i | 0 <= i < |x| - 1
          ensures x[1..][i] + y[1..][i] < BASE
        {
          assert x[1..][i] == x[i + 1];
        }
      }
    }
  }

  /**
   * The as-written kernel agrees with the carry-propagating add (same limbs
   * and same return value) if and only if no limb pair overflows.
   */
  lemma AgreesIffNoLimbOverflow(x: seq<Limb>, y: seq<Limb>, z: seq<Limb>)
    requires LimbwiseSum(x, y, z)
    ensures MulUnitCpp.Add(x, y) == MulUnitCpp.Sum(z, 0) <==> NoLimbOverflow(x, y)
  {
    LimbwiseSumVal(x, y, z);
    LostCarriesZero(x, y);
    if NoLimbOverflow(x, y) {
      MulUnitCpp.AddUnique(x, y, z, 0);
    }
  }

  /**
   * [2^64-1, 0, 0, 0] + [1, 0, 0, 0]: the as-written kernel yields zero
   * limbs and returns 0, while the sum is [0, 1, 0, 0].
   */
  lemma DroppedCarryCounterexample(z: seq<Limb>)
    requires LimbwiseSum([BASE - 1, 0, 0, 0], [1, 0, 0, 0], z)
    ensures z == [0, 0, 0, 0]
    ensures MulUnitCpp.Add([BASE - 1, 0, 0, 0], [1, 0, 0, 0]) == MulUnitCpp.Sum([0, 1, 0, 0], 0)
    ensures MulUnitCpp.Add([BASE - 1, 0, 0, 0], [1, 0, 0, 0]) != MulUnitCpp.Sum(z, 0)
  {
    MulUnitCpp.AddCarriesIntoNextLimb();
  }

  /**
   * `addT<N>` with the intrinsic's carry fed back (`c = _addcarry_u64(c, ...)`):
   * the same limbs and carry as every other add kernel.
   */
  method AddTFixed(x: seq<Limb>, y: seq<Limb>) returns (z: seq<Limb>, ret: nat)
    requires |x| == |y|
    ensures ret <= 1
    ensures Val(z) + ret * Pow(|x|) == Val(x) + Val(y)
    ensures MulUnitCpp.Sum(z, ret) == MulUnitCpp.Add(x, y)
  {
    var c: U8 := 0;
    z := [];
    var i := 0;
    while i < |x|
      invariant 0 <= i <= |x|
      invariant |z| == i && c <= 1
      invariant Val(z) + c * Pow(i) == Val(x[..i]) + Val(y[..i])
    {
      var out := AddCarryU64(c, x[i], y[i]);
      ChainStep(z, x, y, i, c, out);
      z := z + [out.sum];
      c := out.carry;
      i := i + 1;
    }
    ret := c;
    assert x[..i] == x && y[..i] == y;
    MulUnitCpp.AddUnique(x, y, z, ret);
  }
}
