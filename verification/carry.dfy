/**
 * The single-limb primitives every kernel is built from: add-with-carry in
 * its two source forms, and the exact 64x64 -> 128-bit product.
 */
module Carry {
  import opened Limbs

  /** A `uint8_t`, the type the intrinsics use for a carry. */
  type U8 = x: nat | x < 256

  /** A limb and the carry bit that leaves it. */
  datatype AddOut = AddOut(carry: nat, sum: Limb)

  /** The 128-bit product of two limbs as a (high, low) pair. */
  datatype Wide = Wide(hi: Limb, lo: Limb)

  /** Any non-zero carry-in counts as one, as `_addcarry_u64` defines it. */
  function CarryIn(c: U8): nat
  {
    if c > 0 then 1 else 0
  }

  /**
   * `_addcarry_u64(c, a, b, &out)`: the 65-bit sum a + b + carry-in split
   * into the stored limb and the returned carry.
   */
  function AddCarryU64(cIn: U8, a: Limb, b: Limb): (r: AddOut)
    ensures r.carry <= 1
    ensures r.sum + r.carry * BASE == a + b + CarryIn(cIn)
    ensures r.carry == 1 <==> a + b + CarryIn(cIn) >= BASE
  {
    var t := a + b + CarryIn(cIn);
    if t >= BASE then AddOut(1, t - BASE) else AddOut(0, t)
  }

  /** A limb and the borrow bit that leaves it. */
  datatype SubOut = SubOut(borrow: nat, diff: Limb)

  /**
   * One limb of a subtract-with-borrow chain, as SUB and SBB compute it:
   * a - b - borrow-in, wrapped into a limb, with the borrow that leaves it.
   */
  function SubBorrowU64(bIn: nat, a: Limb, b: Limb): (r: SubOut)
    requires bIn <= 1
    ensures r.borrow <= 1
    ensures r.diff + b + bIn == a + r.borrow * BASE
    ensures r.borrow == 1 <==> a < b + bIn
  {
    if a < b + bIn then SubOut(1, a + BASE - b - bIn) else SubOut(0, a - b - bIn)
  }

  /**
   * One iteration of the portable loop of add-cpp.cpp: the carry is
   * recovered from two unsigned wrap-around comparisons, first after adding
   * the incoming carry to x, then after adding y. The two comparisons never
   * both report a wrap, so the carry stays a bit.
   */
  function CompareAddStep(x: Limb, y: Limb, c: nat): (r: AddOut)
    requires c <= 1
    ensures r.carry <= 1
    ensures r.sum == (x + y + c) % BASE
    ensures r.carry == 1 <==> x + y + c >= BASE
  {
    var xc := (x + c) % BASE;
    var c1 := if xc < c then 1 else 0;
    var xc2 := (xc + y) % BASE;
    var c2 := c1 + (if xc2 < y then 1 else 0);
    AddOut(c2, xc2)
  }

  /** The comparison-based step and the intrinsic compute the same limb and carry. */
  lemma CompareStepIsAddCarry(x: Limb, y: Limb, c: nat)
    requires c <= 1
    ensures CompareAddStep(x, y, c) == AddCarryU64(c, x, y)
  {
    var r := CompareAddStep(x, y, c);
    var s := AddCarryU64(c, x, y);
    assert r.sum + r.carry * BASE == x + y + c;
    DivModUnique(BASE, r.carry, r.sum, s.carry, s.sum);
  }

  /** The high half of a 128-bit product of two limbs is at most 2^64 - 2. */
  lemma ProductHighBound(x: Limb, y: Limb)
    ensures (x * y) / BASE <= BASE - 2
  {
    MulLe(x, BASE - 1, y);
    MulLe(y, BASE - 1, BASE - 1);
    assert x * y <= (BASE - 1) * (BASE - 1);
    assert (BASE - 1) * (BASE - 1) == (BASE - 2) * BASE + 1;
  }

  /**
   * `mulUnit1`: the exact double-width product of two limbs, split into a
   * high limb and a low limb. Nothing is lost, and the high limb can never
   * be all ones.
   */
  function MulUnit1(x: Limb, y: Limb): (r: Wide)
    ensures r.hi * BASE + r.lo == x * y
    ensures r.hi <= BASE - 2
  {
    ProductHighBound(x, y);
    Wide((x * y) / BASE, (x * y) % BASE)
  }

  /**
   * One link of a carry chain: if the first i limbs and carry c are worth
   * x[..i] + y[..i], then limb i with its carry-out is worth one limb more.
   */
  lemma ChainStep(zs: seq<Limb>, xs: seq<Limb>, ys: seq<Limb>, i: nat, c: nat, s: AddOut)
    requires |zs| == i && i < |xs| == |ys| && c <= 1
    requires Val(zs) + c * Pow(i) == Val(xs[..i]) + Val(ys[..i])
    requires s.sum + s.carry * BASE == xs[i] + ys[i] + c
    ensures Val(zs + [s.sum]) + s.carry * Pow(i + 1) == Val(xs[..i + 1]) + Val(ys[..i + 1])
  {
    ValAppend(zs, s.sum);
    ValPrefixStep(xs, i);
    ValPrefixStep(ys, i);
    assert Pow(i + 1) == BASE * Pow(i);
    StepAlg(Val(zs), s.sum, s.carry, c, Pow(i), Val(xs[..i]), Val(ys[..i]), xs[i], ys[i]);
  }

  lemma StepAlg(vz: int, sum: int, carry: int, c: int, p: int, vx: int, vy: int, xi: int, yi: int)
    requires vz + c * p == vx + vy
    requires sum + carry * BASE == xi + yi + c
    ensures vz + sum * p + carry * (BASE * p) == vx + xi * p + vy + yi * p
  {
    calc {
      vz + sum * p + carry * (BASE * p);
      vz + (sum + carry * BASE) * p;
      vz + (xi + yi + c) * p;
    }
  }

  /**
   * One link of a borrow chain: if the first i limbs and borrow c satisfy
   * z + y[..i] == x[..i] + c * 2^(64i), one more limb keeps that balance.
   */
  lemma BorrowStep(zs: seq<Limb>, xs: seq<Limb>, ys: seq<Limb>, i: nat, c: nat, s: SubOut)
    requires |zs| == i && i < |xs| == |ys| && c <= 1
    requires Val(zs) + Val(ys[..i]) == Val(xs[..i]) + c * Pow(i)
    requires s.diff + ys[i] + c == xs[i] + s.borrow * BASE
    ensures Val(zs + [s.diff]) + Val(ys[..i + 1]) == Val(xs[..i + 1]) + s.borrow * Pow(i + 1)
  {
    ValAppend(zs, s.diff);
    ValPrefixStep(xs, i);
    ValPrefixStep(ys, i);
    assert Pow(i + 1) == BASE * Pow(i);
    BorrowAlg(Val(zs), s.diff, s.borrow, c, Pow(i), Val(xs[..i]), Val(ys[..i]), xs[i], ys[i]);
  }

  lemma BorrowAlg(vz: int, diff: int, borrow: int, c: int, p: int, vx: int, vy: int, xi: int, yi: int)
    requires vz + vy == vx + c * p
    requires diff + yi + c == xi + borrow * BASE
    ensures vz + diff * p + vy + yi * p == vx + xi * p + borrow * (BASE * p)
  {
    calc {
      vz + diff * p + vy + yi * p;
      vx + c * p + (diff + yi) * p;
      vx + (diff + yi + c) * p;
      vx + (xi + borrow * BASE) * p;
    }
  }
}
