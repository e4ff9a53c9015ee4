/**
 * add-extint.cpp: `mulPre256`, a 256-bit by 64-bit multiply through
 * Clang's wide integer types: the 320-bit product is split into its low
 * 256 bits (stored) and its high 64 bits (returned).
 */
module AddExtInt {
  import opened Limbs
  import MulUnitCpp

  /** 2^256, the modulus of `unsigned _ExtInt(256)`. */
  const TWO256: nat := BASE * BASE * BASE * BASE

  /** 2^320, the modulus of `unsigned _ExtInt(256+64)`. */
  const TWO320: nat := TWO256 * BASE

  /** An `unsigned _ExtInt(256)` value. */
  type U256 = x: nat | x < TWO256

  /** The stored low 256 bits and the returned high limb. */
  datatype Wide256 = Wide256(low: U256, high: Limb)

  /** A 256-bit value times a limb fits in 320 bits. */
  lemma ProductFits(x: U256, y: Limb)
    ensures x * y < TWO320
  {
    MulLe(y, BASE - 1, x);
    MulStep(x, TWO256 - x, BASE - 1);
  }

  /**
   * `mulPre256(pz, px, y)`: the 320-bit product (reduced modulo 2^320 as the
   * type would) never wraps, so `*pz` is the product modulo 2^256 and the
   * return value is the product divided by 2^256, which fits in 64 bits.
   */
  function MulPre256(x: U256, y: Limb): (r: Wide256)
    ensures r.low + r.high * TWO256 == x * y
    ensures r.low == (x * y) % TWO256 && r.high == (x * y) / TWO256
    ensures y == 0 ==> r == Wide256(0, 0)
    ensures y == 1 ==> r == Wide256(x, 0)
  {
    ProductFits(x, y);
    var z := (x * y) % TWO320;
    assert z == x * y;
    Wide256(z % TWO256, (z / TWO256) % BASE)
  }

  /**
   * The wide-integer kernel and the limb kernel `mulUnit4` agree: the
   * stored 256 bits are the four limbs of mulUnit4 and both return the
   * same high limb.
   */
  lemma MatchesMulUnit4(xs: seq<Limb>, y: Limb)
    requires |xs| == 4
    ensures Val(xs) < TWO256 && Val(MulUnitCpp.MulUnit4(xs, y).z) < TWO256
    ensures MulPre256(Val(xs), y)
            == Wide256(Val(MulUnitCpp.MulUnit4(xs, y).z), MulUnitCpp.MulUnit4(xs, y).high)
  {
    var p := MulUnitCpp.MulUnit4(xs, y);
    assert Pow(4) == TWO256;
    ValBound(xs);
    ValBound(p.z);
    var r := MulPre256(Val(xs), y);
    DivModUnique(TWO256, p.high, Val(p.z), r.high, r.low);
  }
}
