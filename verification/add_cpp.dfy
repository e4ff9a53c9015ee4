/**
 * add-cpp.cpp: the portable N-limb add. Memory is a flat array of limbs and
 * the pointers z, x, y are indices into it, so the aliasing the source
 * permits (z == x, z == y) is part of the model.
 */
module AddCpp {
  import opened Limbs
  import opened Carry
  import MulUnitCpp

  /**
   * Writing out[0..n) never clobbers a later input limb in[j], j > i:
   * the output starts at or below the input, or lies wholly above it.
   */
  predicate NoLaterAlias(out: nat, inp: nat, n: nat)
  {
    out <= inp || inp + n <= out
  }

  /**
   * `addT<N>(z, x, y)`: carry 0 before limb 0; each limb reads x[i] and
   * y[i], writes z[i] and derives the next carry from two wrap-around
   * comparisons. Only z[0..N) changes; the limbs written and the carry
   * returned are those of x + y as read before the call, whether z is
   * separate from x and y or equal to one of them.
   */
  method AddT(mem: seq<Limb>, z: nat, x: nat, y: nat, n: nat) returns (res: seq<Limb>, c: nat)
    requires z + n <= |mem| && x + n <= |mem| && y + n <= |mem|
    requires NoLaterAlias(z, x, n) && NoLaterAlias(z, y, n)
    ensures |res| == |mem|
    ensures forall k :: 0 <= k < |mem| && !(z <= k < z + n) ==> res[k] == mem[k]
    ensures c <= 1
    ensures Val(res[z..z + n]) + c * Pow(n) == Val(mem[x..x + n]) + Val(mem[y..y + n])
    ensures MulUnitCpp.Sum(res[z..z + n], c) == MulUnitCpp.Add(mem[x..x + n], mem[y..y + n])
  {
    var xs, ys := mem[x..x + n], mem[y..y + n];
    ghost var zs: seq<Limb> := [];
    res := mem;
    c := 0;
    var i := 0;
    while i < n
      invariant 0 <= i <= n
      invariant |res| == |mem| && |zs| == i
      invariant c <= 1
      invariant forall k :: 0 <= k < |mem| && !(z <= k < z + i) ==> res[k] == mem[k]
      invariant forall k :: 0 <= k < i ==> res[z + k] == zs[k]
      invariant Val(zs) + c * Pow(i) == Val(xs[..i]) + Val(ys[..i])
    {
      ReadsUntouched(mem, res, z, x, y, n, i);
      var s := CompareAddStep(res[x + i], res[y + i], c);
      ChainStep(zs, xs, ys, i, c, s);
      res := res[z + i := s.sum];
      zs := zs + [s.sum];
      c := s.carry;
      i := i + 1;
    }
    assert res[z..z + n] == zs;
    assert xs[..n] == xs && ys[..n] == ys;
    MulUnitCpp.AddUnique(xs, ys, zs, c);
  }

  /** Limb i of x and of y has not been overwritten by z[0..i). */
  lemma ReadsUntouched(mem: seq<Limb>, res: seq<Limb>, z: nat, x: nat, y: nat, n: nat, i: nat)
    requires z + n <= |mem| && x + n <= |mem| && y + n <= |mem| && i < n
    requires NoLaterAlias(z, x, n) && NoLaterAlias(z, y, n)
    requires |res| == |mem|
    requires forall k :: 0 <= k < |mem| && !(z <= k < z + i) ==> res[k] == mem[k]
    ensures res[x + i] == mem[x..x + n][i] && res[y + i] == mem[y..y + n][i]
  {
  }

  /** `add4`: the four-limb instance. */
  method Add4(mem: seq<Limb>, z: nat, x: nat, y: nat) returns (res: seq<Limb>, c: nat)
    requires z + 4 <= |mem| && x + 4 <= |mem| && y + 4 <= |mem|
    requires NoLaterAlias(z, x, 4) && NoLaterAlias(z, y, 4)
    ensures |res| == |mem|
    ensures forall k :: 0 <= k < |mem| && !(z <= k < z + 4) ==> res[k] == mem[k]
    ensures MulUnitCpp.Sum(res[z..z + 4], c) == MulUnitCpp.Add(mem[x..x + 4], mem[y..y + 4])
  {
    res, c := AddT(mem, z, x, y, 4);
  }
}
