/**
 * What the code gen_add.py's helpers emit computes, helper by helper, and
 * gen_fp_add's body as a whole: z = x + y, or x + y - p when x + y >= p,
 * taken modulo 2^(64N).
 */
module FpAddRun {
  import opened Limbs
  import opened Carry
  import opened Wrappers
  import opened X86
  import MulUnitCpp
  import AddXbyak
  import opened GenAdd

  // ---------------------------------------------------------------------
  // Register lists
  // ---------------------------------------------------------------------

  /** No register appears twice in rs. */
  predicate Distinct(rs: seq<Reg>)
  {
    |rs| == 0 || (Distinct(rs[..|rs| - 1]) && rs[|rs| - 1] !in rs[..|rs| - 1])
  }

  /** Register k of a distinct list is not among the ones before it, and the prefix is distinct. */
  lemma {:induction false} DistinctAt(rs: seq<Reg>, k: nat)
    requires Distinct(rs) && k < |rs|
    ensures rs[k] !in rs[..k] && Distinct(rs[..k])
  {
    var n := |rs| - 1;
    if k < n {
      DistinctAt(rs[..n], k);
      assert rs[..n][..k] == rs[..k];
    }
  }

  /** Two positions of a distinct list hold different registers. */
  lemma DistinctIndices(rs: seq<Reg>, i: nat, j: nat)
    requires Distinct(rs) && i < j < |rs|
    ensures rs[i] != rs[j]
  {
    DistinctAt(rs, j);
    assert rs[i] == rs[..j][i];
  }

  /** The register file after writing vs[i] to rs[i], in increasing i. */
  function SetRegs(regs: map<Reg, Limb>, rs: seq<Reg>, vs: seq<Limb>): map<Reg, Limb>
    requires |rs| == |vs|
  {
    if |rs| == 0 then regs
    else SetRegs(regs, rs[..|rs| - 1], vs[..|vs| - 1])[rs[|rs| - 1] := vs[|vs| - 1]]
  }

  /** The values of the registers rs. */
  function RegVals(m: Machine, rs: seq<Reg>): (vs: seq<Limb>)
    ensures |vs| == |rs|
    ensures forall i :: 0 <= i < |rs| ==> vs[i] == Get(m, rs[i])
  {
    seq(|rs|, i requires 0 <= i < |rs| => Get(m, rs[i]))
  }

  /** Writing rs leaves every other register as it was. */
  lemma {:induction false} SetRegsOther(regs: map<Reg, Limb>, rs: seq<Reg>, vs: seq<Limb>, r: Reg)
    requires |rs| == |vs| && r !in rs
    ensures (r in SetRegs(regs, rs, vs)) == (r in regs)
    ensures r in regs ==> SetRegs(regs, rs, vs)[r] == regs[r]
  {
    if |rs| > 0 {
      SetRegsOther(regs, rs[..|rs| - 1], vs[..|vs| - 1], r);
    }
  }

  /** Writing distinct registers rs leaves vs[i] in rs[i]. */
  lemma {:induction false} SetRegsAt(regs: map<Reg, Limb>, rs: seq<Reg>, vs: seq<Limb>, i: nat)
    requires |rs| == |vs| && Distinct(rs) && i < |rs|
    ensures rs[i] in SetRegs(regs, rs, vs) && SetRegs(regs, rs, vs)[rs[i]] == vs[i]
  {
    var k := |rs| - 1;
    if i < k {
      DistinctAt(rs, k);
      SetRegsAt(regs, rs[..k], vs[..k], i);
      DistinctIndices(rs, i, k);
    }
  }

  /** Reading back distinct registers just written gives the values written. */
  lemma RegValsOfSet(m: Machine, rs: seq<Reg>, vs: seq<Limb>, m': Machine)
    requires |rs| == |vs| && Distinct(rs) && m'.regs == SetRegs(m.regs, rs, vs)
    ensures RegVals(m', rs) == vs
  {
    forall i | 0 <= i < |rs|
      ensures Get(m', rs[i]) == vs[i]
    {
      SetRegsAt(m.regs, rs, vs, i);
    }
  }

  /** A register outside rs reads the same after writing rs. */
  lemma GetOther(m: Machine, rs: seq<Reg>, vs: seq<Limb>, m': Machine, r: Reg)
    requires |rs| == |vs| && m'.regs == SetRegs(m.regs, rs, vs) && r !in rs
    ensures Get(m', r) == Get(m, r)
  {
    SetRegsOther(m.regs, rs, vs, r);
  }

  /** Registers none of which was written read as before. */
  lemma RegValsOther(m: Machine, rs: seq<Reg>, vs: seq<Limb>, m': Machine, qs: seq<Reg>)
    requires |rs| == |vs| && m'.regs == SetRegs(m.regs, rs, vs) && Disjoint(rs, qs)
    ensures RegVals(m', qs) == RegVals(m, qs)
  {
    forall i | 0 <= i < |qs|
      ensures Get(m', qs[i]) == Get(m, qs[i])
    {
      GetOther(m, rs, vs, m', qs[i]);
    }
  }

  /** Writing one register outside qs leaves the values of qs alone. */
  lemma RegValsUpdate(m: Machine, r: Reg, v: Limb, m': Machine, qs: seq<Reg>)
    requires m'.regs == m.regs[r := v] && r !in qs
    ensures RegVals(m', qs) == RegVals(m, qs)
  {
    forall i | 0 <= i < |qs|
      ensures Get(m', qs[i]) == Get(m, qs[i])
    {
      assert qs[i] != r;
    }
  }

  /** Writing one more register extends the write. */
  lemma SetRegsSnoc(regs: map<Reg, Limb>, rs: seq<Reg>, vs: seq<Limb>, r: Reg, v: Limb)
    requires |rs| == |vs|
    ensures SetRegs(regs, rs + [r], vs + [v]) == SetRegs(regs, rs, vs)[r := v]
  {
    assert (rs + [r])[..|rs|] == rs;
    assert (vs + [v])[..|vs|] == vs;
  }

  /** Running two programs in sequence. */
  lemma RunSeq(m: Machine, a: seq<Instr>, b: seq<Instr>, m1: Machine, m2: Machine)
    requires Run(m, a) == Some(m1) && Run(m1, b) == Some(m2)
    ensures Run(m, a + b) == Some(m2)
  {
    RunAppend(m, a, b);
  }

  // ---------------------------------------------------------------------
  // add_rmm
  // ---------------------------------------------------------------------

  /**
   * The first k limbs of xs + ys as add_rmm's ADD/ADC chain produces them,
   * limb 0 first; the carry into limb 0 is 0.
   */
  function AddChain(xs: seq<Limb>, ys: seq<Limb>, k: nat): (a: MulUnitCpp.Sum)
    requires |xs| == |ys| && k <= |xs|
    ensures |a.z| == k && a.carry <= 1
    ensures k == 0 ==> a.carry == 0
  {
    if k == 0 then MulUnitCpp.Sum([], 0)
    else
      var a := AddChain(xs, ys, k - 1);
      var s := AddCarryU64(a.carry, xs[k - 1], ys[k - 1]);
      MulUnitCpp.Sum(a.z + [s.sum], s.carry)
  }

  /** The chain's k limbs and carry are the value of the first k limbs of xs plus ys. */
  lemma {:induction false} AddChainVal(xs: seq<Limb>, ys: seq<Limb>, k: nat)
    requires |xs| == |ys| && k <= |xs|
    ensures Val(AddChain(xs, ys, k).z) + AddChain(xs, ys, k).carry * Pow(k) == Val(xs[..k]) + Val(ys[..k])
  {
    if k > 0 {
      var a := AddChain(xs, ys, k - 1);
      AddChainVal(xs, ys, k - 1);
      ChainStep(a.z, xs, ys, k - 1, a.carry, AddCarryU64(a.carry, xs[k - 1], ys[k - 1]));
    }
  }

  /** Run over all limbs, the chain is the reference sum `addT` computes. */
  lemma AddChainIsAdd(xs: seq<Limb>, ys: seq<Limb>)
    requires |xs| == |ys|
    ensures AddChain(xs, ys, |xs|) == MulUnitCpp.Add(xs, ys)
  {
    var a := AddChain(xs, ys, |xs|);
    AddChainVal(xs, ys, |xs|);
    assert xs[..|xs|] == xs && ys[..|ys|] == ys;
    MulUnitCpp.AddUnique(xs, ys, a.z, a.carry);
  }

  /** ADD (k = 0) or ADC (k > 0) `r, [py + 8k]` is one add-with-carry step into r. */
  lemma AddLimbStep(m: Machine, r: Reg, py: Reg, n: nat, k: nat, c: nat)
    requires WellFormed(m) && ValidArray(m, py, n) && k < n
    requires c == if k == 0 then 0 else Bit(m.cf)
    ensures var s := AddCarryU64(c, Get(m, r), m.mem[Slot(m, py, k)]);
            Step(m, if k == 0 then Add(R(r, W64), M(py, 8 * k)) else Adc(R(r, W64), M(py, 8 * k)))
            == Some(Machine(m.regs[r := s.sum], s.carry == 1, m.mem))
  {
    var op := if k == 0 then OpAdd else OpAdc;
    BinaryRegMem(m, op, r, py, n, k);
    AddXbyak.AluIsAddCarry(op, c, Get(m, r), m.mem[Slot(m, py, k)], m.cf);
  }

  /** add_rmm's limb k: `mov r, [px + 8k]` then ADD (k = 0) or ADC `r, [py + 8k]`. */
  lemma RmmLimb(m: Machine, r: Reg, px: Reg, py: Reg, n: nat, k: nat, c: nat)
    requires WellFormed(m) && ValidArray(m, px, n) && ValidArray(m, py, n) && k < n
    requires r != px && r != py
    requires c == if k == 0 then 0 else Bit(m.cf)
    ensures var s := AddCarryU64(c, m.mem[Slot(m, px, k)], m.mem[Slot(m, py, k)]);
            Run(m, RmmLimbCode(r, px, py, k)) == Some(Machine(m.regs[r := s.sum], s.carry == 1, m.mem))
  {
    var code := RmmLimbCode(r, px, py, k);
    var xk := m.mem[Slot(m, px, k)];
    var s := AddCarryU64(c, xk, m.mem[Slot(m, py, k)]);
    var m1 := m.(regs := m.regs[r := xk]);
    MovLoad(m, r, px, n, k);
    assert Get(m1, py) == Get(m, py) && Get(m1, r) == xk;
    assert Slot(m1, py, k) == Slot(m, py, k) && m1.mem == m.mem;
    assert m1.mem[Slot(m1, py, k)] == m.mem[Slot(m, py, k)];
    AddLimbStep(m1, r, py, n, k, c);
    OverwriteReg(m.regs, r, xk, s.sum);
    RunTwo(m, code[0], code[1], m1, Machine(m.regs[r := s.sum], s.carry == 1, m.mem));
    assert code == [code[0], code[1]];
  }

  /** What add_rmm relies on: the arrays lie in memory and t is not a pointer register. */
  predicate RmmCall(m: Machine, t: seq<Reg>, px: Reg, py: Reg)
  {
    && WellFormed(m) && px !in t && py !in t
    && ValidArray(m, px, |t|) && ValidArray(m, py, |t|)
  }

  /** The machine after add_rmm's first k iterations: t[..k] holds the k-limb sum, CF its carry. */
  function RmmState(m: Machine, t: seq<Reg>, px: Reg, py: Reg, k: nat): (mk: Machine)
    requires RmmCall(m, t, px, py) && k <= |t|
    ensures Get(mk, px) == Get(m, px) && Get(mk, py) == Get(m, py) && mk.mem == m.mem
    ensures k > 0 ==> Bit(mk.cf) == AddChain(Array(m, px, |t|), Array(m, py, |t|), k).carry
  {
    if k == 0 then m
    else
      var a := AddChain(Array(m, px, |t|), Array(m, py, |t|), k);
      var mk := Machine(SetRegs(m.regs, t[..k], a.z), a.carry == 1, m.mem);
      GetOther(m, t[..k], a.z, mk, px);
      GetOther(m, t[..k], a.z, mk, py);
      mk
  }

  /** Iteration k of add_rmm moves from the state after k iterations to the one after k + 1. */
  lemma RmmStep(m: Machine, t: seq<Reg>, px: Reg, py: Reg, k: nat)
    requires RmmCall(m, t, px, py) && k < |t|
    ensures Run(RmmState(m, t, px, py, k), RmmLimbCode(t[k], px, py, k)) == Some(RmmState(m, t, px, py, k + 1))
  {
    var n := |t|;
    var xs, ys := Array(m, px, n), Array(m, py, n);
    var m1 := RmmState(m, t, px, py, k);
    var c := AddChain(xs, ys, k).carry;
    assert c == if k == 0 then 0 else Bit(m1.cf);
    assert m1.mem[Slot(m1, px, k)] == xs[k] && m1.mem[Slot(m1, py, k)] == ys[k] by {
      assert Slot(m1, px, k) == Slot(m, px, k) && Slot(m1, py, k) == Slot(m, py, k);
    }
    RmmLimb(m1, t[k], px, py, n, k, c);
    RmmNext(m, t, px, py, k);
  }

  /** The state after k + 1 iterations is the state after k with limb k's add-with-carry applied. */
  lemma RmmNext(m: Machine, t: seq<Reg>, px: Reg, py: Reg, k: nat)
    requires RmmCall(m, t, px, py) && k < |t|
    ensures var xs, ys := Array(m, px, |t|), Array(m, py, |t|);
            var m1 := RmmState(m, t, px, py, k);
            var s := AddCarryU64(AddChain(xs, ys, k).carry, xs[k], ys[k]);
            RmmState(m, t, px, py, k + 1) == Machine(m1.regs[t[k] := s.sum], s.carry == 1, m1.mem)
  {
    var xs, ys := Array(m, px, |t|), Array(m, py, |t|);
    var a := AddChain(xs, ys, k);
    var s := AddCarryU64(a.carry, xs[k], ys[k]);
    var m1 := RmmState(m, t, px, py, k);
    assert m1.regs == SetRegs(m.regs, t[..k], a.z);
    assert t[..k + 1] == t[..k] + [t[k]];
    SetRegsSnoc(m.regs, t[..k], a.z, t[k], s.sum);
  }

  /** Running add_rmm on one more register extends a run that reached the state after k - 1 iterations. */
  lemma RmmExtend(m: Machine, t: seq<Reg>, px: Reg, py: Reg, k: nat)
    requires RmmCall(m, t, px, py) && 0 < k <= |t|
    requires Run(m, AddRmm(t[..k - 1], px, py)) == Some(RmmState(m, t, px, py, k - 1))
    ensures Run(m, AddRmm(t[..k], px, py)) == Some(RmmState(m, t, px, py, k))
  {
    AddRmmSnoc(t, px, py, k);
    RmmStep(m, t, px, py, k - 1);
    RunAppend(m, AddRmm(t[..k - 1], px, py), RmmLimbCode(t[k - 1], px, py, k - 1));
  }

  /** add_rmm on k registers is add_rmm on the first k - 1 followed by limb k - 1's code. */
  lemma AddRmmSnoc(t: seq<Reg>, px: Reg, py: Reg, k: nat)
    requires 0 < k <= |t|
    ensures AddRmm(t[..k], px, py) == AddRmm(t[..k - 1], px, py) + RmmLimbCode(t[k - 1], px, py, k - 1)
  {
    assert t[..k][..k - 1] == t[..k - 1];
  }

  /** add_rmm's first k iterations reach the state after k iterations. */
  lemma {:induction false} RmmPrefix(m: Machine, t: seq<Reg>, px: Reg, py: Reg, k: nat)
    requires RmmCall(m, t, px, py) && k <= |t|
    ensures Run(m, AddRmm(t[..k], px, py)) == Some(RmmState(m, t, px, py, k))
  {
    if k > 0 {
      RmmPrefix(m, t, px, py, k - 1);
      RmmExtend(m, t, px, py, k);
    }
  }

  /**
   * add_rmm: t receives the limbs of [px] + [py] and CF the carry out,
   * exactly the N-limb sum `addT` computes; memory and every other
   * register are left alone.
   */
  lemma AddRmmRun(m: Machine, t: seq<Reg>, px: Reg, py: Reg)
    requires RmmCall(m, t, px, py) && |t| >= 1
    ensures var a := MulUnitCpp.Add(Array(m, px, |t|), Array(m, py, |t|));
            Run(m, AddRmm(t, px, py)) == Some(Machine(SetRegs(m.regs, t, a.z), a.carry == 1, m.mem))
  {
    RmmPrefix(m, t, px, py, |t|);
    assert t[..|t|] == t;
    AddChainIsAdd(Array(m, px, |t|), Array(m, py, |t|));
  }

  // ---------------------------------------------------------------------
  // sub_rm
  // ---------------------------------------------------------------------

  /** Limbs of a difference and the borrow out of the top limb. */
  datatype Diff = Diff(z: seq<Limb>, borrow: nat)

  /** The first k limbs of xs - ys as sub_rm's SUB/SBB chain produces them; no borrow into limb 0. */
  function SubChain(xs: seq<Limb>, ys: seq<Limb>, k: nat): (d: Diff)
    requires |xs| == |ys| && k <= |xs|
    ensures |d.z| == k && d.borrow <= 1
    ensures k == 0 ==> d.borrow == 0
  {
    if k == 0 then Diff([], 0)
    else
      var d := SubChain(xs, ys, k - 1);
      var s := SubBorrowU64(d.borrow, xs[k - 1], ys[k - 1]);
      Diff(d.z + [s.diff], s.borrow)
  }

  /** The chain's k limbs plus the first k limbs of ys are the first k limbs of xs, plus the borrow's weight. */
  lemma {:induction false} SubChainVal(xs: seq<Limb>, ys: seq<Limb>, k: nat)
    requires |xs| == |ys| && k <= |xs|
    ensures Val(SubChain(xs, ys, k).z) + Val(ys[..k]) == Val(xs[..k]) + SubChain(xs, ys, k).borrow * Pow(k)
  {
    if k > 0 {
      var d := SubChain(xs, ys, k - 1);
      SubChainVal(xs, ys, k - 1);
      BorrowStep(d.z, xs, ys, k - 1, d.borrow, SubBorrowU64(d.borrow, xs[k - 1], ys[k - 1]));
    }
  }

  /** The N-limb difference a - b, limbs and final borrow. */
  function Subtract(a: seq<Limb>, b: seq<Limb>): (d: Diff)
    requires |a| == |b|
    ensures |d.z| == |a| && d.borrow <= 1
  {
    SubChain(a, b, |a|)
  }

  /** The difference's limbs plus b are a, plus the borrow's weight 2^(64N). */
  lemma SubtractVal(a: seq<Limb>, b: seq<Limb>)
    requires |a| == |b|
    ensures Val(Subtract(a, b).z) + Val(b) == Val(a) + Subtract(a, b).borrow * Pow(|a|)
  {
    SubChainVal(a, b, |a|);
    assert a[..|a|] == a && b[..|b|] == b;
  }

  /**
   * What the difference means: the limbs are a - b modulo 2^(64N) and the
   * borrow is set exactly when a < b.
   */
  lemma SubMeaning(a: seq<Limb>, b: seq<Limb>)
    requires |a| == |b|
    ensures Val(Subtract(a, b).z) == (Val(a) - Val(b)) % Pow(|a|)
    ensures Subtract(a, b).borrow == 1 <==> Val(a) < Val(b)
  {
    SubChainVal(a, b, |a|);
    assert a[..|a|] == a && b[..|b|] == b;
    DiffMeaning(a, b, Subtract(a, b));
  }

  lemma DiffMeaning(a: seq<Limb>, b: seq<Limb>, d: Diff)
    requires |a| == |b| == |d.z| && d.borrow <= 1
    requires Val(d.z) + Val(b) == Val(a) + d.borrow * Pow(|a|)
    ensures Val(d.z) == (Val(a) - Val(b)) % Pow(|a|)
    ensures d.borrow == 1 <==> Val(a) < Val(b)
  {
    ValBound(d.z);
    ValBound(a);
    ValBound(b);
    SubAlg(Val(d.z), Val(a), Val(b), d.borrow, Pow(|a|));
  }

  lemma SubAlg(vz: int, va: int, vb: int, c: int, p: int)
    requires 0 <= vz < p && 0 <= va < p && 0 <= vb < p && (c == 0 || c == 1)
    requires vz + vb == va + c * p
    ensures vz == (va - vb) % p
    ensures c == 1 <==> va < vb
  {
    ModOfShift(vz, va - vb, c, p);
  }

  lemma ModOfShift(v: int, w: int, c: int, p: int)
    requires 0 <= v < p && v == w + c * p
    ensures v == w % p
  {
    ModUnique(w, p, -c, v);
  }

  /** The remainder is the unique r in [0, p) with w = q * p + r. */
  lemma ModUnique(w: int, p: int, q: int, r: int)
    requires p > 0 && 0 <= r < p && w == q * p + r
    ensures w % p == r
  {
    var q0, r0 := w / p, w % p;
    assert q0 * p + r0 == q * p + r;
    if q < q0 {
      MulGap(q, q0 - q, p);
    } else if q0 < q {
      MulGap(q0, q - q0, p);
    }
  }

  lemma MulGap(a: int, k: int, p: int)
    requires k > 0 && p > 0
    ensures (a + k) * p >= a * p + p
  {
    assert (a + k) * p == a * p + k * p;
    assert (k - 1) * p >= 0;
  }

  /** SUB (k = 0) or SBB (k > 0) is one subtract-with-borrow step. */
  lemma AluIsSubBorrow(op: AluOp, c: nat, a: Limb, b: Limb, cf: bool)
    requires (op == OpSub && c == 0) || (op == OpSbb && c == Bit(cf))
    ensures Alu(op, W64, a, b, cf) == (SubBorrowU64(c, a, b).diff, SubBorrowU64(c, a, b).borrow == 1)
  {
    var t := a - b - c;
    if t < 0 {
      assert t % BASE == t + BASE;
    } else {
      assert t % BASE == t;
    }
  }

  /** sub_rm's iteration k on register r: r -= [px + 8k] with borrow. */
  lemma SubLimbStep(m: Machine, r: Reg, px: Reg, n: nat, k: nat, c: nat)
    requires WellFormed(m) && ValidArray(m, px, n) && k < n
    requires c == if k == 0 then 0 else Bit(m.cf)
    ensures var s := SubBorrowU64(c, Get(m, r), m.mem[Slot(m, px, k)]);
            Run(m, [SubLimbInstr(r, px, k)]) == Some(Machine(m.regs[r := s.diff], s.borrow == 1, m.mem))
  {
    var op := if k == 0 then OpSub else OpSbb;
    BinaryRegMem(m, op, r, px, n, k);
    AluIsSubBorrow(op, c, Get(m, r), m.mem[Slot(m, px, k)], m.cf);
    RunOne(m, SubLimbInstr(r, px, k));
  }

  /** What sub_rm relies on: t are distinct registers other than px, and [px] lies in memory. */
  predicate SubCall(m: Machine, t: seq<Reg>, px: Reg)
  {
    WellFormed(m) && px !in t && Distinct(t) && ValidArray(m, px, |t|)
  }

  /** The machine after sub_rm's first k iterations: t[..k] holds the k-limb difference, CF its borrow. */
  function SubState(m: Machine, t: seq<Reg>, px: Reg, k: nat): (mk: Machine)
    requires SubCall(m, t, px) && k <= |t|
    ensures Get(mk, px) == Get(m, px) && mk.mem == m.mem
    ensures k > 0 ==> Bit(mk.cf) == SubChain(RegVals(m, t), Array(m, px, |t|), k).borrow
  {
    if k == 0 then m
    else
      var d := SubChain(RegVals(m, t), Array(m, px, |t|), k);
      var mk := Machine(SetRegs(m.regs, t[..k], d.z), d.borrow == 1, m.mem);
      GetOther(m, t[..k], d.z, mk, px);
      mk
  }

  /** Before iteration k, register t[k] still holds its entry value. */
  lemma SubUntouched(m: Machine, t: seq<Reg>, px: Reg, k: nat)
    requires SubCall(m, t, px) && k < |t|
    ensures Get(SubState(m, t, px, k), t[k]) == Get(m, t[k])
  {
    if k > 0 {
      DistinctAt(t, k);
      var d := SubChain(RegVals(m, t), Array(m, px, |t|), k);
      GetOther(m, t[..k], d.z, SubState(m, t, px, k), t[k]);
    }
  }

  /** The state after k + 1 iterations is the state after k with limb k's subtract-with-borrow applied. */
  lemma SubNext(m: Machine, t: seq<Reg>, px: Reg, k: nat)
    requires SubCall(m, t, px) && k < |t|
    ensures var xs, ys := RegVals(m, t), Array(m, px, |t|);
            var m1 := SubState(m, t, px, k);
            var s := SubBorrowU64(SubChain(xs, ys, k).borrow, xs[k], ys[k]);
            SubState(m, t, px, k + 1) == Machine(m1.regs[t[k] := s.diff], s.borrow == 1, m1.mem)
  {
    var xs, ys := RegVals(m, t), Array(m, px, |t|);
    var d := SubChain(xs, ys, k);
    var s := SubBorrowU64(d.borrow, xs[k], ys[k]);
    var m1 := SubState(m, t, px, k);
    assert m1.regs == SetRegs(m.regs, t[..k], d.z);
    assert t[..k + 1] == t[..k] + [t[k]];
    SetRegsSnoc(m.regs, t[..k], d.z, t[k], s.diff);
  }

  /** Iteration k of sub_rm moves from the state after k iterations to the one after k + 1. */
  lemma SubStep(m: Machine, t: seq<Reg>, px: Reg, k: nat)
    requires SubCall(m, t, px) && k < |t|
    ensures Run(SubState(m, t, px, k), [SubLimbInstr(t[k], px, k)]) == Some(SubState(m, t, px, k + 1))
  {
    var n := |t|;
    var xs, ys := RegVals(m, t), Array(m, px, n);
    var m1 := SubState(m, t, px, k);
    var c := SubChain(xs, ys, k).borrow;
    assert c == if k == 0 then 0 else Bit(m1.cf);
    SubUntouched(m, t, px, k);
    assert m1.mem[Slot(m1, px, k)] == ys[k] by {
      assert Slot(m1, px, k) == Slot(m, px, k);
    }
    SubLimbStep(m1, t[k], px, n, k, c);
    SubNext(m, t, px, k);
  }

  /** Running sub_rm on one more register extends a run that reached the state after k - 1 iterations. */
  lemma SubExtend(m: Machine, t: seq<Reg>, px: Reg, k: nat)
    requires SubCall(m, t, px) && 0 < k <= |t|
    requires Run(m, SubRm(t[..k - 1], px)) == Some(SubState(m, t, px, k - 1))
    ensures Run(m, SubRm(t[..k], px)) == Some(SubState(m, t, px, k))
  {
    assert SubRm(t[..k], px) == SubRm(t[..k - 1], px) + [SubLimbInstr(t[k - 1], px, k - 1)] by {
      assert t[..k][..k - 1] == t[..k - 1];
    }
    SubStep(m, t, px, k - 1);
    RunAppend(m, SubRm(t[..k - 1], px), [SubLimbInstr(t[k - 1], px, k - 1)]);
  }

  /** sub_rm's first k iterations reach the state after k iterations. */
  lemma {:induction false} SubPrefix(m: Machine, t: seq<Reg>, px: Reg, k: nat)
    requires SubCall(m, t, px) && k <= |t|
    ensures Run(m, SubRm(t[..k], px)) == Some(SubState(m, t, px, k))
  {
    if k > 0 {
      SubPrefix(m, t, px, k - 1);
      SubExtend(m, t, px, k);
    }
  }

  /**
   * sub_rm: t receives the limbs of t - [px] modulo 2^(64N) and CF the
   * borrow out; memory and every other register are left alone.
   */
  lemma SubRmRun(m: Machine, t: seq<Reg>, px: Reg)
    requires SubCall(m, t, px) && |t| >= 1
    ensures var d := Subtract(RegVals(m, t), Array(m, px, |t|));
            Run(m, SubRm(t, px)) == Some(Machine(SetRegs(m.regs, t, d.z), d.borrow == 1, m.mem))
  {
    SubPrefix(m, t, px, |t|);
    assert t[..|t|] == t;
  }

  // ---------------------------------------------------------------------
  // copy_rr and cmovc_rr
  // ---------------------------------------------------------------------

  /** No register of b is one of a. */
  predicate Disjoint(a: seq<Reg>, b: seq<Reg>)
  {
    forall i | 0 <= i < |b| :: b[i] !in a
  }

  /** What `op t1[i], t2[i]` leaves in t1[i], for each i, read from the machine before the loop. */
  function Moved(m: Machine, op: AluOp, t1: seq<Reg>, t2: seq<Reg>): (vs: seq<Limb>)
    requires |t1| <= |t2|
    ensures |vs| == |t1|
  {
    if op == OpMov || m.cf then RegVals(m, t2[..|t1|]) else RegVals(m, t1)
  }

  /** `mov r1, r2` copies r2 into r1; `cmovc r1, r2` does so only when CF is set. */
  lemma RegInstrStep(m: Machine, op: AluOp, r1: Reg, r2: Reg)
    requires op == OpMov || op == OpCmovc
    ensures Run(m, [RegInstr(op, r1, r2)])
            == Some(m.(regs := m.regs[r1 := if op == OpMov || m.cf then Get(m, r2) else Get(m, r1)]))
  {
    BinaryRegReg(m, op, r1, r2);
    RunOne(m, RegInstr(op, r1, r2));
  }

  /** What the register loop relies on: t1 distinct, and no source register among the targets. */
  predicate LoopCall(op: AluOp, t1: seq<Reg>, t2: seq<Reg>)
  {
    (op == OpMov || op == OpCmovc) && |t1| <= |t2| && Distinct(t1) && Disjoint(t1, t2[..|t1|])
  }

  /** The machine after the loop's first k iterations. */
  function LoopState(m: Machine, op: AluOp, t1: seq<Reg>, t2: seq<Reg>, k: nat): (mk: Machine)
    requires LoopCall(op, t1, t2) && k <= |t1|
    ensures mk.cf == m.cf && mk.mem == m.mem
  {
    m.(regs := SetRegs(m.regs, t1[..k], Moved(m, op, t1, t2)[..k]))
  }

  /** Before iteration k, neither t1[k] nor t2[k] has been written. */
  lemma LoopUntouched(m: Machine, op: AluOp, t1: seq<Reg>, t2: seq<Reg>, k: nat)
    requires LoopCall(op, t1, t2) && k < |t1|
    ensures var mk := LoopState(m, op, t1, t2, k);
            Get(mk, t1[k]) == Get(m, t1[k]) && Get(mk, t2[k]) == Get(m, t2[k])
  {
    var mk := LoopState(m, op, t1, t2, k);
    var vs := Moved(m, op, t1, t2)[..k];
    DistinctAt(t1, k);
    GetOther(m, t1[..k], vs, mk, t1[k]);
    assert t2[..|t1|][k] == t2[k];
    assert t2[k] !in t1[..k] by {
      assert t2[k] !in t1;
    }
    GetOther(m, t1[..k], vs, mk, t2[k]);
  }

  /** The state after k + 1 iterations is the state after k with t1[k] set. */
  lemma LoopNext(m: Machine, op: AluOp, t1: seq<Reg>, t2: seq<Reg>, k: nat)
    requires LoopCall(op, t1, t2) && k < |t1|
    ensures var mk := LoopState(m, op, t1, t2, k);
            LoopState(m, op, t1, t2, k + 1)
            == mk.(regs := mk.regs[t1[k] := if op == OpMov || m.cf then Get(m, t2[k]) else Get(m, t1[k])])
  {
    var vs := Moved(m, op, t1, t2);
    assert t2[..|t1|][k] == t2[k];
    assert vs[k] == if op == OpMov || m.cf then Get(m, t2[k]) else Get(m, t1[k]);
    assert t1[..k + 1] == t1[..k] + [t1[k]];
    assert vs[..k + 1] == vs[..k] + [vs[k]];
    SetRegsSnoc(m.regs, t1[..k], vs[..k], t1[k], vs[k]);
  }

  /** Iteration k of the loop moves from the state after k iterations to the one after k + 1. */
  lemma LoopStep(m: Machine, op: AluOp, t1: seq<Reg>, t2: seq<Reg>, k: nat)
    requires LoopCall(op, t1, t2) && k < |t1|
    ensures Run(LoopState(m, op, t1, t2, k), [RegInstr(op, t1[k], t2[k])]) == Some(LoopState(m, op, t1, t2, k + 1))
  {
    LoopUntouched(m, op, t1, t2, k);
    RegInstrStep(LoopState(m, op, t1, t2, k), op, t1[k], t2[k]);
    LoopNext(m, op, t1, t2, k);
  }

  /** Running the loop on one more register extends a run that reached the state after k - 1 iterations. */
  lemma LoopExtend(m: Machine, op: AluOp, t1: seq<Reg>, t2: seq<Reg>, k: nat)
    requires LoopCall(op, t1, t2) && 0 < k <= |t1|
    requires Run(m, RegLoop(op, t1[..k - 1], t2)) == Some(LoopState(m, op, t1, t2, k - 1))
    ensures Run(m, RegLoop(op, t1[..k], t2)) == Some(LoopState(m, op, t1, t2, k))
  {
    assert RegLoop(op, t1[..k], t2) == RegLoop(op, t1[..k - 1], t2) + [RegInstr(op, t1[k - 1], t2[k - 1])] by {
      assert t1[..k][..k - 1] == t1[..k - 1];
    }
    LoopStep(m, op, t1, t2, k - 1);
    RunAppend(m, RegLoop(op, t1[..k - 1], t2), [RegInstr(op, t1[k - 1], t2[k - 1])]);
  }

  /** The loop's first k iterations reach the state after k iterations. */
  lemma {:induction false} LoopPrefix(m: Machine, op: AluOp, t1: seq<Reg>, t2: seq<Reg>, k: nat)
    requires LoopCall(op, t1, t2) && k <= |t1|
    ensures Run(m, RegLoop(op, t1[..k], t2)) == Some(LoopState(m, op, t1, t2, k))
  {
    if k == 0 {
      assert LoopState(m, op, t1, t2, 0) == m;
    } else {
      LoopPrefix(m, op, t1, t2, k - 1);
      LoopExtend(m, op, t1, t2, k);
    }
  }

  /**
   * copy_rr (op = mov) and cmovc_rr (op = cmovc): every t1[i] receives
   * t2[i] as it was before the loop (for cmovc only when CF is set, which
   * the loop never changes); nothing else changes.
   */
  lemma RegLoopRun(m: Machine, op: AluOp, t1: seq<Reg>, t2: seq<Reg>)
    requires LoopCall(op, t1, t2)
    ensures Run(m, RegLoop(op, t1, t2)) == Some(m.(regs := SetRegs(m.regs, t1, Moved(m, op, t1, t2))))
  {
    LoopPrefix(m, op, t1, t2, |t1|);
    assert t1[..|t1|] == t1;
    assert Moved(m, op, t1, t2)[..|t1|] == Moved(m, op, t1, t2);
  }

  // ---------------------------------------------------------------------
  // store
  // ---------------------------------------------------------------------

  /** Memory with vs written at slots base, base + 1, ... */
  function Splice(mem: seq<Limb>, base: nat, vs: seq<Limb>): (r: seq<Limb>)
    requires base + |vs| <= |mem|
    ensures |r| == |mem|
  {
    mem[..base] + vs + mem[base + |vs|..]
  }

  /** Writing the slot right after a spliced run extends the run. */
  lemma SpliceSnoc(mem: seq<Limb>, base: nat, vs: seq<Limb>, v: Limb)
    requires base + |vs| < |mem|
    ensures Splice(mem, base, vs)[base + |vs| := v] == Splice(mem, base, vs + [v])
  {
    var a := Splice(mem, base, vs)[base + |vs| := v];
    var b := Splice(mem, base, vs + [v]);
    forall i | 0 <= i < |mem|
      ensures a[i] == b[i]
    {
      if i < base {
      } else if i < base + |vs| {
        assert a[i] == vs[i - base];
      } else if i > base + |vs| {
      }
    }
  }

  /** The machine after store's first k iterations: [px] begins with the first k of t. */
  function StoreState(m: Machine, px: Reg, t: seq<Reg>, k: nat): (mk: Machine)
    requires WellFormed(m) && ValidArray(m, px, |t|) && k <= |t|
    ensures mk.regs == m.regs && mk.cf == m.cf && |mk.mem| == |m.mem|
  {
    m.(mem := Splice(m.mem, Get(m, px) / 8, RegVals(m, t[..k])))
  }

  /** Iteration k of store moves from the state after k iterations to the one after k + 1. */
  lemma StoreStep(m: Machine, px: Reg, t: seq<Reg>, k: nat)
    requires WellFormed(m) && ValidArray(m, px, |t|) && k < |t|
    ensures Run(StoreState(m, px, t, k), [Mov(M(px, 8 * k), R(t[k], W64))]) == Some(StoreState(m, px, t, k + 1))
  {
    var mk := StoreState(m, px, t, k);
    var base := Get(m, px) / 8;
    assert Get(mk, px) == Get(m, px) && Get(mk, t[k]) == Get(m, t[k]);
    MovStore(mk, px, |t|, k, t[k]);
    RunOne(mk, Mov(M(px, 8 * k), R(t[k], W64)));
    assert t[..k + 1] == t[..k] + [t[k]];
    assert RegVals(m, t[..k + 1]) == RegVals(m, t[..k]) + [Get(m, t[k])];
    SpliceSnoc(m.mem, base, RegVals(m, t[..k]), Get(m, t[k]));
  }

  /** Running store on one more register extends a run that reached the state after k - 1 iterations. */
  lemma StoreExtend(m: Machine, px: Reg, t: seq<Reg>, k: nat)
    requires WellFormed(m) && ValidArray(m, px, |t|) && 0 < k <= |t|
    requires Run(m, Store(px, t[..k - 1])) == Some(StoreState(m, px, t, k - 1))
    ensures Run(m, Store(px, t[..k])) == Some(StoreState(m, px, t, k))
  {
    assert Store(px, t[..k]) == Store(px, t[..k - 1]) + [Mov(M(px, 8 * (k - 1)), R(t[k - 1], W64))] by {
      assert t[..k][..k - 1] == t[..k - 1];
    }
    StoreStep(m, px, t, k - 1);
    RunAppend(m, Store(px, t[..k - 1]), [Mov(M(px, 8 * (k - 1)), R(t[k - 1], W64))]);
  }

  /** store's first k iterations reach the state after k iterations. */
  lemma {:induction false} StorePrefix(m: Machine, px: Reg, t: seq<Reg>, k: nat)
    requires WellFormed(m) && ValidArray(m, px, |t|) && k <= |t|
    ensures Run(m, Store(px, t[..k])) == Some(StoreState(m, px, t, k))
  {
    if k == 0 {
      assert Splice(m.mem, Get(m, px) / 8, RegVals(m, t[..0])) == m.mem;
    } else {
      StorePrefix(m, px, t, k - 1);
      StoreExtend(m, px, t, k);
    }
  }

  /** store: the array at px receives the registers t, in order; registers and CF are unchanged. */
  lemma StoreRun(m: Machine, px: Reg, t: seq<Reg>)
    requires WellFormed(m) && ValidArray(m, px, |t|)
    ensures Run(m, Store(px, t)) == Some(m.(mem := Splice(m.mem, Get(m, px) / 8, RegVals(m, t))))
  {
    StorePrefix(m, px, t, |t|);
    assert t[..|t|] == t;
  }

  // ---------------------------------------------------------------------
  // Single instructions of gen_fp_add
  // ---------------------------------------------------------------------

  /** `xor eax, eax` clears rax and CF. */
  lemma XorEax(m: Machine)
    ensures Run(m, [Xor(R(Rax, W32), R(Rax, W32))]) == Some(Machine(m.regs[Rax := 0], false, m.mem))
  {
    var a := Get(m, Rax) % 0x1_0000_0000;
    XorSelf(a, 32);
    RunOne(m, Xor(R(Rax, W32), R(Rax, W32)));
  }

  /** `setc al` with rax = 0 leaves CF in rax as 0 or 1. */
  lemma SetcAl(m: Machine)
    requires Get(m, Rax) == 0
    ensures Run(m, [Setc(R(Rax, W8))]) == Some(m.(regs := m.regs[Rax := Bit(m.cf)]))
  {
    RunOne(m, Setc(R(Rax, W8)));
  }

  /** `sbb eax, 0` with rax = c in {0, 1}: rax = (c - CF) mod 2^32, and CF is set exactly when c < CF. */
  lemma SbbEax(m: Machine)
    requires Get(m, Rax) <= 1
    ensures Run(m, [Sbb(R(Rax, W32), Imm(0))])
            == Some(Machine(m.regs[Rax := (Get(m, Rax) - Bit(m.cf)) % 0x1_0000_0000], Get(m, Rax) < Bit(m.cf), m.mem))
  {
    var c: int, b: int := Get(m, Rax), Bit(m.cf);
    var v := (c - b) % 0x1_0000_0000;
    assert v == if c < b then 0xFFFF_FFFF else c - b;
    assert Read(m, R(Rax, W32), W32) == Some(c);
    assert Read(m, Imm(0), W32) == Some(0);
    assert Alu(OpSbb, W32, c, 0, m.cf) == (v, c < b);
    assert WriteReg(m.(cf := c < b), Rax, W32, v) == Machine(m.regs[Rax := v], c < b, m.mem);
    RunOne(m, Sbb(R(Rax, W32), Imm(0)));
  }
}
