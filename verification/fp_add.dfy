/**
 * gen_fp_add(N) as a whole: the function it emits adds two N-limb values
 * and subtracts p once when the sum is not below p. For x, y < p this is
 * addition modulo p.
 */
module FpAdd {
  import opened Limbs
  import opened Wrappers
  import opened X86
  import MulUnitCpp
  import opened GenAdd
  import opened FpAddRun

  // ---------------------------------------------------------------------
  // Reference result
  // ---------------------------------------------------------------------

  /** What the function leaves behind: the limbs stored to z, whether x + y was kept, and rax. */
  datatype FpResult = FpResult(z: seq<Limb>, keep: bool, rax: nat)

  /**
   * The reference result: s = x + y with carry c, then d = s - p with
   * borrow b; s is kept exactly when c < b, and rax is c - b modulo 2^32.
   */
  function Reference(xs: seq<Limb>, ys: seq<Limb>, ps: seq<Limb>): (r: FpResult)
    requires |xs| == |ys| == |ps|
    ensures |r.z| == |xs|
  {
    var a := MulUnitCpp.Add(xs, ys);
    var d := Subtract(a.z, ps);
    FpResult(if a.carry < d.borrow then a.z else d.z, a.carry < d.borrow, (a.carry - d.borrow) % 0x1_0000_0000)
  }

  /**
   * What the reference result means: x + y is kept exactly when it is
   * below p, and then rax is all ones; otherwise z is x + y - p modulo
   * 2^(64N) and rax is 0 or 1.
   */
  lemma {:induction false} ReferenceMeaning(xs: seq<Limb>, ys: seq<Limb>, ps: seq<Limb>)
    requires |xs| == |ys| == |ps|
    ensures var r := Reference(xs, ys, ps);
            var s := Val(xs) + Val(ys);
            && (r.keep <==> s < Val(ps))
            && (r.keep ==> Val(r.z) == s && r.rax == 0xFFFF_FFFF)
            && (!r.keep ==> Val(r.z) == (s - Val(ps)) % Pow(|xs|) && r.rax <= 1)
  {
    var a := MulUnitCpp.Add(xs, ys);
    var d := Subtract(a.z, ps);
    ReferenceFacts(xs, ys, ps);
    Selected(Reference(xs, ys, ps), a.z, a.carry, d.z, d.borrow, Val(xs) + Val(ys), Val(ps), Val(xs) + Val(ys) - Val(ps), Pow(|xs|));
  }

  /** The facts about the sum and the difference that ReferenceMeaning combines. */
  lemma {:induction false} ReferenceFacts(xs: seq<Limb>, ys: seq<Limb>, ps: seq<Limb>)
    requires |xs| == |ys| == |ps|
    ensures var a := MulUnitCpp.Add(xs, ys);
            var d := Subtract(a.z, ps);
            && Val(a.z) < Pow(|xs|) && Val(d.z) < Pow(|xs|) && Val(ps) < Pow(|xs|)
            && Val(a.z) + a.carry * Pow(|xs|) == Val(xs) + Val(ys)
            && Val(d.z) + Val(ps) == Val(a.z) + d.borrow * Pow(|xs|)
  {
    var a := MulUnitCpp.Add(xs, ys);
    var d := Subtract(a.z, ps);
    SubtractVal(a.z, ps);
    ValBound(a.z);
    ValBound(d.z);
    ValBound(ps);
  }

  /** ReferenceMeaning in terms of the sum's and the difference's limbs. */
  lemma Selected(r: FpResult, az: seq<Limb>, c: nat, dz: seq<Limb>, b: nat, s: int, q: int, w: int, p: int)
    requires r.z == (if c < b then az else dz) && r.keep == (c < b) && r.rax == (c - b) % 0x1_0000_0000
    requires 0 <= Val(az) < p && 0 <= Val(dz) < p && 0 <= q < p && c <= 1 && b <= 1
    requires Val(az) + c * p == s && Val(dz) + q == Val(az) + b * p && w == s - q
    ensures r.keep <==> s < q
    ensures r.keep ==> Val(r.z) == s && r.rax == 0xFFFF_FFFF
    ensures !r.keep ==> Val(r.z) == w % p && r.rax <= 1
  {
    SelectAlg(Val(az), c, Val(dz), b, s, q, w, p);
    if c < b {
      assert r.rax == 0xFFFF_FFFF;
    } else {
      ModUnique(c - b, 0x1_0000_0000, 0, c - b);
    }
  }

  /** The integer argument behind ReferenceMeaning. */
  lemma SelectAlg(va: int, c: int, vd: int, b: int, s: int, q: int, w: int, p: int)
    requires 0 <= va < p && 0 <= vd < p && 0 <= q < p && (c == 0 || c == 1) && (b == 0 || b == 1)
    requires va + c * p == s && vd + q == va + b * p && w == s - q
    ensures c < b <==> s < q
    ensures c < b ==> va == s
    ensures !(c < b) ==> vd == w % p
  {
    if !(c < b) {
      ModUnique(w, p, c - b, vd);
    }
  }

  /** For x, y < p the stored limbs are (x + y) mod p. */
  lemma {:induction false} ReferenceIsModularAdd(xs: seq<Limb>, ys: seq<Limb>, ps: seq<Limb>)
    requires |xs| == |ys| == |ps|
    requires Val(xs) < Val(ps) && Val(ys) < Val(ps)
    ensures Val(Reference(xs, ys, ps).z) == (Val(xs) + Val(ys)) % Val(ps)
  {
    var r := Reference(xs, ys, ps);
    ReferenceMeaning(xs, ys, ps);
    ValBound(ps);
    ReducedAlg(Val(r.z), r.keep, Val(xs) + Val(ys), Val(ps), Val(xs) + Val(ys) - Val(ps), Pow(|xs|));
  }

  /** For 0 <= s < 2q and q < p, "s if s < q, else (s - q) mod p" is s mod q. */
  lemma ReducedAlg(vz: int, keep: bool, s: int, q: int, w: int, p: int)
    requires 0 <= s < 2 * q && q < p && w == s - q
    requires keep <==> s < q
    requires keep ==> vz == s
    requires !keep ==> vz == w % p
    ensures vz == s % q
  {
    if keep {
      ModUnique(s, q, 0, s);
    } else {
      ModUnique(w, p, 0, w);
      ModUnique(s, q, 1, w);
    }
  }

  // ---------------------------------------------------------------------
  // Register lists of gen_fp_add
  // ---------------------------------------------------------------------

  /** A register is among Temps(lo, hi) exactly when it is one of temporaries lo, ..., hi - 1. */
  lemma TempsMember(lo: nat, hi: nat, r: Reg)
    requires lo <= hi
    ensures r in Temps(lo, hi) <==> r.Temp? && lo <= r.n < hi
  {
    if r.Temp? && lo <= r.n < hi {
      assert Temps(lo, hi)[r.n - lo] == r;
    }
  }

  /** Appending a register not yet in a distinct list keeps it distinct. */
  lemma DistinctSnoc(rs: seq<Reg>, r: Reg)
    requires Distinct(rs) && r !in rs
    ensures Distinct(rs + [r])
  {
    assert (rs + [r])[..|rs|] == rs;
  }

  /** No temporary is handed out twice. */
  lemma {:induction false} TempsDistinct(lo: nat, hi: nat)
    requires lo <= hi
    ensures Distinct(Temps(lo, hi))
  {
    if lo < hi {
      TempsDistinct(lo, hi - 1);
      TempsMember(lo, hi - 1, Temp(hi - 1));
      assert Temps(lo, hi) == Temps(lo, hi - 1) + [Temp(hi - 1)];
      DistinctSnoc(Temps(lo, hi - 1), Temp(hi - 1));
    }
  }

  /** The first list t: N distinct temporaries, none of them rax or a pointer register. */
  lemma FirstTempsFacts(n: int)
    requires n >= 2
    ensures var t := FirstTemps(n);
            |t| == n && Distinct(t) && Rax !in t && X !in t && Y !in t && P !in t && Z !in t
  {
    TempsDistinct(0, n);
    TempsMember(0, n, Rax);
    TempsMember(0, n, X);
    TempsMember(0, n, Y);
    TempsMember(0, n, P);
    TempsMember(0, n, Z);
  }

  /**
   * gen_fp_add's register allocation for N >= 2: t and t2 are N registers
   * each, none repeated, none shared; t avoids rax and the four pointer
   * registers, and t2 avoids rax, p and z (it ends with x and y).
   */
  lemma Registers(n: int)
    requires n >= 2
    ensures var t, t2 := FirstTemps(n), SecondTemps(n);
            && |t| == |t2| == n
            && Distinct(t) && Distinct(t2) && Disjoint(t, t2) && Disjoint(t2, t)
            && Rax !in t && X !in t && Y !in t && P !in t && Z !in t
            && Rax !in t2 && P !in t2 && Z !in t2
  {
    var t, u := Temps(0, n), Temps(n, 2 * n - 2);
    var t2 := u + [X, Y];
    TempsDistinct(0, n);
    TempsDistinct(n, 2 * n - 2);
    TempsMember(n, 2 * n - 2, X);
    DistinctSnoc(u, X);
    TempsMember(n, 2 * n - 2, Y);
    assert Y !in u + [X];
    DistinctSnoc(u + [X], Y);
    assert t2 == u + [X] + [Y];
    TempsMember(0, n, Rax);
    TempsMember(0, n, X);
    TempsMember(0, n, Y);
    TempsMember(0, n, P);
    TempsMember(0, n, Z);
    TempsMember(n, 2 * n - 2, Rax);
    TempsMember(n, 2 * n - 2, P);
    TempsMember(n, 2 * n - 2, Z);
    forall i | 0 <= i < |t2|
      ensures t2[i] !in t
    {
      if i < |u| {
        TempsMember(0, n, u[i]);
      }
    }
    forall i | 0 <= i < |t|
      ensures t[i] !in t2
    {
      TempsMember(n, 2 * n - 2, t[i]);
    }
  }

  // ---------------------------------------------------------------------
  // gen_fp_add, phase by phase, on any register lists
  // ---------------------------------------------------------------------

  /** `xor eax, eax`, add_rmm(t, x, y), `setc al`. */
  function HeadCode(t: seq<Reg>): seq<Instr>
  {
    [Xor(R(Rax, W32), R(Rax, W32))] + AddRmm(t, X, Y) + [Setc(R(Rax, W8))]
  }

  /** sub_rm(t, p) and `sbb eax, 0`. */
  function ReduceCode(t: seq<Reg>): seq<Instr>
  {
    SubRm(t, P) + [Sbb(R(Rax, W32), Imm(0))]
  }

  /** The head on any list t avoiding rax, x and y: t = x + y, then rax = CF = the carry. */
  lemma {:induction false} HeadRunOn(m: Machine, t: seq<Reg>)
    requires WellFormed(m) && |t| >= 1 && Rax !in t && X !in t && Y !in t
    requires ValidArray(m, X, |t|) && ValidArray(m, Y, |t|)
    ensures var a := MulUnitCpp.Add(Array(m, X, |t|), Array(m, Y, |t|));
            Run(m, HeadCode(t)) == Some(Machine(SetRegs(m.regs[Rax := 0], t, a.z)[Rax := a.carry], a.carry == 1, m.mem))
  {
    var xor, setc := [Xor(R(Rax, W32), R(Rax, W32))], [Setc(R(Rax, W8))];
    var a := MulUnitCpp.Add(Array(m, X, |t|), Array(m, Y, |t|));
    var m1 := Machine(m.regs[Rax := 0], false, m.mem);
    XorEax(m);
    assert Get(m1, X) == Get(m, X) && Get(m1, Y) == Get(m, Y);
    assert Array(m1, X, |t|) == Array(m, X, |t|) && Array(m1, Y, |t|) == Array(m, Y, |t|);
    AddRmmRun(m1, t, X, Y);
    var m2 := Machine(SetRegs(m1.regs, t, a.z), a.carry == 1, m.mem);
    GetOther(m1, t, a.z, m2, Rax);
    SetcAl(m2);
    assert Bit(m2.cf) == a.carry;
    RunAppend(m, xor, AddRmm(t, X, Y));
    RunAppend(m, xor + AddRmm(t, X, Y), setc);
  }

  /** Reading back the machine the head leaves. */
  lemma HeadFacts(m: Machine, t: seq<Reg>, z: seq<Limb>, c: Limb)
    requires |t| == |z| && Distinct(t) && Rax !in t && P !in t && Z !in t
    ensures var h := Machine(SetRegs(m.regs[Rax := 0], t, z)[Rax := c], c == 1, m.mem);
            && RegVals(h, t) == z && Get(h, Rax) == c && Get(h, P) == Get(m, P) && Get(h, Z) == Get(m, Z)
  {
    var m1 := Machine(m.regs[Rax := 0], false, m.mem);
    var m2 := Machine(SetRegs(m1.regs, t, z), c == 1, m.mem);
    var h := Machine(m2.regs[Rax := c], c == 1, m.mem);
    RegValsOfSet(m1, t, z, m2);
    RegValsUpdate(m2, Rax, c, h, t);
    GetOther(m1, t, z, m2, P);
    GetOther(m1, t, z, m2, Z);
  }

  // ---------------------------------------------------------------------
  // gen_fp_add(N): each phase and the machine it leaves
  // ---------------------------------------------------------------------

  /** What the emitted function relies on: N >= 2 and N-limb arrays at x, y, p and z. */
  predicate FpAddCall(m: Machine, n: int)
  {
    && n >= 2 && WellFormed(m)
    && ValidArray(m, X, n) && ValidArray(m, Y, n) && ValidArray(m, P, n) && ValidArray(m, Z, n)
  }

  /** gen_fp_add(N), for N >= 2, is the head, copy_rr(t2, t), and the rest. */
  lemma GenFpAddCode(n: int)
    requires n >= 2
    ensures var t, t2 := FirstTemps(n), SecondTemps(n);
            && |t| == |t2| == n
            && GenFpAdd(n) == Some(HeadCode(t) + RegLoop(OpMov, t2, t)
                                   + (ReduceCode(t) + RegLoop(OpCmovc, t, t2) + Store(Z, t)))
  {
    RegisterBudget(n);
  }

  /** The head on a distinct list t avoiding rax and the pointer registers. */
  lemma {:induction false} HeadOn(m: Machine, t: seq<Reg>)
    requires WellFormed(m) && |t| >= 1 && Distinct(t)
    requires Rax !in t && X !in t && Y !in t && P !in t && Z !in t
    requires ValidArray(m, X, |t|) && ValidArray(m, Y, |t|)
    ensures var a := MulUnitCpp.Add(Array(m, X, |t|), Array(m, Y, |t|));
            var h := Run(m, HeadCode(t));
            && h.Some? && h.value.mem == m.mem && RegVals(h.value, t) == a.z && Get(h.value, Rax) == a.carry
            && Get(h.value, P) == Get(m, P) && Get(h.value, Z) == Get(m, Z)
  {
    var a := MulUnitCpp.Add(Array(m, X, |t|), Array(m, Y, |t|));
    HeadRunOn(m, t);
    HeadFacts(m, t, a.z, a.carry);
  }

  /** The head leaves x + y in t, and its carry in rax; p, z and memory are as before. */
  lemma {:induction false} HeadPhase(m: Machine, n: int) returns (h: Machine)
    requires FpAddCall(m, n)
    ensures var a := MulUnitCpp.Add(Array(m, X, n), Array(m, Y, n));
            && Run(m, HeadCode(FirstTemps(n))) == Some(h)
            && h.mem == m.mem && RegVals(h, FirstTemps(n)) == a.z && Get(h, Rax) == a.carry
            && Get(h, P) == Get(m, P) && Get(h, Z) == Get(m, Z)
  {
    FirstTempsFacts(n);
    HeadOn(m, FirstTemps(n));
    h := Run(m, HeadCode(FirstTemps(n))).value;
  }

  /** copy_rr(t2, t) on lists of one length, t2 distinct and apart from t. */
  lemma {:induction false} CopyOn(h: Machine, t: seq<Reg>, t2: seq<Reg>)
    requires |t2| == |t| && Distinct(t2) && Disjoint(t2, t) && Rax !in t2 && P !in t2 && Z !in t2
    ensures var c := Run(h, RegLoop(OpMov, t2, t));
            && c.Some? && c.value.mem == h.mem
            && RegVals(c.value, t2) == RegVals(h, t) && RegVals(c.value, t) == RegVals(h, t)
            && Get(c.value, Rax) == Get(h, Rax) && Get(c.value, P) == Get(h, P) && Get(c.value, Z) == Get(h, Z)
  {
    assert t[..|t2|] == t;
    RegLoopRun(h, OpMov, t2, t);
    var vs := Moved(h, OpMov, t2, t);
    var c := h.(regs := SetRegs(h.regs, t2, vs));
    RegValsOfSet(h, t2, vs, c);
    RegValsOther(h, t2, vs, c, t);
    GetOther(h, t2, vs, c, Rax);
    GetOther(h, t2, vs, c, P);
    GetOther(h, t2, vs, c, Z);
  }

  /** copy_rr(t2, t): t2 receives t; t, rax, p, z and memory are as before. */
  lemma {:induction false} CopyPhase(h: Machine, n: int) returns (c: Machine)
    requires n >= 2
    ensures var t, t2 := FirstTemps(n), SecondTemps(n);
            && Run(h, RegLoop(OpMov, t2, t)) == Some(c)
            && c.mem == h.mem && RegVals(c, t2) == RegVals(h, t) && RegVals(c, t) == RegVals(h, t)
            && Get(c, Rax) == Get(h, Rax) && Get(c, P) == Get(h, P) && Get(c, Z) == Get(h, Z)
  {
    Registers(n);
    CopyOn(h, FirstTemps(n), SecondTemps(n));
    c := Run(h, RegLoop(OpMov, SecondTemps(n), FirstTemps(n))).value;
  }

  /** sub_rm(t, p) on a distinct list t: t holds t - p and CF the borrow; t2, rax, z and memory are as before. */
  lemma {:induction false} SubOn(c: Machine, t: seq<Reg>, t2: seq<Reg>)
    requires WellFormed(c) && |t| >= 1 && Distinct(t) && Disjoint(t, t2)
    requires Rax !in t && P !in t && Z !in t && ValidArray(c, P, |t|)
    ensures var d := Subtract(RegVals(c, t), Array(c, P, |t|));
            var s := Run(c, SubRm(t, P));
            && s.Some? && s.value.mem == c.mem && s.value.cf == (d.borrow == 1)
            && RegVals(s.value, t) == d.z && RegVals(s.value, t2) == RegVals(c, t2)
            && Get(s.value, Rax) == Get(c, Rax) && Get(s.value, Z) == Get(c, Z)
  {
    var d := Subtract(RegVals(c, t), Array(c, P, |t|));
    SubRmRun(c, t, P);
    var s1 := Machine(SetRegs(c.regs, t, d.z), d.borrow == 1, c.mem);
    RegValsOfSet(c, t, d.z, s1);
    RegValsOther(c, t, d.z, s1, t2);
    GetOther(c, t, d.z, s1, Rax);
    GetOther(c, t, d.z, s1, Z);
  }

  /** `sbb eax, 0` with rax in {0, 1}: only rax and CF change. */
  lemma SbbOn(s1: Machine, t: seq<Reg>, t2: seq<Reg>)
    requires Get(s1, Rax) <= 1 && Rax !in t && Rax !in t2
    ensures var s := Run(s1, [Sbb(R(Rax, W32), Imm(0))]);
            && s.Some? && s.value.mem == s1.mem && s.value.cf == (Get(s1, Rax) < Bit(s1.cf))
            && RegVals(s.value, t) == RegVals(s1, t) && RegVals(s.value, t2) == RegVals(s1, t2)
            && Get(s.value, Rax) == (Get(s1, Rax) - Bit(s1.cf)) % 0x1_0000_0000 && Get(s.value, Z) == Get(s1, Z)
  {
    var v := (Get(s1, Rax) - Bit(s1.cf)) % 0x1_0000_0000;
    SbbEax(s1);
    var s := Machine(s1.regs[Rax := v], Get(s1, Rax) < Bit(s1.cf), s1.mem);
    RegValsUpdate(s1, Rax, v, s, t);
    RegValsUpdate(s1, Rax, v, s, t2);
  }

  /** sub_rm(t, p) and `sbb eax, 0` on lists t, t2 as gen_fp_add allocates them. */
  lemma {:induction false} ReduceOn(c: Machine, t: seq<Reg>, t2: seq<Reg>)
    requires WellFormed(c) && |t| >= 1 && Distinct(t) && Disjoint(t, t2)
    requires Rax !in t && P !in t && Z !in t && Rax !in t2
    requires ValidArray(c, P, |t|) && Get(c, Rax) <= 1
    ensures var d := Subtract(RegVals(c, t), Array(c, P, |t|));
            var s := Run(c, ReduceCode(t));
            && s.Some? && s.value.mem == c.mem && s.value.cf == (Get(c, Rax) < d.borrow)
            && RegVals(s.value, t) == d.z && RegVals(s.value, t2) == RegVals(c, t2)
            && Get(s.value, Rax) == (Get(c, Rax) - d.borrow) % 0x1_0000_0000 && Get(s.value, Z) == Get(c, Z)
  {
    var sbb := [Sbb(R(Rax, W32), Imm(0))];
    SubOn(c, t, t2);
    var s1 := Run(c, SubRm(t, P)).value;
    SbbOn(s1, t, t2);
    RunSeq(c, SubRm(t, P), sbb, s1, Run(s1, sbb).value);
  }

  /**
   * sub_rm(t, p) and `sbb eax, 0` with rax = c in {0, 1}: t holds t - p
   * with borrow b, rax is c - b modulo 2^32 and CF is c < b; t2, z and
   * memory are as before.
   */
  lemma {:induction false} ReducePhase(c: Machine, n: int) returns (s: Machine)
    requires n >= 2 && WellFormed(c) && ValidArray(c, P, n) && Get(c, Rax) <= 1
    ensures var t, t2 := FirstTemps(n), SecondTemps(n);
            var d := Subtract(RegVals(c, t), Array(c, P, n));
            && Run(c, ReduceCode(t)) == Some(s)
            && s.mem == c.mem && s.cf == (Get(c, Rax) < d.borrow)
            && RegVals(s, t) == d.z && RegVals(s, t2) == RegVals(c, t2)
            && Get(s, Rax) == (Get(c, Rax) - d.borrow) % 0x1_0000_0000 && Get(s, Z) == Get(c, Z)
  {
    Registers(n);
    ReduceOn(c, FirstTemps(n), SecondTemps(n));
    s := Run(c, ReduceCode(FirstTemps(n))).value;
  }

  /** cmovc_rr(t, t2) on lists of one length, t distinct and avoiding rax and z. */
  lemma {:induction false} SelectOn(s: Machine, t: seq<Reg>, t2: seq<Reg>)
    requires |t| == |t2| && Distinct(t) && Disjoint(t, t2) && Rax !in t && Z !in t
    ensures var l := Run(s, RegLoop(OpCmovc, t, t2));
            && l.Some? && l.value.mem == s.mem && l.value.cf == s.cf
            && RegVals(l.value, t) == (if s.cf then RegVals(s, t2) else RegVals(s, t))
            && Get(l.value, Rax) == Get(s, Rax) && Get(l.value, Z) == Get(s, Z)
  {
    assert t2[..|t|] == t2;
    RegLoopRun(s, OpCmovc, t, t2);
    var vs := Moved(s, OpCmovc, t, t2);
    var l := s.(regs := SetRegs(s.regs, t, vs));
    RegValsOfSet(s, t, vs, l);
    GetOther(s, t, vs, l, Rax);
    GetOther(s, t, vs, l, Z);
  }

  /** cmovc_rr(t, t2): t receives t2 when CF is set; CF, rax, z and memory are as before. */
  lemma {:induction false} SelectPhase(s: Machine, n: int) returns (l: Machine)
    requires n >= 2
    ensures var t, t2 := FirstTemps(n), SecondTemps(n);
            && Run(s, RegLoop(OpCmovc, t, t2)) == Some(l)
            && l.mem == s.mem && l.cf == s.cf
            && RegVals(l, t) == (if s.cf then RegVals(s, t2) else RegVals(s, t))
            && Get(l, Rax) == Get(s, Rax) && Get(l, Z) == Get(s, Z)
  {
    Registers(n);
    SelectOn(s, FirstTemps(n), SecondTemps(n));
    l := Run(s, RegLoop(OpCmovc, FirstTemps(n), SecondTemps(n))).value;
  }

  /** The head and the copy: t and t2 both hold x + y and rax its carry; p, z and memory are as before. */
  lemma {:induction false} HeadCopyPhase(m: Machine, n: int) returns (c: Machine)
    requires FpAddCall(m, n)
    ensures var a := MulUnitCpp.Add(Array(m, X, n), Array(m, Y, n));
            var t, t2 := FirstTemps(n), SecondTemps(n);
            && Run(m, HeadCode(t) + RegLoop(OpMov, t2, t)) == Some(c)
            && c.mem == m.mem && RegVals(c, t) == a.z && RegVals(c, t2) == a.z
            && Get(c, Rax) == a.carry && Get(c, P) == Get(m, P) && Get(c, Z) == Get(m, Z)
  {
    var t, t2 := FirstTemps(n), SecondTemps(n);
    var h := HeadPhase(m, n);
    c := CopyPhase(h, n);
    RunSeq(m, HeadCode(t), RegLoop(OpMov, t2, t), h, c);
  }

  /**
   * With t = t2 = s and rax = c: z receives s when c < b and s - p
   * otherwise, b being the borrow of s - p; CF is c < b and rax c - b
   * modulo 2^32.
   */
  lemma {:induction false} TailPhase(c: Machine, n: int, sz: seq<Limb>, carry: nat) returns (f: Machine)
    requires n >= 2 && WellFormed(c) && ValidArray(c, P, n) && ValidArray(c, Z, n)
    requires RegVals(c, FirstTemps(n)) == sz && RegVals(c, SecondTemps(n)) == sz
    requires Get(c, Rax) == carry && carry <= 1
    ensures var t, t2 := FirstTemps(n), SecondTemps(n);
            var d := Subtract(sz, Array(c, P, n));
            && Run(c, ReduceCode(t) + RegLoop(OpCmovc, t, t2) + Store(Z, t)) == Some(f)
            && f.mem == Splice(c.mem, Get(c, Z) / 8, if carry < d.borrow then sz else d.z)
            && f.cf == (carry < d.borrow)
            && Get(f, Rax) == (carry - d.borrow) % 0x1_0000_0000
            && Get(f, Z) == Get(c, Z)
  {
    var t, t2 := FirstTemps(n), SecondTemps(n);
    var l := ReduceSelectPhase(c, n, sz, carry);
    assert |t| == n by {
      FirstTempsFacts(n);
    }
    StoreRun(l, Z, t);
    f := l.(mem := Splice(l.mem, Get(l, Z) / 8, RegVals(l, t)));
    RunSeq(c, ReduceCode(t) + RegLoop(OpCmovc, t, t2), Store(Z, t), l, f);
  }

  /**
   * sub_rm, `sbb eax, 0` and cmovc_rr with t = t2 = s and rax = c: t ends
   * holding s when c < b and s - p otherwise, b being the borrow of s - p.
   */
  lemma {:induction false} ReduceSelectPhase(c: Machine, n: int, sz: seq<Limb>, carry: nat) returns (l: Machine)
    requires n >= 2 && WellFormed(c) && ValidArray(c, P, n)
    requires RegVals(c, FirstTemps(n)) == sz && RegVals(c, SecondTemps(n)) == sz
    requires Get(c, Rax) == carry && carry <= 1
    ensures var t, t2 := FirstTemps(n), SecondTemps(n);
            var d := Subtract(sz, Array(c, P, n));
            && Run(c, ReduceCode(t) + RegLoop(OpCmovc, t, t2)) == Some(l)
            && l.mem == c.mem && l.cf == (carry < d.borrow)
            && RegVals(l, t) == (if carry < d.borrow then sz else d.z)
            && Get(l, Rax) == (carry - d.borrow) % 0x1_0000_0000 && Get(l, Z) == Get(c, Z)
  {
    var s := ReducePhase(c, n);
    l := SelectPhase(s, n);
    RunSeq(c, ReduceCode(FirstTemps(n)), RegLoop(OpCmovc, FirstTemps(n), SecondTemps(n)), s, l);
  }

  /**
   * gen_fp_add(N), for N >= 2: the emitted body stores the reference
   * result at z, leaves CF set exactly when x + y was kept, and returns
   * the reference rax; nothing in memory but z's N limbs changes.
   */
  lemma {:induction false} GenFpAddRun(m: Machine, n: int)
    requires FpAddCall(m, n)
    ensures GenFpAdd(n).Some?
    ensures var r := Reference(Array(m, X, n), Array(m, Y, n), Array(m, P, n));
            var out := Run(m, GenFpAdd(n).value);
            && out.Some?
            && out.value.mem == Splice(m.mem, Get(m, Z) / 8, r.z)
            && out.value.cf == r.keep
            && Get(out.value, Rax) == r.rax
            && Get(out.value, Z) == Get(m, Z)
  {
    var t, t2 := FirstTemps(n), SecondTemps(n);
    var xs, ys, ps := Array(m, X, n), Array(m, Y, n), Array(m, P, n);
    var a := MulUnitCpp.Add(xs, ys);
    GenFpAddCode(n);
    var c := HeadCopyPhase(m, n);
    ArraySame(m, c, P, n);
    ArraySame(m, c, Z, n);
    var f := TailPhase(c, n, a.z, a.carry);
    RunSeq(m, HeadCode(t) + RegLoop(OpMov, t2, t), ReduceCode(t) + RegLoop(OpCmovc, t, t2) + Store(Z, t), c, f);
    ReferenceFields(xs, ys, ps);
  }

  /** An array read through a register that holds the same address in the same memory. */
  lemma ArraySame(m: Machine, c: Machine, r: Reg, n: nat)
    requires c.mem == m.mem && Get(c, r) == Get(m, r) && ValidArray(m, r, n)
    ensures ValidArray(c, r, n) && Array(c, r, n) == Array(m, r, n)
  {
  }

  /** The reference result, field by field, in terms of the sum and the difference. */
  lemma ReferenceFields(xs: seq<Limb>, ys: seq<Limb>, ps: seq<Limb>)
    requires |xs| == |ys| == |ps|
    ensures var a := MulUnitCpp.Add(xs, ys);
            var d := Subtract(a.z, ps);
            var r := Reference(xs, ys, ps);
            && r.z == (if a.carry < d.borrow then a.z else d.z)
            && r.keep == (a.carry < d.borrow)
            && r.rax == (a.carry - d.borrow) % 0x1_0000_0000
  {
  }

  /**
   * For x, y < p, gen_fp_add's function stores (x + y) mod p at z: the
   * field addition it is named for.
   */
  lemma {:induction false} GenFpAddIsModularAdd(m: Machine, n: int)
    requires FpAddCall(m, n)
    requires Val(Array(m, X, n)) < Val(Array(m, P, n)) && Val(Array(m, Y, n)) < Val(Array(m, P, n))
    ensures GenFpAdd(n).Some?
    ensures var out := Run(m, GenFpAdd(n).value);
            && out.Some? && ValidArray(out.value, Z, n)
            && Val(Array(out.value, Z, n)) == (Val(Array(m, X, n)) + Val(Array(m, Y, n))) % Val(Array(m, P, n))
  {
    GenFpAddStores(m, n);
    StoredIsModularAdd(m, Run(m, GenFpAdd(n).value).value, n);
  }

  /** ReferenceIsModularAdd, read through the array at z of any machine o holding the reference limbs. */
  lemma StoredIsModularAdd(m: Machine, o: Machine, n: int)
    requires FpAddCall(m, n)
    requires Val(Array(m, X, n)) < Val(Array(m, P, n)) && Val(Array(m, Y, n)) < Val(Array(m, P, n))
    requires ValidArray(o, Z, n) && Array(o, Z, n) == Reference(Array(m, X, n), Array(m, Y, n), Array(m, P, n)).z
    ensures Val(Array(o, Z, n)) == (Val(Array(m, X, n)) + Val(Array(m, Y, n))) % Val(Array(m, P, n))
  {
    ReferenceIsModularAdd(Array(m, X, n), Array(m, Y, n), Array(m, P, n));
  }

  /** The array at z after the run holds the reference limbs. */
  lemma {:induction false} GenFpAddStores(m: Machine, n: int)
    requires FpAddCall(m, n)
    ensures GenFpAdd(n).Some?
    ensures var out := Run(m, GenFpAdd(n).value);
            && out.Some? && ValidArray(out.value, Z, n)
            && Array(out.value, Z, n) == Reference(Array(m, X, n), Array(m, Y, n), Array(m, P, n)).z
  {
    var xs, ys, ps := Array(m, X, n), Array(m, Y, n), Array(m, P, n);
    GenFpAddRun(m, n);
    var o := Run(m, GenFpAdd(n).value).value;
    ArrayOfSplice(m, o, Z, n, Reference(xs, ys, ps).z);
  }

  /** After splicing vs at the array r points to, reading that array gives vs. */
  lemma ArrayOfSplice(m: Machine, o: Machine, r: Reg, n: nat, vs: seq<Limb>)
    requires |vs| == n && ValidArray(m, r, n) && Get(o, r) == Get(m, r)
    requires o.mem == Splice(m.mem, Get(m, r) / 8, vs)
    ensures ValidArray(o, r, n) && Array(o, r, n) == vs
  {
    var base := Get(m, r) / 8;
    assert o.mem[base..base + n] == vs;
  }
}
