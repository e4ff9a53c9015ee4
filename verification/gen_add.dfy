/**
 * gen_add.py: Python generators that emit x86-64 assembly.
 *
 * `gen_add(N)` emits the same N-limb add as add-xbyak.cpp. `gen_fp_add(N)`
 * emits a branch-free modular addition z = x + y, minus p when that does
 * not go negative, from five helpers: `add_rmm` (t = [px] + [py]),
 * `copy_rr`, `sub_rm` (t -= [px]), `cmovc_rr` and `store`.
 *
 * Each helper is a function from its arguments to the instructions it
 * appends; a helper that would raise IndexError returns None. The
 * directives `align` and `FuncProc` and the StackFrame prologue and
 * epilogue emit no instruction of the body and are not modelled.
 */
module GenAdd {
  import opened Limbs
  import opened Carry
  import opened Wrappers
  import opened X86
  import MulUnitCpp
  import AddXbyak

  /** StackFrame parameters of gen_fp_add: p[0] = z, p[1] = x, p[2] = y, p[3] = p. */
  const Z: Reg := Param(0)
  const X: Reg := Param(1)
  const Y: Reg := Param(2)
  const P: Reg := Param(3)

  // ---------------------------------------------------------------------
  // gen_add
  // ---------------------------------------------------------------------

  /** The loop `for i in range(N)` of gen_add, from iteration i on. */
  function GenAddFrom(i: nat, n: int): seq<Instr>
    decreases n - i
  {
    if i >= n then []
    else
      [ Mov(R(Rax, W64), M(X, 8 * i)),
        if i == 0 then Add(R(Rax, W64), M(Y, 8 * i)) else Adc(R(Rax, W64), M(Y, 8 * i)),
        Mov(M(Z, 8 * i), R(Rax, W64)) ]
      + GenAddFrom(i + 1, n)
  }

  /** The body gen_add(N) emits. */
  function GenAddBody(n: int): seq<Instr>
  {
    GenAddFrom(0, n) + [Setc(R(Rax, W8)), Movzx(R(Rax, W32), R(Rax, W8))]
  }

  /** The first k limbs of add-xbyak's loop followed by gen_add's loop from k is gen_add's whole loop. */
  lemma {:induction false} GenAddSplit(k: nat, n: int)
    requires k == 0 || k <= n
    ensures AddXbyak.LimbLoop(k) + GenAddFrom(k, n) == GenAddFrom(0, n)
  {
    if k > 0 {
      GenAddSplit(k - 1, n);
      GenAddIteration(k - 1, n);
      AppendAssoc(AddXbyak.LimbLoop(k - 1), AddXbyak.LimbCode(k - 1), GenAddFrom(k, n));
    }
  }

  /** Iteration i of gen_add's loop emits add-xbyak's limb i code. */
  lemma GenAddIteration(i: nat, n: int)
    requires i < n
    ensures GenAddFrom(i, n) == AddXbyak.LimbCode(i) + GenAddFrom(i + 1, n)
  {
  }

  lemma AppendAssoc<T>(a: seq<T>, b: seq<T>, c: seq<T>)
    ensures (a + b) + c == a + (b + c)
  {
  }

  /** gen_add(N) and add-xbyak.cpp's Code(N) emit the same instructions, for every N. */
  lemma GenAddIsXbyakCode(n: int)
    ensures GenAddBody(n) == AddXbyak.Code(n)
  {
    var k := if n > 0 then n else 0;
    GenAddSplit(k, n);
    assert GenAddFrom(k, n) == [];
  }

  // ---------------------------------------------------------------------
  // The helpers; each loops over i in range(len(t)), emitting limb i last.
  // ---------------------------------------------------------------------

  /** Iteration i of add_rmm's loop, loading into register r. */
  function RmmLimbCode(r: Reg, px: Reg, py: Reg, i: nat): seq<Instr>
  {
    [ Mov(R(r, W64), M(px, 8 * i)),
      if i == 0 then Add(R(r, W64), M(py, 8 * i)) else Adc(R(r, W64), M(py, 8 * i)) ]
  }

  /** `add_rmm(t, px, py)`: t = [px] + [py], with the carry left in CF. */
  function AddRmm(t: seq<Reg>, px: Reg, py: Reg): (code: seq<Instr>)
    ensures |code| == 2 * |t|
  {
    if |t| == 0 then []
    else
      var i := |t| - 1;
      AddRmm(t[..i], px, py) + RmmLimbCode(t[i], px, py, i)
  }

  /** `mov r1, r2` or `cmovc r1, r2`. */
  function RegInstr(op: AluOp, r1: Reg, r2: Reg): Instr
    requires op == OpMov || op == OpCmovc
  {
    if op == OpMov then Mov(R(r1, W64), R(r2, W64)) else Cmovc(R(r1, W64), R(r2, W64))
  }

  /** `for i in range(len(t1))` emitting `op t1[i], t2[i]`, when t2 is long enough. */
  function RegLoop(op: AluOp, t1: seq<Reg>, t2: seq<Reg>): (code: seq<Instr>)
    requires op == OpMov || op == OpCmovc
    requires |t1| <= |t2|
    ensures |code| == |t1|
  {
    if |t1| == 0 then []
    else
      var i := |t1| - 1;
      RegLoop(op, t1[..i], t2) + [RegInstr(op, t1[i], t2[i])]
  }

  /** Instruction i of the loop is `op t1[i], t2[i]`. */
  lemma {:induction false} RegLoopAt(op: AluOp, t1: seq<Reg>, t2: seq<Reg>, i: nat)
    requires (op == OpMov || op == OpCmovc) && |t1| <= |t2| && i < |t1|
    ensures RegLoop(op, t1, t2)[i] == RegInstr(op, t1[i], t2[i])
  {
    var k := |t1| - 1;
    if i < k {
      RegLoopAt(op, t1[..k], t2, i);
      assert RegLoop(op, t1, t2)[i] == RegLoop(op, t1[..k], t2)[i];
      assert t1[..k][i] == t1[i];
    }
  }

  /**
   * `copy_rr(t1, t2)`: one `mov t1[i], t2[i]` per register of t1, in order;
   * reading past the end of t2 raises IndexError (None).
   */
  function CopyRR(t1: seq<Reg>, t2: seq<Reg>): (r: Option<seq<Instr>>)
    ensures r.Some? <==> |t1| <= |t2|
    ensures r.Some? ==> |r.value| == |t1|
    ensures r.Some? ==> forall i :: 0 <= i < |t1| ==> r.value[i] == Mov(R(t1[i], W64), R(t2[i], W64))
  {
    if |t1| <= |t2| then
      var code := RegLoop(OpMov, t1, t2);
      forall i | 0 <= i < |t1|
        ensures code[i] == Mov(R(t1[i], W64), R(t2[i], W64))
      {
        RegLoopAt(OpMov, t1, t2, i);
      }
      Some(code)
    else None
  }

  /**
   * `cmovc_rr(t1, t2)`: one `cmovc t1[i], t2[i]` per register of t1, in
   * order; IndexError (None) as for copy_rr.
   */
  function CmovcRR(t1: seq<Reg>, t2: seq<Reg>): (r: Option<seq<Instr>>)
    ensures r.Some? <==> |t1| <= |t2|
    ensures r.Some? ==> |r.value| == |t1|
    ensures r.Some? ==> forall i :: 0 <= i < |t1| ==> r.value[i] == Cmovc(R(t1[i], W64), R(t2[i], W64))
  {
    if |t1| <= |t2| then
      var code := RegLoop(OpCmovc, t1, t2);
      forall i | 0 <= i < |t1|
        ensures code[i] == Cmovc(R(t1[i], W64), R(t2[i], W64))
      {
        RegLoopAt(OpCmovc, t1, t2, i);
      }
      Some(code)
    else None
  }

  /** Iteration i of sub_rm's loop, on register r. */
  function SubLimbInstr(r: Reg, px: Reg, i: nat): Instr
  {
    if i == 0 then Sub(R(r, W64), M(px, 8 * i)) else Sbb(R(r, W64), M(px, 8 * i))
  }

  /** `sub_rm(t, px)`: t -= [px], with the borrow left in CF. */
  function SubRm(t: seq<Reg>, px: Reg): (code: seq<Instr>)
    ensures |code| == |t|
  {
    if |t| == 0 then []
    else
      var i := |t| - 1;
      SubRm(t[..i], px) + [SubLimbInstr(t[i], px, i)]
  }

  /** `store(px, t)`: [px] = t. */
  function Store(px: Reg, t: seq<Reg>): (code: seq<Instr>)
    ensures |code| == |t|
  {
    if |t| == 0 then []
    else
      var i := |t| - 1;
      Store(px, t[..i]) + [Mov(M(px, 8 * i), R(t[i], W64))]
  }

  // ---------------------------------------------------------------------
  // gen_fp_add
  // ---------------------------------------------------------------------

  /** The temporaries StackFrame hands out: t[lo], ..., t[hi - 1]. */
  function Temps(lo: nat, hi: nat): (ts: seq<Reg>)
    requires lo <= hi
    ensures |ts| == hi - lo
  {
    seq(hi - lo, i requires 0 <= i < hi - lo => Temp(lo + i))
  }

  /** `t = sf.t[0:N]`: with fewer than 2 limbs StackFrame has no temporaries to slice. */
  function FirstTemps(n: int): seq<Reg>
  {
    if n >= 2 then Temps(0, n) else []
  }

  /** `t2 = sf.t[N:]` of the 2N - 2 temporaries, then x and y appended. */
  function SecondTemps(n: int): seq<Reg>
  {
    (if n >= 2 then Temps(n, 2 * n - 2) else []) + [X, Y]
  }

  /** Everything gen_fp_add emits after copy_rr(t2, t). */
  function FpAddTail(t: seq<Reg>, t2: seq<Reg>): (r: Option<seq<Instr>>)
  {
    match CmovcRR(t, t2)
    case None => None
    case Some(sel) => Some(SubRm(t, P) + [Sbb(R(Rax, W32), Imm(0))] + sel + Store(Z, t))
  }

  /** The body gen_fp_add(N) emits, or None when the generator raises. */
  function GenFpAdd(n: int): Option<seq<Instr>>
  {
    var t, t2 := FirstTemps(n), SecondTemps(n);
    var head := [Xor(R(Rax, W32), R(Rax, W32))] + AddRmm(t, X, Y) + [Setc(R(Rax, W8))];
    match CopyRR(t2, t)
    case None => None
    case Some(copy) =>
      match FpAddTail(t, t2)
      case None => None
      case Some(tail) => Some(head + copy + tail)
  }

  /**
   * The register budget: t and t2 both hold N registers exactly when
   * N >= 2, and only then does the generator finish; with N < 2, t2 has
   * x and y but t is empty, and copy_rr raises IndexError.
   */
  lemma RegisterBudget(n: int)
    ensures n >= 2 ==> |FirstTemps(n)| == |SecondTemps(n)| == n
    ensures n < 2 ==> |FirstTemps(n)| == 0 && |SecondTemps(n)| == 2
    ensures GenFpAdd(n).Some? <==> n >= 2
  {
  }

  /** Registers named in an operand's memory address. */
  function MemBases(op: Operand): set<Reg>
  {
    if op.M? then {op.base} else {}
  }

  /** Registers an instruction dereferences. */
  function Dereferences(ins: Instr): set<Reg>
  {
    match ins
    case Mov(d, s) => MemBases(d) + MemBases(s)
    case Add(d, s) => MemBases(d) + MemBases(s)
    case Adc(d, s) => MemBases(d) + MemBases(s)
    case Sub(d, s) => MemBases(d) + MemBases(s)
    case Sbb(d, s) => MemBases(d) + MemBases(s)
    case Xor(d, s) => MemBases(d) + MemBases(s)
    case Setc(d) => MemBases(d)
    case Movzx(d, s) => MemBases(d) + MemBases(s)
    case Cmovc(d, s) => MemBases(d) + MemBases(s)
  }

  /** No instruction of prog dereferences a register outside bases. */
  predicate OnlyDereferences(prog: seq<Instr>, bases: set<Reg>)
  {
    forall j :: 0 <= j < |prog| ==> Dereferences(prog[j]) <= bases
  }

  lemma OnlyDereferencesAppend(a: seq<Instr>, b: seq<Instr>, bases: set<Reg>)
    requires OnlyDereferences(a, bases) && OnlyDereferences(b, bases)
    ensures OnlyDereferences(a + b, bases)
  {
    forall j | 0 <= j < |a + b|
      ensures Dereferences((a + b)[j]) <= bases
    {
      if j >= |a| {
        assert (a + b)[j] == b[j - |a|];
      }
    }
  }

  lemma {:induction false} RegLoopDereferencesNothing(op: AluOp, t1: seq<Reg>, t2: seq<Reg>)
    requires (op == OpMov || op == OpCmovc) && |t1| <= |t2|
    ensures OnlyDereferences(RegLoop(op, t1, t2), {})
  {
    if |t1| > 0 {
      var i := |t1| - 1;
      RegLoopDereferencesNothing(op, t1[..i], t2);
      OnlyDereferencesAppend(RegLoop(op, t1[..i], t2), [RegLoop(op, t1, t2)[i]], {});
      assert RegLoop(op, t1, t2) == RegLoop(op, t1[..i], t2) + [RegLoop(op, t1, t2)[i]];
    }
  }

  lemma {:induction false} SubRmDereferences(t: seq<Reg>, px: Reg)
    ensures OnlyDereferences(SubRm(t, px), {px})
  {
    if |t| > 0 {
      var i := |t| - 1;
      SubRmDereferences(t[..i], px);
      OnlyDereferencesAppend(SubRm(t[..i], px), [SubRm(t, px)[i]], {px});
      assert SubRm(t, px) == SubRm(t[..i], px) + [SubRm(t, px)[i]];
    }
  }

  lemma {:induction false} StoreDereferences(px: Reg, t: seq<Reg>)
    ensures OnlyDereferences(Store(px, t), {px})
  {
    if |t| > 0 {
      var i := |t| - 1;
      StoreDereferences(px, t[..i]);
      OnlyDereferencesAppend(Store(px, t[..i]), [Store(px, t)[i]], {px});
      assert Store(px, t) == Store(px, t[..i]) + [Store(px, t)[i]];
    }
  }

  /**
   * Once copy_rr has moved the sum into t2, overwriting the x and y
   * pointer registers, the code dereferences only p and z: x and y are
   * never read through again.
   */
  lemma OnlyPAndZAfterCopy(n: int)
    requires n >= 2
    ensures GenFpAdd(n).Some?
    ensures var code := GenFpAdd(n).value;
            |code| >= 2 * n + 2
            && OnlyDereferences(code[2 * n + 2..], {P, Z})
            && X in SecondTemps(n) && Y in SecondTemps(n)
  {
    var t, t2 := FirstTemps(n), SecondTemps(n);
    var head := [Xor(R(Rax, W32), R(Rax, W32))] + AddRmm(t, X, Y) + [Setc(R(Rax, W8))];
    var copy := RegLoop(OpMov, t2, t);
    var sel := RegLoop(OpCmovc, t, t2);
    var rest := copy + (SubRm(t, P) + [Sbb(R(Rax, W32), Imm(0))] + sel + Store(Z, t));
    assert GenFpAdd(n).value == head + rest;
    assert (head + rest)[2 * n + 2..] == rest;
    RegLoopDereferencesNothing(OpMov, t2, t);
    RegLoopDereferencesNothing(OpCmovc, t, t2);
    SubRmDereferences(t, P);
    StoreDereferences(Z, t);
    var sbb := [Sbb(R(Rax, W32), Imm(0))];
    assert OnlyDereferences(sbb, {});
    OnlyDereferencesAppend(SubRm(t, P), sbb, {P});
    OnlyDereferencesAppend(SubRm(t, P) + sbb, sel, {P});
    OnlyDereferencesAppend(SubRm(t, P) + sbb + sel, Store(Z, t), {P, Z});
    OnlyDereferencesAppend(copy, SubRm(t, P) + sbb + sel + Store(Z, t), {P, Z});
    assert t2[|t2| - 2] == X && t2[|t2| - 1] == Y;
  }
}
