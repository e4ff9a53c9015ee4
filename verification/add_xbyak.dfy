/**
 * add-xbyak.cpp: `Code(N)` emits, after the StackFrame prologue, the body
 * of an N-limb add z = x + y: per limb a load, an ADD (limb 0) or ADC
 * (later limbs) from memory, and a store; then SETC al / MOVZX eax, al to
 * return the final carry. The prologue and epilogue are not modelled.
 */
module AddXbyak {
  import opened Limbs
  import opened Carry
  import opened Wrappers
  import opened X86
  import MulUnitCpp
  import AddCpp

  /** StackFrame parameters: p[0] = z, p[1] = x, p[2] = y. */
  const Z: Reg := Param(0)
  const X: Reg := Param(1)
  const Y: Reg := Param(2)

  /** The three instructions of limb i. */
  function LimbCode(i: nat): seq<Instr>
  {
    [ Mov(R(Rax, W64), M(X, 8 * i)),
      if i == 0 then Add(R(Rax, W64), M(Y, 8 * i)) else Adc(R(Rax, W64), M(Y, 8 * i)),
      Mov(M(Z, 8 * i), R(Rax, W64)) ]
  }

  /** Limbs 0 .. k-1, in increasing order. */
  function LimbLoop(k: nat): (prog: seq<Instr>)
    ensures |prog| == 3 * k
  {
    if k == 0 then [] else LimbLoop(k - 1) + LimbCode(k - 1)
  }

  /** The emitted body; a non-positive N emits no limb code. */
  function Code(n: int): seq<Instr>
  {
    LimbLoop(if n > 0 then n else 0) + [Setc(R(Rax, W8)), Movzx(R(Rax, W32), R(Rax, W8))]
  }

  /** Instructions 3i .. 3i+2 of the limb loop are limb i's code. */
  lemma {:induction false} LimbLoopAt(k: nat, i: nat, o: nat)
    requires i < k && o < 3
    ensures LimbLoop(k)[3 * i + o] == LimbCode(i)[o]
  {
    if i < k - 1 {
      LimbLoopAt(k - 1, i, o);
    }
  }

  /**
   * The body has 3N + 2 instructions. Limb i is loaded from [x + 8i],
   * combined with [y + 8i] and stored to [z + 8i], in increasing i; the
   * first arithmetic instruction is ADD and every later one is ADC; the
   * carry is materialised by SETC al and MOVZX eax, al.
   */
  lemma CodeShape(n: nat)
    ensures |Code(n)| == 3 * n + 2
    ensures forall i :: 0 <= i < n ==> Code(n)[3 * i] == Mov(R(Rax, W64), M(X, 8 * i))
    ensures n > 0 ==> Code(n)[1] == Add(R(Rax, W64), M(Y, 0))
    ensures forall i :: 0 < i < n ==> Code(n)[3 * i + 1] == Adc(R(Rax, W64), M(Y, 8 * i))
    ensures forall i :: 0 <= i < n ==> Code(n)[3 * i + 2] == Mov(M(Z, 8 * i), R(Rax, W64))
    ensures Code(n)[3 * n] == Setc(R(Rax, W8)) && Code(n)[3 * n + 1] == Movzx(R(Rax, W32), R(Rax, W8))
  {
    var loop, tail := LimbLoop(n), [Setc(R(Rax, W8)), Movzx(R(Rax, W32), R(Rax, W8))];
    assert Code(n) == loop + tail;
    forall i | 0 <= i < n
      ensures Code(n)[3 * i] == Mov(R(Rax, W64), M(X, 8 * i))
      ensures Code(n)[3 * i + 1] == if i == 0 then Add(R(Rax, W64), M(Y, 0)) else Adc(R(Rax, W64), M(Y, 8 * i))
      ensures Code(n)[3 * i + 2] == Mov(M(Z, 8 * i), R(Rax, W64))
    {
      LimbLoopAt(n, i, 0);
      LimbLoopAt(n, i, 1);
      LimbLoopAt(n, i, 2);
      assert Code(n)[3 * i + 1] == loop[3 * i + 1] && Code(n)[3 * i + 2] == loop[3 * i + 2];
    }
    if n > 0 {
      LimbLoopAt(n, 0, 1);
      assert Code(n)[1] == loop[1];
    }
  }

  /** What the generated function may assume: aligned arrays in memory, no later aliasing. */
  predicate AddCall(m: Machine, n: nat)
  {
    && WellFormed(m)
    && ValidArray(m, Z, n) && ValidArray(m, X, n) && ValidArray(m, Y, n)
    && AddCpp.NoLaterAlias(Slot(m, Z, 0), Slot(m, X, 0), n)
    && AddCpp.NoLaterAlias(Slot(m, Z, 0), Slot(m, Y, 0), n)
  }

  /** The carry the chain holds after k limbs; before limb 0 there is none. */
  function ChainCarry(m: Machine, k: nat): nat
  {
    if k == 0 then 0 else Bit(m.cf)
  }

  /** 64-bit ADD (carry-in 0) and ADC (carry-in CF) compute `_addcarry_u64`. */
  lemma AluIsAddCarry(op: AluOp, c: nat, a: Limb, b: Limb, cf: bool)
    requires (op == OpAdd && c == 0) || (op == OpAdc && c == Bit(cf))
    ensures Alu(op, W64, a, b, cf) == (AddCarryU64(c, a, b).sum, AddCarryU64(c, a, b).carry == 1)
  {
    var s := AddCarryU64(c, a, b);
    var t := a + b + c;
    assert CarryIn(c) == c;
    assert s.sum == t % BASE by {
      if t >= BASE {
        assert t % BASE == t - BASE;
      }
    }
  }

  /** ADD (limb 0) or ADC (later limbs) of [y + 8i] into rax is one add-with-carry step. */
  lemma LimbAluStep(m: Machine, i: nat, xi: Limb, yi: Limb)
    requires WellFormed(m) && ValidArray(m, Y, i + 1)
    requires Get(m, Rax) == xi && m.mem[Slot(m, Y, i)] == yi
    ensures var s := AddCarryU64(ChainCarry(m, i), xi, yi);
            Step(m, LimbCode(i)[1]) == Some(Machine(m.regs[Rax := s.sum], s.carry == 1, m.mem))
  {
    var s := AddCarryU64(ChainCarry(m, i), xi, yi);
    var op := if i == 0 then OpAdd else OpAdc;
    var dst, src := R(Rax, W64), M(Y, 8 * i);
    assert Step(m, LimbCode(i)[1]) == Binary(m, op, dst, src);
    ReadLimbReg(m, Rax);
    ReadLimbMem(m, Y, i + 1, i);
    AluIsAddCarry(op, ChainCarry(m, i), xi, yi, m.cf);
    assert Binary(m, op, dst, src) == Write(m.(cf := s.carry == 1), dst, W64, s.sum);
    WriteLimbReg(m.(cf := s.carry == 1), Rax, s.sum);
  }

  /** Executing limb i's three instructions. */
  lemma LimbRun(m: Machine, i: nat)
    requires WellFormed(m)
    requires ValidArray(m, X, i + 1) && ValidArray(m, Y, i + 1) && ValidArray(m, Z, i + 1)
    ensures var s := AddCarryU64(ChainCarry(m, i), m.mem[Slot(m, X, i)], m.mem[Slot(m, Y, i)]);
            Run(m, LimbCode(i))
            == Some(Machine(m.regs[Rax := s.sum], s.carry == 1, m.mem[Slot(m, Z, i) := s.sum]))
  {
    var xi, yi := m.mem[Slot(m, X, i)], m.mem[Slot(m, Y, i)];
    var s := AddCarryU64(ChainCarry(m, i), xi, yi);
    var code := LimbCode(i);
    MovLoad(m, Rax, X, i + 1, i);
    var m1 := m.(regs := m.regs[Rax := xi]);
    assert Get(m1, Rax) == xi;
    assert Get(m1, Y) == Get(m, Y) && Get(m1, Z) == Get(m, Z);
    assert Slot(m1, Y, i) == Slot(m, Y, i) && m1.mem == m.mem && m1.cf == m.cf;
    LimbAluStep(m1, i, xi, yi);
    var m2 := Machine(m.regs[Rax := s.sum], s.carry == 1, m.mem);
    OverwriteReg(m.regs, Rax, xi, s.sum);
    assert Step(m1, code[1]) == Some(m2);
    assert Get(m2, Z) == Get(m, Z) && Get(m2, Rax) == s.sum;
    MovStore(m2, Z, i + 1, i, Rax);
    var m3 := m2.(mem := m.mem[Slot(m, Z, i) := s.sum]);
    assert Slot(m2, Z, i) == Slot(m, Z, i);
    RunThree(m, code[0], code[1], code[2], m1, m2, m3);
    assert code == [code[0], code[1], code[2]];
  }

  /** Limbs z[0..k) of the output array after a run that reached machine m'. */
  function Written(m: Machine, n: nat, k: nat, m': Machine): (zs: seq<Limb>)
    requires AddCall(m, n) && k <= n && |m'.mem| == |m.mem|
    ensures |zs| == k
  {
    m'.mem[Slot(m, Z, 0)..Slot(m, Z, k)]
  }

  /** After k limbs only rax and z[0..k) may have changed. */
  ghost predicate Framed(m: Machine, n: nat, k: nat, m': Machine)
    requires AddCall(m, n) && k <= n
  {
    && |m'.mem| == |m.mem|
    && (forall r :: r != Rax ==> Get(m', r) == Get(m, r))
    && (forall q :: 0 <= q < |m.mem| && !(Slot(m, Z, 0) <= q < Slot(m, Z, k)) ==> m'.mem[q] == m.mem[q])
  }

  /** After k limbs, z[0..k) and CF hold the k-limb sum of x and y. */
  ghost predicate AfterLimbs(m: Machine, n: nat, k: nat, m': Machine)
    requires AddCall(m, n) && k <= n
  {
    && Framed(m, n, k, m')
    && Val(Written(m, n, k, m')) + ChainCarry(m', k) * Pow(k)
       == Val(Array(m, X, n)[..k]) + Val(Array(m, Y, n)[..k])
  }

  /** Limb k of x and y is still intact after the first k limbs of z are written. */
  lemma InputsIntact(m: Machine, n: nat, k: nat, m': Machine)
    requires AddCall(m, n) && k < n && Framed(m, n, k, m')
    ensures WellFormed(m')
    ensures ValidArray(m', X, k + 1) && ValidArray(m', Y, k + 1) && ValidArray(m', Z, k + 1)
    ensures Slot(m', X, k) == Slot(m, X, k) && Slot(m', Y, k) == Slot(m, Y, k) && Slot(m', Z, k) == Slot(m, Z, k)
    ensures m'.mem[Slot(m, X, k)] == Array(m, X, n)[k]
    ensures m'.mem[Slot(m, Y, k)] == Array(m, Y, n)[k]
  {
    assert Get(m', X) == Get(m, X) && Get(m', Y) == Get(m, Y) && Get(m', Z) == Get(m, Z);
  }

  /** Limb k's code runs, keeps the frame, and appends one limb to z. */
  lemma LimbFrame(m: Machine, n: nat, k: nat, m1: Machine)
    requires AddCall(m, n) && k < n && Framed(m, n, k, m1)
    ensures Run(m1, LimbCode(k)).Some?
    ensures var s := AddCarryU64(ChainCarry(m1, k), Array(m, X, n)[k], Array(m, Y, n)[k]);
            var m2 := Run(m1, LimbCode(k)).value;
            && Framed(m, n, k + 1, m2)
            && Written(m, n, k + 1, m2) == Written(m, n, k, m1) + [s.sum]
            && ChainCarry(m2, k + 1) == s.carry
  {
    InputsIntact(m, n, k, m1);
    LimbRun(m1, k);
    var s := AddCarryU64(ChainCarry(m1, k), Array(m, X, n)[k], Array(m, Y, n)[k]);
    var m2 := Run(m1, LimbCode(k)).value;
    var z0 := Slot(m, Z, 0);
    assert m2.mem == m1.mem[z0 + k := s.sum];
    assert Get(m2, X) == Get(m1, X);
    SliceOfUpdate(m1.mem, z0, k, s.sum);
  }

  /** Writing v just past the slice mem[lo..lo + k) extends that slice by v. */
  lemma SliceOfUpdate(mem: seq<Limb>, lo: nat, k: nat, v: Limb)
    requires lo + k < |mem|
    ensures mem[lo + k := v][lo..lo + k + 1] == mem[lo..lo + k] + [v]
  {
    assert mem[lo + k := v][lo..lo + k] == mem[lo..lo + k];
  }

  /** Limb k's code extends AfterLimbs from k to k + 1. */
  lemma LimbExtends(m: Machine, n: nat, k: nat, m1: Machine)
    requires AddCall(m, n) && k < n && AfterLimbs(m, n, k, m1)
    ensures Run(m1, LimbCode(k)).Some?
    ensures AfterLimbs(m, n, k + 1, Run(m1, LimbCode(k)).value)
  {
    LimbFrame(m, n, k, m1);
    var xs, ys := Array(m, X, n), Array(m, Y, n);
    var s := AddCarryU64(ChainCarry(m1, k), xs[k], ys[k]);
    ChainStep(Written(m, n, k, m1), xs, ys, k, ChainCarry(m1, k), s);
  }

  /** The limb loop, by induction on the number of limbs emitted. */
  lemma {:induction false} LimbLoopRun(m: Machine, n: nat, k: nat)
    requires AddCall(m, n) && k <= n
    ensures Run(m, LimbLoop(k)).Some?
    ensures AfterLimbs(m, n, k, Run(m, LimbLoop(k)).value)
  {
    if k == 0 {
      assert Run(m, LimbLoop(0)) == Some(m);
      assert Written(m, n, 0, m) == [];
    } else {
      LimbLoopRun(m, n, k - 1);
      RunAppend(m, LimbLoop(k - 1), LimbCode(k - 1));
      LimbExtends(m, n, k - 1, Run(m, LimbLoop(k - 1)).value);
    }
  }

  /** Replacing the low byte of a register with b and reading the low byte back gives b. */
  lemma LowByteRoundTrip(prev: Limb, b: nat)
    requires b < 0x100
    ensures (prev - prev % 0x100 + b) % 0x100 == b
  {
    var q := prev / 0x100;
    assert prev - prev % 0x100 + b == q * 0x100 + b;
    DivModUnique(0x100, q, b, (q * 0x100 + b) / 0x100, (q * 0x100 + b) % 0x100);
  }

  /**
   * `setc al` writes CF into the low byte of rax and keeps the other
   * registers, the flags and memory, so a later write of CF to rax
   * overrides it.
   */
  lemma SetcStep(m: Machine) returns (m1: Machine)
    ensures Step(m, Setc(R(Rax, W8))) == Some(m1)
    ensures Get(m1, Rax) % 0x100 == Bit(m.cf)
    ensures m1.(regs := m1.regs[Rax := Bit(m.cf)]) == m.(regs := m.regs[Rax := Bit(m.cf)])
  {
    var prev := Get(m, Rax);
    var b := Bit(m.cf);
    LowByteWrite(prev, b);
    m1 := m.(regs := m.regs[Rax := prev - prev % 0x100 + b]);
    LowByteRoundTrip(prev, b);
    OverwriteReg(m.regs, Rax, prev - prev % 0x100 + b, b);
  }

  /** `movzx eax, al` keeps only the low byte of rax. */
  lemma MovzxStep(m: Machine)
    ensures Step(m, Movzx(R(Rax, W32), R(Rax, W8))) == Some(m.(regs := m.regs[Rax := Get(m, Rax) % 0x100]))
  {
  }

  /** `setc al; movzx eax, al` leaves CF in rax, as 0 or 1, and changes nothing else. */
  lemma CarryToRax(m: Machine)
    ensures Run(m, [Setc(R(Rax, W8)), Movzx(R(Rax, W32), R(Rax, W8))])
            == Some(m.(regs := m.regs[Rax := Bit(m.cf)]))
  {
    var m1 := SetcStep(m);
    MovzxStep(m1);
    RunTwo(m, Setc(R(Rax, W8)), Movzx(R(Rax, W32), R(Rax, W8)), m1, m.(regs := m.regs[Rax := Bit(m.cf)]));
  }

  /**
   * The generated function adds: for N >= 1 limbs, with z not overlapping
   * a later limb of x or y, it never faults, writes exactly z[0..N), leaves
   * every register but rax alone, and returns in rax the carry, so that
   * (z, rax) is the N-limb sum of x and y as `addT` computes it.
   */
  lemma CodeCorrect(m: Machine, n: nat)
    requires n >= 1 && AddCall(m, n)
    ensures Run(m, Code(n)).Some?
    ensures var m' := Run(m, Code(n)).value;
            && |m'.mem| == |m.mem|
            && (forall r :: r != Rax ==> Get(m', r) == Get(m, r))
            && (forall q :: 0 <= q < |m.mem| && !(Slot(m, Z, 0) <= q < Slot(m, Z, n)) ==> m'.mem[q] == m.mem[q])
            && Get(m', Rax) <= 1
            && m'.cf == (Get(m', Rax) == 1)
            && ValidArray(m', Z, n)
            && MulUnitCpp.Sum(Array(m', Z, n), Get(m', Rax))
               == MulUnitCpp.Add(Array(m, X, n), Array(m, Y, n))
  {
    LimbLoopRun(m, n, n);
    var m1 := Run(m, LimbLoop(n)).value;
    var tail := [Setc(R(Rax, W8)), Movzx(R(Rax, W32), R(Rax, W8))];
    RunAppend(m, LimbLoop(n), tail);
    CarryToRax(m1);
    var m2 := m1.(regs := m1.regs[Rax := Bit(m1.cf)]);
    assert Run(m, Code(n)) == Some(m2);
    assert Get(m2, Z) == Get(m, Z);
    assert Array(m2, Z, n) == Written(m, n, n, m1);
    var xs, ys := Array(m, X, n), Array(m, Y, n);
    assert xs[..n] == xs && ys[..n] == ys;
    MulUnitCpp.AddUnique(xs, ys, Array(m2, Z, n), Bit(m1.cf));
  }

  /**
   * With N = 0 no limb code is emitted and the function returns whatever
   * CF held on entry: the result is not defined by x and y.
   */
  lemma EmptyCodeReturnsEntryCarry(m: Machine)
    ensures Run(m, Code(0)) == Some(m.(regs := m.regs[Rax := Bit(m.cf)]))
  {
    assert Code(0) == [Setc(R(Rax, W8)), Movzx(R(Rax, W32), R(Rax, W8))];
    CarryToRax(m);
  }
}
