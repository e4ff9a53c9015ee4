/**
 * The slice of x86-64 the code generators emit, with an interpreter.
 * Semantics follow the Intel SDM, Vol. 2: ADD/ADC/SUB/SBB set CF to the
 * carry or borrow out of the operand size, XOR clears CF, and MOV, SETcc,
 * MOVZX and CMOVcc leave it alone. A write to a 32-bit register clears the
 * upper half of the 64-bit register; a write to an 8-bit register keeps
 * the other 56 bits. Only the carry flag is modelled, and only the carry
 * condition (SETC, CMOVC) is used.
 *
 * Memory is an array of 8-byte-aligned qwords: byte address a names slot
 * a / 8. Registers hold byte addresses, so limb i of an array at p is at
 * [p + 8*i]. An access outside memory or off an 8-byte boundary, and an
 * operand combination x86 cannot encode, is a fault (None).
 */
module X86 {
  import opened Limbs
  import opened Wrappers

  /**
   * rax, the StackFrame parameter registers p[i] and temporaries t[i].
   * The mapping onto physical registers (Win64 or SysV) is abstracted away;
   * distinct names are distinct registers.
   */
  datatype Reg = Rax | Param(n: nat) | Temp(n: nat)

  /** Operand size: al-style 8-bit, eax-style 32-bit, rax-style 64-bit. */
  datatype Width = W8 | W32 | W64

  /** An operand: a (sub-)register, a qword memory reference [base + disp], or an imm8. */
  datatype Operand = R(reg: Reg, width: Width) | M(base: Reg, disp: nat) | Imm(value: nat)

  datatype Instr =
    | Mov(dst: Operand, src: Operand)
    | Add(dst: Operand, src: Operand)
    | Adc(dst: Operand, src: Operand)
    | Sub(dst: Operand, src: Operand)
    | Sbb(dst: Operand, src: Operand)
    | Xor(dst: Operand, src: Operand)
    | Setc(dst: Operand)
    | Movzx(dst: Operand, src: Operand)
    | Cmovc(dst: Operand, src: Operand)

  /** Register file (an absent register reads as 0), carry flag and qword memory. */
  datatype Machine = Machine(regs: map<Reg, Limb>, cf: bool, mem: seq<Limb>)

  /** 2^w for an operand size w. */
  function Modulus(w: Width): nat
  {
    match w
    case W8 => 0x100
    case W32 => 0x1_0000_0000
    case W64 => BASE
  }

  function Bit(b: bool): nat
  {
    if b then 1 else 0
  }

  function Get(m: Machine, r: Reg): Limb
  {
    if r in m.regs then m.regs[r] else 0
  }

  /** Memory fits in the 64-bit address space. */
  predicate WellFormed(m: Machine)
  {
    8 * |m.mem| <= BASE
  }

  /** The byte address of [base + disp], computed modulo 2^64. */
  function Address(m: Machine, base: Reg, disp: nat): nat
  {
    (Get(m, base) + disp) % BASE
  }

  predicate Addressable(m: Machine, a: nat)
  {
    a % 8 == 0 && a / 8 < |m.mem|
  }

  /** Reads an operand at size w; a register is read through its low w bits. */
  function Read(m: Machine, op: Operand, w: Width): (r: Option<nat>)
    ensures r.Some? ==> r.value < Modulus(w)
  {
    match op
    case R(reg, rw) => if rw == w then Some(Get(m, reg) % Modulus(w)) else None
    case M(base, disp) =>
      var a := Address(m, base, disp);
      if w == W64 && Addressable(m, a) then Some(m.mem[a / 8]) else None
    case Imm(v) => if v < 0x80 then Some(v) else None
  }

  /** Clearing the low byte of a 64-bit value and adding a byte stays below 2^64. */
  lemma LowByteWrite(prev: Limb, b: nat)
    requires b < 0x100
    ensures prev - prev % 0x100 + b < BASE
  {
    assert prev - prev % 0x100 == (prev / 0x100) * 0x100;
  }

  /** Writes the low w bits of v to a register, with x86's extension rules. */
  function WriteReg(m: Machine, r: Reg, w: Width, v: nat): (m': Machine)
    ensures m'.cf == m.cf && m'.mem == m.mem
  {
    var prev := Get(m, r);
    LowByteWrite(prev, v % 0x100);
    var nv: Limb :=
      match w
      case W64 => v % BASE
      case W32 => v % 0x1_0000_0000
      case W8 => prev - prev % 0x100 + v % 0x100;
    m.(regs := m.regs[r := nv])
  }

  function Write(m: Machine, op: Operand, w: Width, v: nat): Option<Machine>
  {
    match op
    case R(reg, rw) => if rw == w then Some(WriteReg(m, reg, w, v)) else None
    case M(base, disp) =>
      var a := Address(m, base, disp);
      if w == W64 && Addressable(m, a) then Some(m.(mem := m.mem[a / 8 := v % BASE])) else None
    case Imm(_) => None
  }

  /** The operand size of a two-operand form; None when x86 has no such encoding. */
  function OperandSize(dst: Operand, src: Operand): Option<Width>
  {
    match dst
    case R(_, w) => Some(w)
    case M(_, _) => if src.M? then None else Some(W64)
    case Imm(_) => None
  }

  datatype AluOp = OpMov | OpAdd | OpAdc | OpSub | OpSbb | OpXor | OpCmovc

  /** 2^k. */
  function Pow2(k: nat): (r: nat)
    ensures r >= 1
  {
    if k == 0 then 1 else 2 * Pow2(k - 1)
  }

  /** Number of bits of an operand size. */
  function Bits(w: Width): nat
  {
    match w
    case W8 => 8
    case W32 => 32
    case W64 => 64
  }

  lemma PowersOfTwo()
    ensures Pow2(8) == 0x100 && Pow2(32) == 0x1_0000_0000 && Pow2(64) == BASE
  {
    assert Pow2(4) == 16;
    assert Pow2(8) == 0x100;
    assert Pow2(16) == 0x1_0000 by { Pow2Add(8, 8); }
    assert Pow2(32) == 0x1_0000_0000 by { Pow2Add(16, 16); }
    assert Pow2(64) == BASE by { Pow2Add(32, 32); }
  }

  lemma {:induction false} Pow2Add(a: nat, b: nat)
    ensures Pow2(a + b) == Pow2(a) * Pow2(b)
  {
    if a > 0 {
      Pow2Add(a - 1, b);
      assert Pow2(a + b) == 2 * Pow2(a - 1 + b);
    }
  }

  /** Bitwise exclusive or of the low k bits of a and b. */
  function XorBits(a: nat, b: nat, k: nat): nat
  {
    if k == 0 then 0
    else (if a % 2 == b % 2 then 0 else 1) + 2 * XorBits(a / 2, b / 2, k - 1)
  }

  /** The xor of the low k bits of two values has at most k bits. */
  lemma {:induction false} XorBitsBelow(a: nat, b: nat, k: nat)
    ensures XorBits(a, b, k) < Pow2(k)
  {
    if k > 0 {
      XorBitsBelow(a / 2, b / 2, k - 1);
    }
  }

  /** An xor at operand size w fits in that size. */
  lemma XorBitsFit(a: nat, b: nat, w: Width)
    ensures XorBits(a, b, Bits(w)) < Modulus(w)
  {
    XorBitsBelow(a, b, Bits(w));
    PowersOfTwo();
  }

  /** A value xor-ed with itself is zero, which is why `xor eax, eax` clears eax. */
  lemma {:induction false} XorSelf(a: nat, k: nat)
    ensures XorBits(a, a, k) == 0
  {
    if k > 0 {
      XorSelf(a / 2, k - 1);
    }
  }

  /** The value written and the new carry flag of a two-operand instruction at size w. */
  function Alu(op: AluOp, w: Width, a: nat, b: nat, cf: bool): (r: (nat, bool))
    requires a < Modulus(w) && b < Modulus(w)
    ensures r.0 < Modulus(w)
  {
    var mod := Modulus(w);
    match op
    case OpMov => (b, cf)
    case OpAdd => ((a + b) % mod, a + b >= mod)
    case OpAdc => ((a + b + Bit(cf)) % mod, a + b + Bit(cf) >= mod)
    case OpSub => ((a - b) % mod, a < b)
    case OpSbb => ((a - (b + Bit(cf))) % mod, a < b + Bit(cf))
    case OpXor => XorBitsFit(a, b, w); (XorBits(a, b, Bits(w)), false)
    case OpCmovc => (if cf then b else a, cf)
  }

  function Binary(m: Machine, op: AluOp, dst: Operand, src: Operand): Option<Machine>
  {
    match OperandSize(dst, src)
    case None => None
    case Some(w) =>
      match Read(m, dst, w)
      case None => None
      case Some(a) =>
        match Read(m, src, w)
        case None => None
        case Some(b) =>
          var (v, cf) := Alu(op, w, a, b, m.cf);
          Write(m.(cf := cf), dst, w, v)
  }

  /** Executes one instruction. */
  function Step(m: Machine, ins: Instr): Option<Machine>
  {
    match ins
    case Mov(d, s) => Binary(m, OpMov, d, s)
    case Add(d, s) => Binary(m, OpAdd, d, s)
    case Adc(d, s) => Binary(m, OpAdc, d, s)
    case Sub(d, s) => Binary(m, OpSub, d, s)
    case Sbb(d, s) => Binary(m, OpSbb, d, s)
    case Xor(d, s) => Binary(m, OpXor, d, s)
    case Cmovc(d, s) =>
      if d.R? && d.width != W8 && !s.Imm? then Binary(m, OpCmovc, d, s) else None
    case Setc(d) =>
      if d.R? && d.width == W8 then Some(WriteReg(m, d.reg, W8, Bit(m.cf))) else None
    case Movzx(d, s) =>
      if d.R? && d.width != W8 && s.R? && s.width == W8
      then Some(WriteReg(m, d.reg, d.width, Get(m, s.reg) % 0x100))
      else None
  }

  /** Executes a straight-line program, stopping at the first fault. */
  function Run(m: Machine, prog: seq<Instr>): Option<Machine>
    decreases |prog|
  {
    if |prog| == 0 then Some(m)
    else
      match Step(m, prog[0])
      case None => None
      case Some(m') => Run(m', prog[1..])
  }

  /** Continues a run that has not faulted. */
  function Then(r: Option<Machine>, prog: seq<Instr>): Option<Machine>
  {
    match r
    case None => None
    case Some(m) => Run(m, prog)
  }

  /** Running a + b is running a, then b from where a stopped. */
  lemma {:induction false} RunAppend(m: Machine, a: seq<Instr>, b: seq<Instr>)
    ensures Run(m, a + b) == Then(Run(m, a), b)
    decreases |a|
  {
    if |a| > 0 {
      assert (a + b)[0] == a[0];
      assert (a + b)[1..] == a[1..] + b;
      match Step(m, a[0])
      case None =>
      case Some(m') => RunAppend(m', a[1..], b);
    } else {
      assert a + b == b;
    }
  }

  /** Running a single instruction is one step. */
  lemma RunOne(m: Machine, ins: Instr)
    ensures Run(m, [ins]) == Step(m, ins)
  {
    assert [ins][1..] == [];
  }

  /** Two steps that do not fault run as a two-instruction program. */
  lemma RunTwo(m: Machine, a: Instr, b: Instr, m1: Machine, m2: Machine)
    requires Step(m, a) == Some(m1) && Step(m1, b) == Some(m2)
    ensures Run(m, [a, b]) == Some(m2)
  {
    assert [a, b] == [a] + [b];
    RunAppend(m, [a], [b]);
    RunOne(m, a);
    RunOne(m1, b);
  }

  /** A second write to a register replaces the first. */
  lemma OverwriteReg(regs: map<Reg, Limb>, r: Reg, a: Limb, b: Limb)
    ensures regs[r := a][r := b] == regs[r := b]
  {
  }

  /** Three steps that do not fault run as a three-instruction program. */
  lemma RunThree(m: Machine, a: Instr, b: Instr, c: Instr, m1: Machine, m2: Machine, m3: Machine)
    requires Step(m, a) == Some(m1) && Step(m1, b) == Some(m2) && Step(m2, c) == Some(m3)
    ensures Run(m, [a, b, c]) == Some(m3)
  {
    assert [a, b, c] == [a] + ([b] + [c]);
    RunAppend(m, [a], [b] + [c]);
    RunAppend(m1, [b], [c]);
    RunOne(m, a);
    RunOne(m1, b);
    RunOne(m2, c);
  }

  /**
   * Flag effects: MOV, SETC, MOVZX and CMOVC leave CF unchanged and XOR
   * clears it.
   */
  lemma FlagEffects(m: Machine, ins: Instr)
    requires Step(m, ins).Some?
    ensures (ins.Mov? || ins.Setc? || ins.Movzx? || ins.Cmovc?) ==> Step(m, ins).value.cf == m.cf
    ensures ins.Xor? ==> !Step(m, ins).value.cf
  {
  }

  /** Limb i of the array whose byte address is in base register r. */
  function Slot(m: Machine, r: Reg, i: nat): nat
  {
    Get(m, r) / 8 + i
  }

  /** An n-qword array at the address held in r lies inside memory, aligned. */
  predicate ValidArray(m: Machine, r: Reg, n: nat)
  {
    Get(m, r) % 8 == 0 && Get(m, r) / 8 + n <= |m.mem|
  }

  /** The n limbs of the array at the address held in r. */
  function Array(m: Machine, r: Reg, n: nat): (s: seq<Limb>)
    requires ValidArray(m, r, n)
    ensures |s| == n
  {
    m.mem[Get(m, r) / 8 .. Get(m, r) / 8 + n]
  }

  /** In well-formed memory, [r + 8*i] is limb i of a valid array at r. */
  lemma AddressOfLimb(m: Machine, r: Reg, n: nat, i: nat)
    requires WellFormed(m) && ValidArray(m, r, n) && i < n
    ensures Address(m, r, 8 * i) == Get(m, r) + 8 * i
    ensures Addressable(m, Address(m, r, 8 * i))
    ensures Address(m, r, 8 * i) / 8 == Slot(m, r, i)
  {
  }

  /** A 64-bit register read yields the register. */
  lemma ReadLimbReg(m: Machine, r: Reg)
    ensures Read(m, R(r, W64), W64) == Some(Get(m, r))
  {
  }

  /** A 64-bit register write stores the value itself. */
  lemma WriteLimbReg(m: Machine, r: Reg, v: Limb)
    ensures Write(m, R(r, W64), W64, v) == Some(m.(regs := m.regs[r := v]))
  {
  }

  /** [r + 8*i] reads limb i of a valid array at r. */
  lemma ReadLimbMem(m: Machine, r: Reg, n: nat, i: nat)
    requires WellFormed(m) && ValidArray(m, r, n) && i < n
    ensures Read(m, M(r, 8 * i), W64) == Some(m.mem[Slot(m, r, i)])
  {
    AddressOfLimb(m, r, n, i);
  }

  /** Storing v to [r + 8*i] overwrites limb i of a valid array at r. */
  lemma WriteLimbMem(m: Machine, r: Reg, n: nat, i: nat, v: Limb)
    requires WellFormed(m) && ValidArray(m, r, n) && i < n
    ensures Write(m, M(r, 8 * i), W64, v) == Some(m.(mem := m.mem[Slot(m, r, i) := v]))
  {
    AddressOfLimb(m, r, n, i);
  }

  /** `mov r, [b + 8*i]` loads limb i of the array at b. */
  lemma MovLoad(m: Machine, r: Reg, b: Reg, n: nat, i: nat)
    requires WellFormed(m) && ValidArray(m, b, n) && i < n
    ensures Step(m, Mov(R(r, W64), M(b, 8 * i))) == Some(m.(regs := m.regs[r := m.mem[Slot(m, b, i)]]))
  {
    ReadLimbReg(m, r);
    ReadLimbMem(m, b, n, i);
    var v := m.mem[Slot(m, b, i)];
    assert Binary(m, OpMov, R(r, W64), M(b, 8 * i)) == Write(m.(cf := m.cf), R(r, W64), W64, v);
    WriteLimbReg(m, r, v);
  }

  /** `mov [b + 8*i], r` stores r to limb i of the array at b. */
  lemma MovStore(m: Machine, b: Reg, n: nat, i: nat, r: Reg)
    requires WellFormed(m) && ValidArray(m, b, n) && i < n
    ensures Step(m, Mov(M(b, 8 * i), R(r, W64))) == Some(m.(mem := m.mem[Slot(m, b, i) := Get(m, r)]))
  {
    ReadLimbReg(m, r);
    ReadLimbMem(m, b, n, i);
    assert Binary(m, OpMov, M(b, 8 * i), R(r, W64)) == Write(m.(cf := m.cf), M(b, 8 * i), W64, Get(m, r));
    WriteLimbMem(m, b, n, i, Get(m, r));
  }

  /** A 64-bit `op r, [b + 8*i]` combines r with limb i of the array at b. */
  lemma BinaryRegMem(m: Machine, op: AluOp, r: Reg, b: Reg, n: nat, i: nat)
    requires WellFormed(m) && ValidArray(m, b, n) && i < n
    ensures var (v, f) := Alu(op, W64, Get(m, r), m.mem[Slot(m, b, i)], m.cf);
            Binary(m, op, R(r, W64), M(b, 8 * i)) == Some(Machine(m.regs[r := v], f, m.mem))
  {
    ReadLimbReg(m, r);
    ReadLimbMem(m, b, n, i);
    var (v, f) := Alu(op, W64, Get(m, r), m.mem[Slot(m, b, i)], m.cf);
    assert Binary(m, op, R(r, W64), M(b, 8 * i)) == Write(m.(cf := f), R(r, W64), W64, v);
    WriteLimbReg(m.(cf := f), r, v);
  }

  /** A 64-bit `op r, s` between two registers. */
  lemma BinaryRegReg(m: Machine, op: AluOp, r: Reg, s: Reg)
    ensures var (v, f) := Alu(op, W64, Get(m, r), Get(m, s), m.cf);
            Binary(m, op, R(r, W64), R(s, W64)) == Some(Machine(m.regs[r := v], f, m.mem))
  {
    ReadLimbReg(m, r);
    ReadLimbReg(m, s);
    var (v, f) := Alu(op, W64, Get(m, r), Get(m, s), m.cf);
    assert Binary(m, op, R(r, W64), R(s, W64)) == Write(m.(cf := f), R(r, W64), W64, v);
    WriteLimbReg(m.(cf := f), r, v);
  }
}
