# Fixed-width multi-precision arithmetic over 64-bit limbs

This project models the small arithmetic kernel of a blog repository on
multi-precision integers. A number is an array of N 64-bit limbs (`Unit`,
`uint64_t`), least significant limb first. Its value is
`Val(s) = s[0] + 2^64 * s[1] + ... + 2^(64(N-1)) * s[N-1]`. The kernels are:

- **N-limb addition with carry-out.**
  - A portable loop that recovers the carry from two wrap-around comparisons (`add-cpp.cpp`).
  - A loop over the `_addcarry_u64` intrinsic (`add-intrin.cpp`). As written, it drops the carry.
  - A compile-time recursive template (`addT<N, I>` in `mulunit-cpp.cpp`).
- **N-limb x 1-limb multiplication** returning the high limb.
  - `mulUnitT` first forms all 128-bit partial products, then combines them with the add kernel.
  - `mulUnitT2` is an interleaved mulx/adc chain.
  - `mulPre256` uses Clang's 256- and 320-bit integer types.
- **Two code generators** that emit x86-64 instructions.
  - The Xbyak `Code(N)` constructor and the Python `gen_add(N)` emit the same ADD/ADC/SETC add.
  - `gen_fp_add(N)` emits a branch-free modular addition. It computes `t = x + y` and `t - p` with SUB/SBB, then selects one of them with CMOVC.

The Dafny modules follow the source files:

| module | file(s) | contents |
|---|---|---|
| `Wrappers` | | `Option`: `None` stands for a machine fault or a generator exception |
| `Limbs` | | `BASE = 2^64`, `Limb`, `Pow`, `Val`, and the uniqueness of a (limbs, carry) representation |
| `Carry` | (shared) | `_addcarry_u64`, the comparison-based carry step, SUB/SBB borrow, and `mulUnit1` |
| `MulUnitCpp` | `src/mulunit-cpp.cpp` | recursive `addT`, `mulUnitT`, `mulUnitT2`, `mulUnit4`, `mulUnit2_4` |
| `AddCpp` | `src/add-cpp.cpp` | `addT<N>` over a flat memory, with aliasing, and `add4` |
| `AddIntrin` | `src/add-intrin.cpp` | `addT<N>` as written, `add4`, and the corrected loop |
| `AddExtInt` | `src/add-extint.cpp` | `mulPre256` |
| `X86` | | an interpreter for the instructions the generators emit |
| `AddXbyak` | `src/add-xbyak.cpp` | `Code(N)` as an instruction sequence, and its correctness |
| `GenAdd` | `src/gen_add.py` | `gen_add`, `add_rmm`, `copy_rr`, `sub_rm`, `store`, `cmovc_rr`, `gen_fp_add` |
| `FpAddRun` | `src/gen_add.py` | what each helper's emitted code does when run |
| `FpAdd` | `src/gen_add.py` | what `gen_fp_add(N)`'s function computes |

How the model works:

- **Agreement between backends.** Backends are compared through one fact, `Limbs.Unique`: a pair of N limbs plus a small carry has only one value. So every kernel proved to compute `x + y` (or `x * y`) produces exactly the reference result `MulUnitCpp.Add` (or `MulUnitCpp.MulUnitT`).
- **The x86 interpreter.** It follows the instruction descriptions of the Intel 64 and IA-32 Architectures Software Developer's Manual, Volume 2.
  - ADD/ADC/SUB/SBB set CF to the carry or borrow out of the operand size.
  - XOR clears CF.
  - MOV, SETcc, MOVZX and CMOVcc leave CF unchanged.
  - Writing a 32-bit register zeroes the upper half; writing an 8-bit register keeps the other 56 bits.
- **Memory.** Memory is a sequence of qwords addressed by byte, and addresses are computed modulo 2^64. An unaligned or out-of-range access is a fault. So is an operand combination x86 cannot encode.
- **Registers.** A register that was never written reads 0, and an arbitrary initial register map covers arbitrary initial contents. `StackFrame`'s parameters `p[i]` and temporaries `t[i]` are distinct abstract registers, all different from rax.

## Model

| member | source | states |
|---|---|---|
| Carry.AddCarryU64 | src/mulunit-cpp.cpp:20 | `_addcarry_u64` returns a carry of 0 or 1; the stored limb plus the carry times 2^64 is exactly a + b + carry-in; the carry is 1 exactly when that sum reaches 2^64 |
| Carry.CompareAddStep | src/add-cpp.cpp:11-15 | one iteration of the comparison loop stores (x + y + c) mod 2^64; the two comparisons never both fire, so the new carry is 0 or 1; it is 1 exactly when x + y + c overflows |
| Carry.CompareStepIsAddCarry | src/add-cpp.cpp:11-16 | for every limb pair and carry bit, the comparison-based step produces the same limb and carry as `_addcarry_u64` |
| Carry.MulUnit1 | src/mulunit-cpp.cpp:32-41 | `mulUnit1` loses nothing: high limb times 2^64 plus low limb is x * y; the high limb is at most 2^64 - 2 |
| Carry.ProductHighBound | src/mulunit-cpp.cpp:35-36 | the high 64 bits of a 64x64-bit product never exceed 2^64 - 2 |
| Carry.SubBorrowU64 | src/gen_add.py:36-41 | one SUB/SBB limb: the difference plus the subtrahend plus the borrow-in equals the minuend plus the borrow-out times 2^64; the borrow is 1 exactly when a < b + borrow-in |
| Carry.ChainStep | src/add-cpp.cpp:10-17 | the loop invariant of every add chain: one more limb with its carry keeps z + c * 2^(64i) == x[..i] + y[..i] |
| MulUnitCpp.AddT | src/mulunit-cpp.cpp:16-25 | `addT<N, I>` writes N - I limbs and returns a carry of 0 or 1; the limbs plus the carry at weight 2^(64(N-I)) equal x[I..N) + y[I..N) + the incoming carry; at I == N it returns the carry unchanged and writes nothing |
| MulUnitCpp.AddTStep | src/mulunit-cpp.cpp:19-21 | one level of the recursion: a limb from `_addcarry_u64`, followed by the result of the call on I + 1, keeps the value equation |
| MulUnitCpp.Add | src/mulunit-cpp.cpp:16-25 | the full add with carry-in 0 (the default argument): N limbs and a bit c with z + c * 2^(64N) == x + y |
| MulUnitCpp.AddUnique | src/mulunit-cpp.cpp:16-25 | any N limbs and carry whose value is x + y are the output of the add |
| MulUnitCpp.AddCarriesIntoNextLimb | src/mulunit-cpp.cpp:16-25 | [2^64-1, 0, 0, 0] + [1, 0, 0, 0] gives [0, 1, 0, 0] with carry 0 |
| MulUnitCpp.AddFullOverflow | src/mulunit-cpp.cpp:16-25 | four all-ones limbs plus one give four zero limbs with carry 1 |
| MulUnitCpp.HighsAt | src/mulunit-cpp.cpp:48-50 | H[i] is the high half of x[i] * y |
| MulUnitCpp.ValMulScalar | src/mulunit-cpp.cpp:48-50 | the partial products split x * y into the low halves L plus 2^64 times the high halves H |
| MulUnitCpp.Combine | src/mulunit-cpp.cpp:52 | `addT<N-1>(z + 1, L + 1, H)` writes N - 1 limbs and returns a carry bit; together they are worth L[1..N) + H[0..N-1) |
| MulUnitCpp.MulUnitTNoWrap | src/mulunit-cpp.cpp:51-52 | H[N-1] plus the carry of `addT<N-1>` is below 2^64, even for N == 1; z[0] = L[0], the added limbs, and that sum at weight 2^(64N) make exactly x * y |
| MulUnitCpp.WrittenIsProduct | src/mulunit-cpp.cpp:51-52 | the return value, the top sum cast to 64 bits, completes the N written limbs to x * y; z[0] is the low half of x[0] * y |
| MulUnitCpp.MulUnitT | src/mulunit-cpp.cpp:43-53 | `mulUnitT<N>` writes N limbs and returns h with z + h * 2^(64N) == x * y; z[0] is the low half of x[0] * y |
| MulUnitCpp.MulUnitTUnique | src/mulunit-cpp.cpp:43-53 | any N limbs and high limb worth x * y are the output of `mulUnitT` |
| MulUnitCpp.MulUnitTByZero | src/mulunit-cpp.cpp:46-52 | y == 0 writes zero limbs and returns 0 |
| MulUnitCpp.MulUnitTByOne | src/mulunit-cpp.cpp:46-52 | y == 1 writes x itself and returns 0 |
| MulUnitCpp.MulUnitTExample | src/mulunit-cpp.cpp:43-53 | [2, 0, 0, 0] * 2^63 gives [0, 1, 0, 0] with high limb 0 |
| MulUnitCpp.MulUnit4 | src/mulunit-cpp.cpp:55-58 | `mulUnit4` writes four limbs and returns h with z + h * 2^256 == x * y |
| MulUnitCpp.MulUnitT2 | src/mulunit-cpp.cpp:60-73 | the interleaved chain gives z + ret * 2^(64N) == x * y; its limbs and return value equal those of `mulUnitT` for every input without partial overlap of z and x |
| MulUnitCpp.MulUnitT2FinalNoCarry | src/mulunit-cpp.cpp:71-72 | once every limb is consumed, the final `_addcarry_u64(c, 0, L, &H)` never carries out: H == c + L, and it completes the written limbs to x * y |
| MulUnitCpp.MulUnitT2Step | src/mulunit-cpp.cpp:66-70 | the loop invariant of `mulUnitT2`: z[0..i) + (c + L) * 2^(64i) == x[0..i) * y is kept by one iteration |
| MulUnitCpp.MulUnit2_4 | src/mulunit-cpp.cpp:75-78 | `mulUnit2_4` and `mulUnit4` produce the same limbs and the same return value on every input without partial overlap of z and x |
| AddCpp.AddT | src/add-cpp.cpp:6-19 | the returned carry is 0 or 1; the limbs written plus the carry at weight 2^(64N) are x + y as read before the call; only z[0..N) changes; the result is the same whether z is separate from x and y or equal to one of them, and it equals the recursive add |
| AddCpp.ReadsUntouched | src/add-cpp.cpp:11-16 | when limb i is read, x[i] and y[i] still hold their values from before the call, even if z is x or y |
| AddCpp.Add4 | src/add-cpp.cpp:21-24 | `add4` is the four-limb add: same limbs and carry as `addT<4>`, and no other memory changes |
| AddIntrin.AddT | src/add-intrin.cpp:14-22 | as written: every z[i] is (x[i] + y[i]) mod 2^64 with carry-in 0, and the call returns 0 |
| AddIntrin.Add4 | src/add-intrin.cpp:24-27 | `add4` as written: limbwise sums and return value 0 |
| AddIntrin.LimbwiseSumVal | src/add-intrin.cpp:18-20 | a limbwise sum falls short of x + y by exactly the dropped carries, 2^(64(i+1)) for each overflowing limb pair i |
| AddIntrin.LostCarriesZero | src/add-intrin.cpp:18-20 | nothing is lost if and only if no limb pair overflows |
| AddIntrin.AgreesIffNoLimbOverflow | src/add-intrin.cpp:14-22 | the as-written kernel returns the same limbs and carry as the carry-propagating add if and only if no x[i] + y[i] reaches 2^64 |
| AddIntrin.DroppedCarryCounterexample | src/add-intrin.cpp:17-21 | on [2^64-1, 0, 0, 0] + [1, 0, 0, 0] the as-written kernel stores [0, 0, 0, 0] and returns 0, but the sum is [0, 1, 0, 0] |
| AddIntrin.AddTFixed | src/add-intrin.cpp:14-22 | with the intrinsic's carry fed back, the loop computes z + c * 2^(64N) == x + y with c a bit: the same output as every other add kernel |
| AddExtInt.ProductFits | src/add-extint.cpp:3-8 | a 256-bit value times a 64-bit value is below 2^320, so the `uint320_t` product never wraps |
| AddExtInt.MulPre256 | src/add-extint.cpp:5-11 | the stored 256 bits plus the returned limb at weight 2^256 are exactly x * y; the stored part is x * y mod 2^256 and the returned part is x * y div 2^256; y == 0 gives (0, 0) and y == 1 gives (x, 0) |
| AddExtInt.MatchesMulUnit4 | src/add-extint.cpp:5-11 | `mulPre256` and `mulUnit4` agree: the stored 256 bits are the value of `mulUnit4`'s four limbs, and both return the same high limb |
| X86.FlagEffects | src/add-xbyak.cpp:13-19 | MOV, SETC, MOVZX and CMOVC leave CF unchanged and XOR clears it, so the MOV loads and stores between ADCs pass each carry on |
| X86.XorSelf | src/gen_add.py:62 | a value xor-ed with itself is zero, so `xor eax, eax` clears eax |
| X86.MovLoad | src/add-xbyak.cpp:13 | `mov r, [b + 8*i]` loads limb i of the array at b |
| X86.MovStore | src/add-xbyak.cpp:19 | `mov [b + 8*i], r` overwrites exactly limb i of the array at b |
| X86.BinaryRegMem | src/add-xbyak.cpp:14-18 | a 64-bit `op r, [b + 8*i]` combines r with limb i of the array at b, and sets CF as the operation defines |
| AddXbyak.CodeShape | src/add-xbyak.cpp:12-22 | the body has 3N + 2 instructions; limb i is loaded from [x + 8i], combined with [y + 8i] and stored to [z + 8i], in increasing i; the first arithmetic instruction is ADD and every later one is ADC; the body ends with SETC al, MOVZX eax, al |
| AddXbyak.AluIsAddCarry | src/add-xbyak.cpp:14-18 | 64-bit ADD with carry-in 0 and ADC with carry-in CF compute `_addcarry_u64` |
| AddXbyak.LimbRun | src/add-xbyak.cpp:13-19 | limb i's three instructions do not fault; they store the `_addcarry_u64` limb of x[i] + y[i] (plus CF for i > 0, plus nothing for i == 0) to z[i] and into rax, set CF to its carry, and change nothing else |
| AddXbyak.InputsIntact | src/add-xbyak.cpp:13-19 | after z[0..k) is written, x[k] and y[k] still hold their original values |
| AddXbyak.LimbLoopRun | src/add-xbyak.cpp:12-20 | after k limbs, z[0..k) and CF are the k-limb sum of x and y, and only rax and z[0..k) have changed |
| AddXbyak.CarryToRax | src/add-xbyak.cpp:21-22 | `setc al; movzx eax, al` leaves CF in rax as 0 or 1 and changes nothing else |
| AddXbyak.CodeCorrect | src/add-xbyak.cpp:5-23 | for N >= 1 with no harmful overlap, the function never faults, writes exactly z[0..N), changes no register but rax, and returns in rax a bit that is also in CF; (z, rax) equals the output of `addT<N>` on x and y |
| AddXbyak.EmptyCodeReturnsEntryCarry | src/add-xbyak.cpp:12-22 | with N == 0 no limb code is emitted, and the function returns whatever CF held on entry |
| GenAdd.GenAddIsXbyakCode | src/gen_add.py:4-19 | `gen_add(N)` emits exactly the instruction sequence of add-xbyak.cpp's `Code(N)`, for every N |
| GenAdd.GenAddSplit | src/gen_add.py:11-17 | the first k limbs of `Code`'s loop followed by `gen_add`'s iterations from k make `gen_add`'s whole loop |
| GenAdd.GenAddIteration | src/gen_add.py:12-17 | iteration i of `gen_add`'s loop emits `Code`'s three instructions for limb i |
| GenAdd.CopyRR | src/gen_add.py:30-33 | `copy_rr(t1, t2)` emits len(t1) instructions, the i-th being `mov t1[i], t2[i]`, when t2 has at least len(t1) registers, and raises IndexError otherwise; what the moves do when run is `FpAddRun.RegLoopRun` |
| GenAdd.CmovcRR | src/gen_add.py:48-50 | `cmovc_rr(t1, t2)` emits len(t1) instructions, the i-th being `cmovc t1[i], t2[i]`, when t2 has at least len(t1) registers, and raises IndexError otherwise; what they do when run is `FpAddRun.RegLoopRun` |
| GenAdd.RegisterBudget | src/gen_add.py:55-70 | for N >= 2, t and t2 (2N - 2 - N temporaries plus x and y) both hold N registers; for N < 2, t is empty and t2 holds x and y; with StackFrame's registers unbounded, the generator finishes exactly when N >= 2 |
| GenAdd.RegLoopDereferencesNothing | src/gen_add.py:30-33 | the code of `copy_rr` and `cmovc_rr` touches no memory |
| GenAdd.SubRmDereferences | src/gen_add.py:35-41 | the code of `sub_rm(t, px)` dereferences only px |
| GenAdd.StoreDereferences | src/gen_add.py:43-46 | the code of `store(px, t)` dereferences only px |
| GenAdd.OnlyPAndZAfterCopy | src/gen_add.py:67-76 | from `copy_rr` on, which overwrites the x and y registers, the code dereferences only p and z |
| FpAddRun.AddChainIsAdd | src/gen_add.py:21-28 | the ADD/ADC chain over all limbs is the reference N-limb add |
| FpAddRun.AddRmmRun | src/gen_add.py:21-28 | `add_rmm(t, px, py)` leaves in t the limbs of [px] + [py] and in CF its carry, as `addT` computes them; memory and every other register are unchanged |
| FpAddRun.SubMeaning | src/gen_add.py:35-41 | the SUB/SBB chain's limbs are (a - b) mod 2^(64N), and its borrow is set exactly when a < b |
| FpAddRun.SubRmRun | src/gen_add.py:35-41 | `sub_rm(t, px)` leaves in t the limbs of t - [px] and in CF the borrow; memory and every other register are unchanged |
| FpAddRun.RegLoopRun | src/gen_add.py:30-33 | `copy_rr`, and `cmovc_rr` when CF is set, give each t1[i] the value t2[i] had before the loop; CF, memory and the other registers are unchanged |
| FpAddRun.StoreRun | src/gen_add.py:43-46 | `store(px, t)` writes the registers of t, in order, to the array at px; nothing else changes |
| FpAddRun.XorEax | src/gen_add.py:62 | `xor eax, eax` clears rax and CF |
| FpAddRun.SetcAl | src/gen_add.py:66 | `setc al`, with rax cleared, puts CF in rax as 0 or 1 |
| FpAddRun.SbbEax | src/gen_add.py:73 | `sbb eax, 0` with eax = c in {0, 1} leaves (c - CF) mod 2^32, and sets CF exactly when c < CF |
| FpAdd.ReferenceMeaning | src/gen_add.py:62-76 | x + y is kept exactly when it is below p, and then rax is 0xFFFFFFFF; otherwise z is (x + y - p) mod 2^(64N) and rax is 0 or 1 |
| FpAdd.ReferenceIsModularAdd | src/gen_add.py:62-76 | for x, y < p the selected limbs are (x + y) mod p |
| FpAdd.Registers | src/gen_add.py:55-69 | for N >= 2, t and t2 are N registers each, none repeated and none shared; t avoids rax and the four pointers; t2 avoids rax, p and z |
| FpAdd.GenFpAddCode | src/gen_add.py:52-76 | for N >= 2, the body is the head (xor, add_rmm, setc), `copy_rr(t2, t)`, then sub_rm, sbb, cmovc_rr and store |
| FpAdd.HeadPhase | src/gen_add.py:62-66 | after `xor eax, eax`, `add_rmm(t, x, y)` and `setc al`, t holds x + y and rax holds its carry; p, z and memory are unchanged |
| FpAdd.CopyPhase | src/gen_add.py:68-70 | `copy_rr(t2, t)` gives t2 the values of t and keeps t, rax, p, z and memory |
| FpAdd.ReducePhase | src/gen_add.py:72-73 | `sub_rm(t, p)` and `sbb eax, 0` leave t - p in t; rax becomes (carry - borrow) mod 2^32; CF is set exactly when carry < borrow; t2 is unchanged |
| FpAdd.SelectPhase | src/gen_add.py:75 | `cmovc_rr(t, t2)` gives t the values of t2 when CF is set and keeps t otherwise; CF, rax, z and memory are unchanged |
| FpAdd.GenFpAddRun | src/gen_add.py:52-76 | for N >= 2, the emitted function never faults; it stores the reference result at z and changes no other memory; it leaves CF set exactly when x + y was kept and returns the reference rax |
| FpAdd.GenFpAddIsModularAdd | src/gen_add.py:52-76 | for x, y < p, the emitted function stores (x + y) mod p at z |

## Left out

- The `main` of `src/add-xbyak.cpp` (lines 26-32), which writes the code bytes to a file, is I/O and is not modelled.
- The argument parsing and assembler output of `src/gen_add.py` (lines 78-89) are not modelled.
- The `align(16)` and `FuncProc` directives are not modelled. Neither is the `StackFrame` prologue and epilogue (saving registers, the Win64 or SysV mapping of `p[i]` and `t[i]`). These emit no instruction of the function body, and their register assignment belongs to Xbyak and gen_x86asm, which are not part of this model. Parameters and temporaries are distinct abstract registers.
- Machine-code byte encoding, executable-memory allocation and protection, and calling the generated code through a function pointer are not modelled.
- The interpreter models only CF. The other flags (ZF, SF, OF, PF, AF) are not read by any emitted instruction.
- Immediates are imm8 values 0..127, which covers the `sbb eax, 0` that is emitted. Memory operands are aligned qwords. Other operand forms fault.
- The samples under `x64/sample/` (`add.cpp`, `ret.cpp`, `lookup.cpp`, `same-code-data.cpp`, `separate-code-data.cpp`, `bsr.cpp`) are Xbyak demos of jump tables, data placement and page protection, and a floating-point bit-scan trick. They are outside the arithmetic kernel and are not modelled.
- The compiler-specific choice between `uint128_t` and `_umul128` in `mulUnit1` (`src/mulunit-cpp.cpp` lines 27-30, 34-40) is not modelled. Both give the exact 128-bit product, which is what `Carry.MulUnit1` states.
- `_mulx_u64` in `mulUnitT2` is modelled as `Carry.MulUnit1`, since both compute the same 128-bit product and neither touches the flags in a way the C code observes.
- `GenAdd.AddRmm`, `GenAdd.SubRm`, `GenAdd.Store`, `GenAdd.RegLoop`: the generator functions' own contracts state only the number of instructions emitted. What the emitted code computes is stated by `FpAddRun.AddRmmRun`, `FpAddRun.SubRmRun`, `FpAddRun.StoreRun` and `FpAddRun.RegLoopRun`.
- `MulUnitCpp.AddT`, `MulUnitCpp.MulUnitT`, `MulUnitCpp.MulUnitT2`, `MulUnitCpp.MulUnit4`, `MulUnitCpp.MulUnit2_4`, `AddIntrin.AddT`, `AddIntrin.AddTFixed`: these take x and y as values and return z. So they model calls where z is separate from the inputs or equal to one of them. They do not model a z that partially overlaps an input. There the C code reads limbs it has already overwritten, and the kernels no longer agree. For example, with z = x + 1, x = [1, 1] and y = 2, `mulUnitT` reads all of x first and stores [2, 2], while `mulUnitT2` overwrites x[1] with z[0] before reading it and stores [2, 4]. Among the C kernels, only `AddCpp.AddT` models memory with aliasing; `AddXbyak.CodeCorrect` and `FpAdd.GenFpAddRun` model the generated code over a shared memory.
- `AddCpp.AddT` requires z not to start strictly inside x or y. When it does, `z[i]` overwrites an input limb that has not been read yet, and the source no longer computes x + y. The model covers separate arrays and `z == x` / `z == y`, which are the aliasings the kernel is meant for.
- `AddXbyak.CodeCorrect` assumes the same overlap condition as `AddCpp.AddT`, and N >= 1. For N == 0, `AddXbyak.EmptyCodeReturnsEntryCarry` states what happens.
- `FpAdd.GenFpAddRun`, `FpAdd.GenFpAddIsModularAdd`: with N < 2 the generator fails (`GenAdd.RegisterBudget`): for N == 1 `copy_rr` raises IndexError, and for N <= 0 the temporary count 2N - 2 is negative. Because of this, both lemmas are stated for N >= 2 only.
- `GenAdd.RegisterBudget`, `GenAdd.GenFpAdd`: `StackFrame(4, 2N - 2)` is modelled with an unbounded supply of abstract registers. The model assumes that a real StackFrame draws on the 16 general-purpose registers less rax and rsp, so that it can hand out at most 14; `gen_fp_add(N)` needs 2N + 2 of them. Under that assumption about gen_x86asm, for N >= 7 the real generator fails inside StackFrame, after `align(16)` and the `FuncProc` label (`src/gen_add.py` lines 53-54) and before emitting any instruction of the function body. For N <= 0 the model also returns None, whatever StackFrame does with a negative count. StackFrame's own checks belong to the assembler library, which is not part of this model.
- `FpAddRun.AddRmmRun`, `FpAddRun.SubRmRun`, `FpAddRun.RegLoopRun` assume distinct destination registers that are not the pointer registers, which is how `gen_fp_add` calls them (`FpAdd.Registers`).

## Findings

| source | as written | input that shows it | evidently intended | confidence | as-written member | corrected member |
|---|---|---|---|---|---|---|
| src/add-intrin.cpp:17-21 | `_addcarry_u64(c, x[i], y[i], &z[i])` discards the carry it returns, so `c` stays 0: every limb is added with carry-in 0 and `addT` returns 0 | x = [2^64-1, 0, 0, 0], y = [1, 0, 0, 0]: z = [0, 0, 0, 0] and return 0, where the sum is [0, 1, 0, 0] with carry 0 | `c = _addcarry_u64(c, x[i], y[i], &z[i]);`, which makes the loop agree with the other add kernels | not executed | AddIntrin.AddT (with AddIntrin.DroppedCarryCounterexample and AddIntrin.AgreesIffNoLimbOverflow) | AddIntrin.AddTFixed |
