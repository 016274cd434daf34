/**
 * x64 operands of the code generator (CodeGen/include/Luau/OperandX64.h): a register, an
 * immediate, or a memory reference `size [base + index * scale + disp]`, and the operator
 * overloads that build memory references.
 *
 * The `CODEGEN_ASSERT`s of the source are the callers' obligations and appear as
 * preconditions; so does the absence of signed 32-bit overflow, which C++ leaves
 * undefined. `Address` gives each memory operand its meaning, the effective address of an
 * x86 memory reference (base plus index times scale plus displacement), and every builder
 * is proved to compute the address its syntax promises.
 */
module OperandX64 {

  /** `SizeX64`. */
  datatype Size = SizeNone | Byte | Word | Dword | Qword | Xmmword | Ymmword

  /** `RegisterX64`: an operand size and a 5-bit register number. */
  datatype Register = Register(size: Size, index: nat)

  /** `noreg`: the register number 16 with no size, used for "no base" and "no index". */
  const NoReg := Register(SizeNone, 16)

  /** The stack pointer's register number, which cannot be scaled or used as an index. */
  const SpIndex := 4

  newtype Int32 = x: int | -0x8000_0000 <= x < 0x8000_0000

  predicate FitsInt32(x: int) {
    -0x8000_0000 <= x < 0x8000_0000
  }

  datatype Category = Reg | Mem | Imm

  /** `scale` is a 4-bit field. */
  datatype Operand = Operand(cat: Category, index: Register, base: Register, memSize: Size, scale: nat, imm: Int32)

  // ---------------------------------------------------------------------------------
  // Constructors and the size templates (OperandX64.h:25-53, 75-81)

  /** `OperandX64(RegisterX64)`. */
  function FromRegister(r: Register): (op: Operand)
    ensures op.cat == Reg && op.base == r
    ensures op.index == NoReg && op.memSize == SizeNone && op.scale == 1 && op.imm == 0
  {
    Operand(Reg, NoReg, r, SizeNone, 1, 0)
  }

  /** `OperandX64(int32_t)`. */
  function FromImmediate(imm: Int32): (op: Operand)
    ensures op.cat == Imm && op.imm == imm
    ensures op.index == NoReg && op.base == NoReg && op.memSize == SizeNone && op.scale == 1
  {
    Operand(Imm, NoReg, NoReg, SizeNone, 1, imm)
  }

  /** The memory constructor; `scale` is stored in a 4-bit field, so it wraps modulo 16. */
  function Memory(size: Size, index: Register, scale: nat, base: Register, disp: Int32): (op: Operand)
    ensures op.cat == Mem && op.scale < 16
    ensures scale < 16 ==> op.scale == scale
    ensures op.index == index && op.base == base && op.memSize == size && op.imm == disp
  {
    Operand(Mem, index, base, size, scale % 16, disp)
  }

  /** `addr`, `byte`, `word`, `dword`, `qword`, `xmmword`, `ymmword`: an empty reference of a size. */
  function Template(size: Size): (op: Operand)
    ensures IsTemplate(op) && op.memSize == size
  {
    Memory(size, NoReg, 1, NoReg, 0)
  }

  predicate IsTemplate(op: Operand) {
    op.cat == Mem && op.index == NoReg && op.scale == 1 && op.base == NoReg && op.imm == 0
  }

  // ---------------------------------------------------------------------------------
  // Meaning: the effective address of a memory operand

  /**
   * The effective address `base + index * scale + disp` of a memory operand, where
   * `noreg` contributes nothing; `regs` gives each register's value.
   */
  function Address(op: Operand, regs: Register -> int): int {
    (if op.base == NoReg then 0 else regs(op.base))
    + (if op.index == NoReg then 0 else regs(op.index) * op.scale)
    + op.imm as int
  }

  // ---------------------------------------------------------------------------------
  // Operators (OperandX64.h:63-141)

  /**
   * `size[addr]`: gives an address expression its operand size. The left side must be an
   * empty template and the address must not have a size yet.
   */
  function Index(template: Operand, address: Operand): (op: Operand)
    requires IsTemplate(template) && address.memSize == SizeNone
    ensures op.cat == Mem && op.memSize == template.memSize
    ensures op.index == address.index && op.base == address.base
    ensures op.scale == address.scale && op.imm == address.imm
  {
    address.(cat := Mem, memSize := template.memSize)
  }

  /** `reg * scale`: a scale of 1 is the register itself, otherwise a scaled index. */
  function Scale(r: Register, scale: nat): (op: Operand)
    requires scale == 1 || scale == 2 || scale == 4 || scale == 8
    requires scale != 1 ==> r.index != SpIndex
    ensures scale == 1 ==> op.cat == Reg && op.base == r
    ensures scale != 1 ==>
      && op.cat == Mem && op.memSize == SizeNone && op.index == r && op.scale == scale
      && op.base == NoReg && op.imm == 0
  {
    if scale == 1 then FromRegister(r) else Memory(SizeNone, r, scale, NoReg, 0)
  }

  /** `reg + disp`. */
  function AddDisp(r: Register, disp: Int32): (op: Operand)
    ensures op.cat == Mem && op.memSize == SizeNone
  {
    Memory(SizeNone, NoReg, 1, r, disp)
  }

  /** `reg - disp`: negating the most negative displacement would overflow. */
  function SubDisp(r: Register, disp: Int32): (op: Operand)
    requires disp != -0x8000_0000
    ensures op.cat == Mem && op.memSize == SizeNone
  {
    Memory(SizeNone, NoReg, 1, r, -disp)
  }

  /** `base + index`: the index must not be the stack pointer and the sizes must agree. */
  function AddRegisters(base: Register, index: Register): (op: Operand)
    requires index.index != SpIndex && base.size == index.size
    ensures op.cat == Mem && op.memSize == SizeNone
  {
    Memory(SizeNone, index, 1, base, 0)
  }

  /** `op + disp` on an unsized memory operand. */
  function OperandAddDisp(op: Operand, disp: Int32): (r: Operand)
    requires op.cat == Mem && op.memSize == SizeNone
    requires FitsInt32(op.imm as int + disp as int)
    ensures r.cat == Mem && r.memSize == SizeNone
    ensures r.index == op.index && r.base == op.base && r.scale == op.scale
  {
    op.(imm := (op.imm as int + disp as int) as Int32)
  }

  /** Whether a base register may be added to an unsized memory operand that has none. */
  predicate CanAddBase(op: Operand, base: Register) {
    && op.cat == Mem && op.memSize == SizeNone && op.base == NoReg
    && (op.index == NoReg || op.index.size == base.size)
  }

  /** `op + base`. */
  function OperandAddBase(op: Operand, base: Register): (r: Operand)
    requires CanAddBase(op, base)
    ensures r.cat == Mem && r.memSize == SizeNone && r.base == base
    ensures r.index == op.index && r.scale == op.scale && r.imm == op.imm
  {
    op.(base := base)
  }

  /** `base + op`. */
  function BaseAddOperand(base: Register, op: Operand): (r: Operand)
    requires CanAddBase(op, base)
    ensures r.cat == Mem && r.memSize == SizeNone && r.base == base
    ensures r.index == op.index && r.scale == op.scale && r.imm == op.imm
  {
    op.(base := base)
  }

  // ---------------------------------------------------------------------------------
  // Each builder computes the address its syntax promises

  /** `reg + disp` addresses `reg + disp`, and `reg - disp` addresses `reg - disp`. */
  lemma DispAddress(r: Register, disp: Int32, regs: Register -> int)
    requires r != NoReg
    ensures Address(AddDisp(r, disp), regs) == regs(r) + disp as int
    ensures disp != -0x8000_0000 ==> Address(SubDisp(r, disp), regs) == regs(r) - disp as int
  {
  }

  /** `reg - disp` is `reg + (-disp)`. */
  lemma SubIsAddNegated(r: Register, disp: Int32)
    requires disp != -0x8000_0000
    ensures SubDisp(r, disp) == AddDisp(r, -disp)
  {
  }

  /** `base + index` addresses the sum of the two registers. */
  lemma RegistersAddress(base: Register, index: Register, regs: Register -> int)
    requires index.index != SpIndex && base.size == index.size && base != NoReg && index != NoReg
    ensures Address(AddRegisters(base, index), regs) == regs(base) + regs(index)
  {
  }

  /** `index * scale`, for a scale other than 1, addresses `scale` times the register. */
  lemma ScaleAddress(r: Register, scale: nat, regs: Register -> int)
    requires scale == 2 || scale == 4 || scale == 8
    requires r.index != SpIndex && r != NoReg
    ensures Scale(r, scale).cat == Mem
    ensures Address(Scale(r, scale), regs) == regs(r) * scale
  {
  }

  /** Adding a displacement shifts the address by it; adding a base adds the register. */
  lemma OperandAddAddress(op: Operand, disp: Int32, base: Register, regs: Register -> int)
    requires op.cat == Mem && op.memSize == SizeNone
    ensures FitsInt32(op.imm as int + disp as int) ==>
      Address(OperandAddDisp(op, disp), regs) == Address(op, regs) + disp as int
    ensures CanAddBase(op, base) && base != NoReg ==>
      Address(OperandAddBase(op, base), regs) == Address(op, regs) + regs(base)
  {
  }

  /** Giving an address a size does not move it. */
  lemma IndexAddress(template: Operand, address: Operand, regs: Register -> int)
    requires IsTemplate(template) && address.memSize == SizeNone
    ensures Address(Index(template, address), regs) == Address(address, regs)
  {
  }

  /** `op + base` and `base + op` build the same operand. */
  lemma AddBaseCommutes(op: Operand, base: Register)
    requires CanAddBase(op, base)
    ensures OperandAddBase(op, base) == BaseAddOperand(base, op)
  {
  }

  /** Displacements accumulate: `(op + a) + b` is `op + (a + b)`. */
  lemma AddDispAssociates(op: Operand, a: Int32, b: Int32)
    requires op.cat == Mem && op.memSize == SizeNone
    requires FitsInt32(op.imm as int + a as int) && FitsInt32(a as int + b as int)
    requires FitsInt32(op.imm as int + a as int + b as int)
    ensures OperandAddDisp(OperandAddDisp(op, a), b) == OperandAddDisp(op, (a as int + b as int) as Int32)
  {
  }

  /**
   * The full form `size[base + index * scale + disp]` yields the memory operand with
   * exactly those components, and addresses `base + index * scale + disp`.
   */
  lemma FullAddressForm(size: Size, base: Register, index: Register, scale: nat, disp: Int32, regs: Register -> int)
    requires scale == 2 || scale == 4 || scale == 8
    requires index.index != SpIndex && index.size == base.size && base != NoReg && index != NoReg
    ensures var op := Index(Template(size), OperandAddDisp(BaseAddOperand(base, Scale(index, scale)), disp));
      && op == Memory(size, index, scale, base, disp)
      && Address(op, regs) == regs(base) + regs(index) * scale + disp as int
  {
  }
}
