/** The integer instructions of the MIR that division by a constant uses
    (src/mir/instr.hpp), with the 64 bit machine meaning the backend gives them. */
module Mir {
  import opened Arith
  import opened Wrapping

  /** Virtual registers, and the two fixed registers of a high multiply. */
  datatype Reg = Virt(id: nat) | RAX | RDX

  datatype Operand = R(reg: Reg) | Imm(value: u64)

  datatype ArithOp = Add2 | Sub2 | Mul2 | And2 | Shl2 | Shr2 | Sar2

  datatype Instr =
    | Mov(dst: Reg, src: Operand)
    | MovZx(dst: Reg, src: Operand, width: nat)
    | MovSx(dst: Reg, src: Operand, width: nat)
    | ITrunc(dst: Reg, src: Operand, width: nat)
    | Arith2(op: ArithOp, dst: Reg, src: Operand)
    | Neg1(dst: Reg)
    | MulHigh(signed: bool, lo: Reg, hi: Reg, x: Reg, y: Reg)

  /** Register files; a register that was never written reads as zero. */
  type Regs = map<Reg, u64>

  function Get(rf: Regs, r: Reg): u64 {
    if r in rf then rf[r] else 0
  }

  function OperandValue(o: Operand, rf: Regs): u64 {
    match o
    case R(r) => Get(rf, r)
    case Imm(v) => v
  }

  /** The two's complement reading of a word, and back. */
  function Signed(x: u64): (r: i64)
    ensures r == if x < 0x8000_0000_0000_0000 then x else x - B64
  {
    Pow2Literals();
    SignedOf(x, 64)
  }

  function Wrap(x: int): u64 {
    x % B64
  }

  /** The low width bits of a register, read as a signed number. */
  function SignedAt(x: nat, width: nat): int
    requires width >= 1
  {
    SignedOf(Low(x, width), width)
  }

  function EvalArith(op: ArithOp, a: u64, b: u64): u64 {
    match op
    case Add2 => Wrap(a + b)
    case Sub2 => Wrap(a - b)
    case Mul2 => Wrap(a * b)
    case And2 => Wrap(BitAnd(a, b))
    case Shl2 => Wrap(Shl(a, b % 64))
    case Shr2 => Wrap(Shr(a, b % 64))
    case Sar2 => Wrap(Asr(Signed(a), b % 64))
  }

  function Exec(i: Instr, rf: Regs): Regs {
    match i
    case Mov(dst, src) => rf[dst := OperandValue(src, rf)]
    case MovZx(dst, src, w) => rf[dst := Wrap(Low(OperandValue(src, rf), w))]
    case MovSx(dst, src, w) =>
      rf[dst := if w >= 1 then Wrap(SignedAt(OperandValue(src, rf), w)) else 0]
    case ITrunc(dst, src, w) => rf[dst := Wrap(Low(OperandValue(src, rf), w))]
    case Arith2(op, dst, src) => rf[dst := EvalArith(op, Get(rf, dst), OperandValue(src, rf))]
    case Neg1(dst) => rf[dst := Wrap(0 - Get(rf, dst))]
    case MulHigh(signed, lo, hi, x, y) =>
      var p := if signed then Signed(Get(rf, x)) * Signed(Get(rf, y)) else Get(rf, x) * Get(rf, y);
      rf[lo := Wrap(p)][hi := Wrap(Asr(p, 64))]
  }

  function Run(code: seq<Instr>, rf: Regs): Regs {
    if code == [] then rf else Exec(code[|code| - 1], Run(code[..|code| - 1], rf))
  }

  /** The value of r after running code from rf. */
  function V(code: seq<Instr>, rf: Regs, r: Reg): u64 {
    Get(Run(code, rf), r)
  }

  function OpV(code: seq<Instr>, rf: Regs, o: Operand): u64 {
    OperandValue(o, Run(code, rf))
  }

  lemma RunSnoc(code: seq<Instr>, i: Instr)
    ensures forall rf {:trigger Run(code + [i], rf)} :: Run(code + [i], rf) == Exec(i, Run(code, rf))
  {
    assert (code + [i])[..|code + [i]| - 1] == code;
  }

  /** r is a virtual register the allocator has already given out. */
  predicate Old(r: Reg, bound: nat) {
    r.Virt? && r.id <= bound
  }

  predicate OldOperand(o: Operand, bound: nat) {
    o.R? ==> Old(o.reg, bound)
  }

  /** Code after does to the registers up to bound what code before does. */
  ghost predicate Keeps(before: seq<Instr>, after: seq<Instr>, bound: nat) {
    forall rf, r {:trigger V(after, rf, r)} :: Old(r, bound) ==> V(after, rf, r) == V(before, rf, r)
  }

  lemma KeepsTrans(a: seq<Instr>, b: seq<Instr>, c: seq<Instr>, bound: nat, bound': nat)
    requires Keeps(a, b, bound) && Keeps(b, c, bound') && bound <= bound'
    ensures Keeps(a, c, bound)
  {
    hide V;
    forall rf, r | Old(r, bound)
      ensures V(c, rf, r) == V(a, rf, r)
    {
      assert V(c, rf, r) == V(b, rf, r);
    }
  }
}
