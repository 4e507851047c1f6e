// The typed straight-line accelerator IR and its execution by one GPU
// invocation.

module AccelIr {
  import opened Words
  import Hir

  datatype IrType = VoidType | BoolType | I32 | F32 | IndexType

  datatype Opcode =
    | AddOp | SubOp | MulOp | DivOp | ModOp
    | BitAndOp | BitOrOp | BitXorOp | ShlOp | ShrOp
    | CmpEq | CmpNe | CmpLt | CmpLte | CmpGt | CmpGte

  // Operands name values: the n-th value is the result of the n-th
  // instruction that has one.
  datatype Instr =
    | Uniform(uniformType: IrType, binding: nat)
    | ConstI32(bits: Word)
    | ConstF32(bits: Word)
    | ConstBool(bits: Word)
    | GlobalIndex
    | Load(loadType: IrType, buffer: nat, index: nat)
    | Store(buffer: nat, index: nat, stored: nat)
    | BinaryInstr(op: Opcode, binaryType: IrType, left: nat, right: nat)
    | SelectInstr(selectType: IrType, cond: nat, ifTrue: nat, ifFalse: nat)
    | AtomicAdd(entry: nat, added: nat)
    | LoadResult(entry: nat)

  function ResultType(i: Instr): IrType {
    match i
    case Uniform(t, _) => t
    case ConstI32(_) => I32
    case ConstF32(_) => F32
    case ConstBool(_) => BoolType
    case GlobalIndex => IndexType
    case Load(t, _, _) => t
    case Store(_, _, _) => VoidType
    case BinaryInstr(_, t, _, _) => t
    case SelectInstr(t, _, _, _) => t
    case AtomicAdd(_, _) => VoidType
    case LoadResult(_) => I32
  }

  // A defined value: its type and its bits.
  datatype Cell = Cell(ty: IrType, bits: Word)

  // One invocation: its lane number, the scalar argument words and the
  // float unit.
  datatype Invocation = Invocation(lane: Word, uniforms: seq<Word>, alu: Hir.Alu)

  datatype Machine = Machine(vals: seq<Cell>, mem: Hir.Mem, results: seq<Word>)

  function ValueOf(m: Machine, v: nat): Cell {
    if v < |m.vals| then m.vals[v] else Cell(VoidType, 0)
  }

  function WordAt(s: seq<Word>, i: nat): Word {
    if i < |s| then s[i] else 0
  }

  function MemAt(mem: Hir.Mem, buffer: nat, at: nat): Word {
    if buffer < |mem| && at < |mem[buffer]| then mem[buffer][at] else 0
  }

  function MemPut(mem: Hir.Mem, buffer: nat, at: nat, w: Word): Hir.Mem {
    if buffer < |mem| && at < |mem[buffer]| then Hir.Put(mem, buffer, at, w) else mem
  }

  function PutWord(s: seq<Word>, i: nat, w: Word): seq<Word> {
    if i < |s| then s[..i] + [w] + s[i + 1..] else s
  }

  function RelationOf(op: Opcode): Option<Hir.Relation> {
    match op
    case CmpEq => Some(Hir.REq)
    case CmpNe => Some(Hir.RNe)
    case CmpLt => Some(Hir.RLt)
    case CmpLte => Some(Hir.RLe)
    case CmpGt => Some(Hir.RGt)
    case CmpGte => Some(Hir.RGe)
    case _ => None
  }

  function IntOperate(op: Opcode, a: Word, b: Word): Word {
    match op
    case AddOp => Add(a, b)
    case SubOp => Sub(a, b)
    case MulOp => Mul(a, b)
    case DivOp => if Signed(b) > 0 then DivWord(a, Signed(b)) else 0
    case ModOp => if Signed(b) > 0 then ModWord(a, Signed(b)) else 0
    case BitAndOp => BitWord(BitAnd, a, b)
    case BitOrOp => BitWord(BitOr, a, b)
    case BitXorOp => BitWord(BitXor, a, b)
    case ShlOp => if b <= 31 then ShiftLeft(a, b) else 0
    case ShrOp => if b <= 31 then ShiftRight(a, b) else 0
    case _ => if Hir.Relates(RelationOf(op).value, Signed(a), Signed(b)) then 1 else 0
  }

  function FloatOperate(op: Opcode, a: Word, b: Word, alu: Hir.Alu): Word {
    match op
    case AddOp => alu.arith(Hir.FAdd, a, b)
    case SubOp => alu.arith(Hir.FSub, a, b)
    case MulOp => alu.arith(Hir.FMul, a, b)
    case _ =>
      if RelationOf(op).Some? && alu.relate(RelationOf(op).value, a, b) then 1 else 0
  }

  // The operation is selected by the type of its first operand; dispatch
  // index arithmetic is unsigned 32-bit.
  function Operate(op: Opcode, a: Cell, b: Cell, alu: Hir.Alu): Word {
    if a.ty.F32? then FloatOperate(op, a.bits, b.bits, alu) else IntOperate(op, a.bits, b.bits)
  }

  function Define(m: Machine, ty: IrType, bits: Word): Machine {
    m.(vals := m.vals + [Cell(ty, bits)])
  }

  // Accesses outside a buffer read zero and write nothing here; accepted
  // programs never perform one.
  function Step(i: Instr, inv: Invocation, m: Machine): Machine {
    match i
    case Uniform(t, binding) => Define(m, t, WordAt(inv.uniforms, binding))
    case ConstI32(b) => Define(m, I32, b)
    case ConstF32(b) => Define(m, F32, b)
    case ConstBool(b) => Define(m, BoolType, b)
    case GlobalIndex => Define(m, IndexType, inv.lane)
    case Load(t, buffer, index) => Define(m, t, MemAt(m.mem, buffer, ValueOf(m, index).bits))
    case Store(buffer, index, stored) =>
      m.(mem := MemPut(m.mem, buffer, ValueOf(m, index).bits, ValueOf(m, stored).bits))
    case BinaryInstr(op, t, l, r) => Define(m, t, Operate(op, ValueOf(m, l), ValueOf(m, r), inv.alu))
    case SelectInstr(ty, c, t, f) =>
      Define(m, ty, if ValueOf(m, c).bits != 0 then ValueOf(m, t).bits else ValueOf(m, f).bits)
    case AtomicAdd(entry, v) =>
      m.(results := PutWord(m.results, entry, Add(WordAt(m.results, entry), ValueOf(m, v).bits)))
    case LoadResult(entry) => Define(m, I32, WordAt(m.results, entry))
  }

  // The first n instructions, executed by one invocation alone.
  function Run(code: seq<Instr>, n: nat, inv: Invocation, mem: Hir.Mem, results: seq<Word>): Machine
    requires n <= |code|
  {
    if n == 0 then Machine([], mem, results)
    else Step(code[n - 1], inv, Run(code, n - 1, inv, mem, results))
  }

  lemma {:induction false} RunOfPrefix(code: seq<Instr>, more: seq<Instr>, n: nat, inv: Invocation, mem: Hir.Mem, results: seq<Word>)
    requires n <= |code|
    ensures Run(code + more, n, inv, mem, results) == Run(code, n, inv, mem, results)
  {
    if n > 0 {
      RunOfPrefix(code, more, n - 1, inv, mem, results);
    }
  }

  lemma RunSnoc(code: seq<Instr>, i: Instr, inv: Invocation, mem: Hir.Mem, results: seq<Word>)
    ensures Run(code + [i], |code| + 1, inv, mem, results)
         == Step(i, inv, Run(code, |code|, inv, mem, results))
  {
    RunOfPrefix(code, [i], |code|, inv, mem, results);
  }
}
