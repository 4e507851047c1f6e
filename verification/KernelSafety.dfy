// What the validator's acceptance means: instruction by instruction, and for
// every execution of an accepted kernel.

module KernelSafety {
  import opened Words
  import opened AccelIr
  import opened KernelValidation
  import Hir

  predicate Compares(op: Opcode) { op in {CmpEq, CmpNe, CmpLt, CmpLte, CmpGt, CmpGte} }

  // One instruction is accepted exactly when its bindings exist, its
  // operands are earlier values of the right types, and a division or a
  // shift takes a literal in range.
  lemma AcceptedInstr(shape: Shape, defs: seq<Instr>, i: Instr)
    requires forall b :: b in shape.bufferTypes ==> b == I32 || b == F32
    ensures ValidInstr(shape, defs, i) <==>
      match i
      case Uniform(t, b) => (t == I32 || t == F32) && b < shape.scalarCount
      case ConstI32(_) => true
      case ConstF32(_) => true
      case ConstBool(b) => b == 0 || b == 1
      case GlobalIndex => true
      case Load(t, b, at) =>
        b < |shape.bufferTypes| && t == shape.bufferTypes[b] && at < |defs| && ResultType(defs[at]) == IndexType
      case Store(b, at, v) =>
        && b < |shape.bufferTypes| && at < |defs| && ResultType(defs[at]) == IndexType
        && v < |defs| && ResultType(defs[v]) == shape.bufferTypes[b]
      case BinaryInstr(op, t, l, r) =>
        && l < |defs| && r < |defs|
        && var (a, b) := (ResultType(defs[l]), ResultType(defs[r]));
           && (Compares(op) ==>
                t == BoolType && a == b && (a == I32 || a == F32 || (a == BoolType && (op == CmpEq || op == CmpNe))))
           && (op == DivOp || op == ModOp ==> defs[r].ConstI32? && 0 < Signed(defs[r].bits))
           && (op == ShlOp || op == ShrOp ==> defs[r].ConstI32? && 0 <= Signed(defs[r].bits) <= 31)
           && (!Compares(op) ==>
                || (t == IndexType && (op == AddOp || op == SubOp) && a == IndexType && b == I32)
                || (a == b == t && (t == I32 || (t == F32 && (op == AddOp || op == SubOp || op == MulOp)))))
      case SelectInstr(t, c, x, y) =>
        && (t == I32 || t == F32) && c < |defs| && ResultType(defs[c]) == BoolType
        && x < |defs| && y < |defs| && ResultType(defs[x]) == t && ResultType(defs[y]) == t
      case AtomicAdd(_, v) => v < |defs| && ResultType(defs[v]) == I32
      case LoadResult(_) => true
  {
    if i.Store? && i.buffer < |shape.bufferTypes| {
      assert shape.bufferTypes[i.buffer] in shape.bufferTypes;
    }
  }

  lemma {:induction false} ValidAll(shape: Shape, code: seq<Instr>)
    ensures ValidCode(shape, code) <==> forall n :: 0 <= n < |code| ==> ValidInstr(shape, Definitions(code[..n]), code[n])
  {
    hide ValidInstr, Definitions;
    if code != [] {
      var front := code[..|code| - 1];
      ValidAll(shape, front);
      forall n | 0 <= n < |front|
        ensures ValidInstr(shape, Definitions(front[..n]), front[n]) == ValidInstr(shape, Definitions(code[..n]), code[n])
      {
        assert front[..n] == code[..n];
      }
    }
  }

  // A kernel is accepted exactly when it is within the limits, its buffers
  // hold ints and floats, every instruction is accepted after those before
  // it, and it defines as many values as it says.
  lemma AcceptedKernel(shape: Shape, code: seq<Instr>, valueCount: nat)
    ensures ValidKernel(shape, code, valueCount) <==>
      && shape.scalarCount <= 32 && |shape.bufferTypes| <= 64 && |code| <= 1024 && valueCount <= 1024
      && (forall b :: b in shape.bufferTypes ==> b == I32 || b == F32)
      && (forall n :: 0 <= n < |code| ==> ValidInstr(shape, Definitions(code[..n]), code[n]))
      && |Definitions(code)| == valueCount
  {
    ValidAll(shape, code);
  }

  // ------------------------------------------------------------------
  // Executions of accepted kernels
  // ------------------------------------------------------------------

  // The values defined so far have their definitions' types, and literals
  // their bits.
  ghost predicate WellTyped(m: Machine, defs: seq<Instr>) {
    && |m.vals| == |defs|
    && forall v :: 0 <= v < |defs| ==>
         m.vals[v].ty == ResultType(defs[v]) && (defs[v].ConstI32? ==> m.vals[v].bits == defs[v].bits)
  }

  // Only stores and atomic adds have no result.
  predicate Valued(i: Instr) { i.Store? || i.AtomicAdd? || ResultType(i) != VoidType }

  lemma {:induction false} RunTyped(code: seq<Instr>, n: nat, inv: Invocation, mem: Hir.Mem, results: seq<Word>)
    requires n <= |code| && forall k :: 0 <= k < n ==> Valued(code[k])
    ensures WellTyped(Run(code, n, inv, mem, results), Definitions(code[..n]))
  {
    hide Step, WellTyped, Valued;
    if n == 0 {
      NothingTyped(mem, results);
    } else {
      RunTyped(code, n - 1, inv, mem, results);
      assert code[..n][..n - 1] == code[..n - 1];
      StepTyped(code[n - 1], inv, Run(code, n - 1, inv, mem, results), Definitions(code[..n - 1]));
    }
  }

  lemma NothingTyped(mem: Hir.Mem, results: seq<Word>)
    ensures WellTyped(Machine([], mem, results), Definitions([]))
  {
  }

  lemma StepTyped(i: Instr, inv: Invocation, m: Machine, defs: seq<Instr>)
    requires WellTyped(m, defs) && Valued(i)
    ensures WellTyped(Step(i, inv, m), if ResultType(i).VoidType? then defs else defs + [i])
  {
  }

  lemma AcceptedValued(shape: Shape, defs: seq<Instr>, i: Instr)
    requires ValidInstr(shape, defs, i) && forall b :: b in shape.bufferTypes ==> b == I32 || b == F32
    ensures Valued(i)
  {
    if i.Load? {
      assert shape.bufferTypes[i.buffer] in shape.bufferTypes;
    }
  }

  // In every execution of an accepted kernel each operand is a value already
  // defined with the type its instruction needs, no division is by zero or a
  // negative number, and no shift leaves 0 .. 31.
  lemma AcceptedRunsSafely(
    shape: Shape, code: seq<Instr>, valueCount: nat, n: nat, inv: Invocation, mem: Hir.Mem, results: seq<Word>)
    requires ValidKernel(shape, code, valueCount) && n < |code|
    ensures var (i, vals) := (code[n], Run(code, n, inv, mem, results).vals);
      match i
      case Uniform(_, b) => b < shape.scalarCount
      case Load(t, b, at) => b < |shape.bufferTypes| && t == shape.bufferTypes[b] && at < |vals| && vals[at].ty == IndexType
      case Store(b, at, v) =>
        b < |shape.bufferTypes| && at < |vals| && vals[at].ty == IndexType && v < |vals| && vals[v].ty == shape.bufferTypes[b]
      case BinaryInstr(op, t, l, r) =>
        && l < |vals| && r < |vals|
        && (op == DivOp || op == ModOp ==> vals[r].ty == I32 && 0 < Signed(vals[r].bits))
        && (op == ShlOp || op == ShrOp ==> vals[r].ty == I32 && vals[r].bits <= 31)
        && (vals[l].ty == vals[r].ty || (t == IndexType && vals[l].ty == IndexType && vals[r].ty == I32))
      case SelectInstr(t, c, x, y) =>
        c < |vals| && vals[c].ty == BoolType && x < |vals| && y < |vals| && vals[x].ty == vals[y].ty == t
      case AtomicAdd(_, v) => v < |vals| && vals[v].ty == I32
      case _ => true
  {
    hide Run, Definitions, ValidInstr, ValidCode;
    AcceptedKernel(shape, code, valueCount);
    AcceptedInstr(shape, Definitions(code[..n]), code[n]);
    forall k | 0 <= k < n ensures Valued(code[k]) {
      AcceptedValued(shape, Definitions(code[..k]), code[k]);
    }
    RunTyped(code, n, inv, mem, results);
  }
}
