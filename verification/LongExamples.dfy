// Accepted bodies whose kernel stores another word than the program: a
// comparison and a division of values that have left the range of an int.

module LongExamples {
  import opened Words
  import opened Hir
  import opened AccelIr
  import opened Lowering
  import opened LongArithmetic
  import opened ConstantOperands

  const X := TermExpr(SymbolTerm("x"))
  const TWO := TermExpr(IntTerm(2))
  const QUOTIENT := Binary(Div, X, TermExpr(LongTerm(1)))

  // out[i] = rhs
  function Body(rhs: Expr): Stmt { Stmt(Subscript(TermExpr(SymbolTerm("out")), TermExpr(SymbolTerm("i"))), rhs) }

  const ENV := KernelEnv("i", TermExpr(IntTerm(0)), 0, [Scalar("x", I32, false)], [Buffer("out", I32, 0)], [], [], None)

  const ALU := NO_FRAME.alu

  function FrameOf(x: Word): Frame { Frame("i", 0, map["x" := IntVal(x)], [BufferName("out", IntElem, 0)], ALU) }

  function LaneOf(x: Word): Invocation { Invocation(0, [x], ALU) }

  // ------------------------------------------------------------------
  // Lowering along a known instruction sequence
  // ------------------------------------------------------------------

  // What the lowerer has emitted after n instructions: the index first, x
  // second.
  function After(code: seq<Instr>, types: seq<IrType>, n: nat): LowerState
    requires n <= |types| <= |code|
  {
    LowerState(code[..n], types[..n], if n > 0 then Some(0) else None, if n > 1 then map[0 := 1] else map[], map[], {})
  }

  ghost predicate Sequence(code: seq<Instr>, types: seq<IrType>) {
    && |types| < |code| <= 16
    && (forall n :: 0 <= n < |types| ==> ResultType(code[n]) == types[n] && !types[n].VoidType?)
  }

  lemma EmitsNext(code: seq<Instr>, types: seq<IrType>, n: nat)
    requires Sequence(code, types) && n < |types|
    ensures Append(After(code, types, n), code[n])
      == Success((After(code, types, n).(code := code[..n + 1], types := types[..n + 1]), LowerValue(n, types[n])))
  {
    assert code[..n + 1] == code[..n] + [code[n]];
    assert types[..n + 1] == types[..n] + [types[n]];
  }

  // Both bodies begin with x / 1L.
  ghost predicate Begins(code: seq<Instr>, types: seq<IrType>) {
    && Sequence(code, types) && |types| >= 4
    && code[..4] == [GlobalIndex, Uniform(I32, 0), ConstI32(1), BinaryInstr(DivOp, I32, 1, 2)]
  }

  lemma EmitsIndex(code: seq<Instr>, types: seq<IrType>, rhs: Expr)
    requires Begins(code, types)
    ensures LowerIndex(EMPTY, ENV, Body(rhs).lhs.index) == Success((After(code, types, 1), LowerValue(0, IndexType)))
  {
    hide Append;
    assert code[0] == code[..4][0];
    EmitsNext(code, types, 0);
    assert After(code, types, 0) == EMPTY;
  }

  lemma EmitsUniform(code: seq<Instr>, types: seq<IrType>)
    requires Begins(code, types)
    ensures LowerExpr(After(code, types, 1), ENV, X, VoidType) == Success((After(code, types, 2), LowerValue(1, I32)))
  {
    hide Append;
    assert code[1] == code[..4][1];
    EmitsNext(code, types, 1);
  }

  lemma EmitsQuotient(code: seq<Instr>, types: seq<IrType>)
    requires Begins(code, types)
    ensures LowerExpr(After(code, types, 1), ENV, QUOTIENT, VoidType) == Success((After(code, types, 4), LowerValue(3, I32)))
  {
    hide Append, LowerByConstant, LowerExpr;
    EmitsUniform(code, types);
    assert code[2] == code[..4][2] && code[3] == code[..4][3];
    DividesBy(code, types, 2, 1, TermExpr(LongTerm(1)), 1);
    DivisionLowers(After(code, types, 1), X, QUOTIENT.right, After(code, types, 2), LowerValue(1, I32),
      After(code, types, 4), LowerValue(3, I32), VoidType);
  }

  // A division of an earlier value by a constant.
  lemma DividesBy(code: seq<Instr>, types: seq<IrType>, n: nat, a: nat, r: Expr, c: Int64)
    requires Sequence(code, types) && 2 <= n < |types| - 1 && FoldConstant(r) == Some(c) && 0 < c <= INT_MAX
    requires code[n] == ConstI32(Wrap(c)) && code[n + 1] == BinaryInstr(DivOp, I32, a, n)
    ensures LowerByConstant(After(code, types, n), Div, LowerValue(a, I32), r)
      == Success((After(code, types, n + 2), LowerValue(n + 1, I32)))
  {
    hide Append;
    EmitsNext(code, types, n);
    EmitsNext(code, types, n + 1);
  }

  lemma DivisionLowers(s: LowerState, l: Expr, r: Expr, s1: LowerState, a: LowerValue, s2: LowerState, v: LowerValue, expected: IrType)
    requires LowerExpr(s, ENV, l, VoidType) == Success((s1, a)) && LowerByConstant(s1, Div, a, r) == Success((s2, v))
    requires v.ty.I32? && (expected.I32? || expected.VoidType?)
    ensures LowerExpr(s, ENV, Binary(Div, l, r), expected) == Success((s2, v))
  {
    hide Append, LowerByConstant;
  }

  // The body lowers to the sequence, ending with the store.
  lemma EmitsBody(code: seq<Instr>, types: seq<IrType>, rhs: Expr)
    requires Begins(code, types) && |code| == |types| + 1 && code[|types|] == Instr.Store(0, 0, |types| - 1)
    requires LowerExpr(After(code, types, 1), ENV, rhs, I32) == Success((After(code, types, |types|), LowerValue(|types| - 1, I32)))
    ensures LowerBody(ENV, [Body(rhs)]).Success? && LowerBody(ENV, [Body(rhs)]).value.code == code
  {
    hide Append, LowerExpr, LowerIndex;
    EmitsIndex(code, types, rhs);
    EmitsStore(code, types);
    assert LowerStatement(EMPTY, ENV, Body(rhs)) == Success(After(code, types, |types|).(code := code));
    assert [Body(rhs)][..0] == [];
  }

  lemma EmitsStore(code: seq<Instr>, types: seq<IrType>)
    requires Sequence(code, types) && 0 < |types| == |code| - 1 && code[|types|] == Instr.Store(0, 0, |types| - 1)
    ensures Append(After(code, types, |types|), code[|types|])
      == Success((After(code, types, |types|).(code := code), LowerValue(0, VoidType)))
  {
    assert code == code[..|types|] + [code[|types|]];
  }

  // ------------------------------------------------------------------
  // Running it
  // ------------------------------------------------------------------

  const MEM: Mem := [[7]]

  // Each instruction defines the next cell.
  ghost predicate Computes(code: seq<Instr>, inv: Invocation, cells: seq<Cell>) {
    |cells| <= |code| && forall n :: 0 <= n < |cells| ==>
      Step(code[n], inv, Machine(cells[..n], MEM, [])) == Machine(cells[..n + 1], MEM, [])
  }

  lemma {:induction false} LaneReaches(code: seq<Instr>, inv: Invocation, cells: seq<Cell>, n: nat)
    requires Computes(code, inv, cells) && n <= |cells|
    ensures Run(code, n, inv, MEM, []) == Machine(cells[..n], MEM, [])
  {
    hide Step;
    if n > 0 {
      LaneReaches(code, inv, cells, n - 1);
    }
  }

  lemma PutOnly(w: Word)
    ensures Put(MEM, 0, 0, w) == [[w]]
  {
    var row: seq<Word> := [7];
    assert row[..0] + [w] + row[1..] == [w];
  }

  // The lane ends with the last cell in out[0].
  lemma LaneStores(code: seq<Instr>, inv: Invocation, cells: seq<Cell>)
    requires Computes(code, inv, cells) && |cells| > 0 && |code| == |cells| + 1
    requires code[|cells|] == Instr.Store(0, 0, |cells| - 1) && cells[0].bits == 0
    ensures Run(code, |code|, inv, MEM, []).mem == [[cells[|cells| - 1].bits]]
  {
    hide Put;
    LaneReaches(code, inv, cells, |cells|);
    assert cells[..|cells|] == cells;
    PutOnly(cells[|cells| - 1].bits);
  }

  // The program stores the low word of what it computes.
  lemma SourceStores(rhs: Expr, x: Word, v: Value)
    requires Eval(rhs, FrameOf(x), map[], MEM) == Some(v) && !v.FloatVal?
    ensures ExecBody([Body(rhs)], FrameOf(x), map[], MEM) == Some((map[], [[WordOf(v)]]))
  {
    hide Put, ApplyBinary;
    var (stmt, frame) := (Body(rhs), FrameOf(x));
    PutOnly(WordOf(v));
    assert [stmt][..0] == [];
    assert Eval(stmt.lhs.index, frame, map[], MEM) == Some(IntVal(0));
    assert WriteElement("out", IntVal(0), v, frame, MEM) == Some(Put(MEM, 0, 0, WordOf(v)));
    assert ExecStmt(stmt, frame, map[], MEM) == Some((map[], [[WordOf(v)]]));
  }

  // ------------------------------------------------------------------
  // out[i] = -(x / 1L) < 0, from the least x
  // ------------------------------------------------------------------

  const LEAST: Word := 0x8000_0000
  const NEGATED := Binary(Lt, Unary(Neg, QUOTIENT), TermExpr(IntTerm(0)))

  const SIGN_CODE: seq<Instr> := [
    GlobalIndex, Uniform(I32, 0), ConstI32(1), BinaryInstr(DivOp, I32, 1, 2), ConstI32(0), BinaryInstr(SubOp, I32, 4, 3),
    ConstI32(0), BinaryInstr(CmpLt, BoolType, 5, 6), ConstI32(1), ConstI32(0), SelectInstr(I32, 7, 8, 9), Instr.Store(0, 0, 10)]
  const SIGN_TYPES: seq<IrType> := [IndexType, I32, I32, I32, I32, I32, I32, BoolType, I32, I32, I32]
  const SIGN_CELLS: seq<Cell> := [
    Cell(IndexType, 0), Cell(I32, LEAST), Cell(I32, 1), Cell(I32, LEAST), Cell(I32, 0), Cell(I32, LEAST),
    Cell(I32, 0), Cell(BoolType, 1), Cell(I32, 1), Cell(I32, 0), Cell(I32, 1)]

  lemma SignBegins()
    ensures Begins(SIGN_CODE, SIGN_TYPES)
  {
  }

  lemma EmitsNegation()
    ensures LowerExpr(After(SIGN_CODE, SIGN_TYPES, 1), ENV, NEGATED.left, VoidType)
      == Success((After(SIGN_CODE, SIGN_TYPES, 6), LowerValue(5, I32)))
  {
    hide Append, LowerBinary;
    SignBegins();
    EmitsQuotient(SIGN_CODE, SIGN_TYPES);
    EmitsNext(SIGN_CODE, SIGN_TYPES, 4);
    EmitsNext(SIGN_CODE, SIGN_TYPES, 5);
  }

  lemma EmitsComparison()
    ensures LowerExpr(After(SIGN_CODE, SIGN_TYPES, 1), ENV, NEGATED, I32)
      == Success((After(SIGN_CODE, SIGN_TYPES, 11), LowerValue(10, I32)))
  {
    hide Append;
    SignBegins();
    EmitsNegation();
    EmitsNext(SIGN_CODE, SIGN_TYPES, 6);
    EmitsNext(SIGN_CODE, SIGN_TYPES, 7);
    assert LowerExpr(After(SIGN_CODE, SIGN_TYPES, 6), ENV, NEGATED.right, VoidType)
      == Success((After(SIGN_CODE, SIGN_TYPES, 7), LowerValue(6, I32)));
    EmitsNext(SIGN_CODE, SIGN_TYPES, 8);
    EmitsNext(SIGN_CODE, SIGN_TYPES, 9);
    EmitsNext(SIGN_CODE, SIGN_TYPES, 10);
  }

  // The three operations the lane performs.
  lemma SignOperates()
    ensures Operate(DivOp, SIGN_CELLS[1], SIGN_CELLS[2], ALU) == LEAST
    ensures Operate(SubOp, SIGN_CELLS[4], SIGN_CELLS[3], ALU) == LEAST
    ensures Operate(CmpLt, SIGN_CELLS[5], SIGN_CELLS[6], ALU) == 1
  {
  }

  lemma SignComputes(n: nat)
    requires n < 11
    ensures Step(SIGN_CODE[n], LaneOf(LEAST), Machine(SIGN_CELLS[..n], MEM, [])) == Machine(SIGN_CELLS[..n + 1], MEM, [])
  {
    hide Operate;
    var m := Machine(SIGN_CELLS[..n], MEM, []);
    assert SIGN_CELLS[..n + 1] == SIGN_CELLS[..n] + [SIGN_CELLS[n]];
    assert forall v: nat :: v < n ==> ValueOf(m, v) == SIGN_CELLS[v];
    SignOperates();
  }

  lemma SignEvaluates()
    ensures Eval(NEGATED, FrameOf(LEAST), map[], MEM) == Some(IntVal(0))
  {
    hide IntBinary, FloatBinary;
    assert Eval(QUOTIENT, FrameOf(LEAST), map[], MEM) == Some(LongVal(-0x8000_0000));
    assert Eval(NEGATED.left, FrameOf(LEAST), map[], MEM) == Some(LongVal(0x8000_0000));
  }

  // The source stores false, the kernel true: the 64-bit quotient's negation
  // is positive, the 32-bit one wraps back to the least int.
  lemma LongDivisorObservable()
    ensures LowerBody(ENV, [Body(NEGATED)]).Success?
    ensures ExecBody([Body(NEGATED)], FrameOf(LEAST), map[], MEM) == Some((map[], [[0]]))
    ensures var code := LowerBody(ENV, [Body(NEGATED)]).value.code; Run(code, |code|, LaneOf(LEAST), MEM, []).mem == [[1]]
  {
    hide LowerBody, Run, Eval, Begins, After, LowerExpr, Step;
    SignBegins();
    EmitsComparison();
    EmitsBody(SIGN_CODE, SIGN_TYPES, NEGATED);
    forall n | 0 <= n < 11
      ensures Step(SIGN_CODE[n], LaneOf(LEAST), Machine(SIGN_CELLS[..n], MEM, [])) == Machine(SIGN_CELLS[..n + 1], MEM, [])
    {
      SignComputes(n);
    }
    LaneStores(SIGN_CODE, LaneOf(LEAST), SIGN_CELLS);
    SignEvaluates();
    SourceStores(NEGATED, LEAST, IntVal(0));
  }

  // ------------------------------------------------------------------
  // out[i] = x / 1L * 2 / 2, from 2^30
  // ------------------------------------------------------------------

  const HALFWAY: Word := 0x4000_0000
  const DOUBLED := Binary(BinaryKind.Mul, QUOTIENT, TWO)
  const HALVED := Binary(Div, DOUBLED, TWO)

  const HALF_CODE: seq<Instr> := [
    GlobalIndex, Uniform(I32, 0), ConstI32(1), BinaryInstr(DivOp, I32, 1, 2), ConstI32(2), BinaryInstr(MulOp, I32, 3, 4),
    ConstI32(2), BinaryInstr(DivOp, I32, 5, 6), Instr.Store(0, 0, 7)]
  const HALF_TYPES: seq<IrType> := [IndexType, I32, I32, I32, I32, I32, I32, I32]
  const HALF_CELLS: seq<Cell> := [
    Cell(IndexType, 0), Cell(I32, HALFWAY), Cell(I32, 1), Cell(I32, HALFWAY), Cell(I32, 2), Cell(I32, 0x8000_0000),
    Cell(I32, 2), Cell(I32, 0xC000_0000)]

  lemma HalfBegins()
    ensures Begins(HALF_CODE, HALF_TYPES)
  {
  }

  lemma EmitsProduct()
    ensures LowerExpr(After(HALF_CODE, HALF_TYPES, 1), ENV, DOUBLED, VoidType)
      == Success((After(HALF_CODE, HALF_TYPES, 6), LowerValue(5, I32)))
  {
    hide Append;
    HalfBegins();
    EmitsQuotient(HALF_CODE, HALF_TYPES);
    EmitsNext(HALF_CODE, HALF_TYPES, 4);
    EmitsNext(HALF_CODE, HALF_TYPES, 5);
    assert LowerExpr(After(HALF_CODE, HALF_TYPES, 4), ENV, TWO, VoidType)
      == Success((After(HALF_CODE, HALF_TYPES, 5), LowerValue(4, I32)));
  }

  lemma EmitsHalf()
    ensures LowerExpr(After(HALF_CODE, HALF_TYPES, 1), ENV, HALVED, I32)
      == Success((After(HALF_CODE, HALF_TYPES, 8), LowerValue(7, I32)))
  {
    hide Append, LowerByConstant, LowerExpr;
    HalfBegins();
    EmitsProduct();
    DividesBy(HALF_CODE, HALF_TYPES, 6, 5, TWO, 2);
    DivisionLowers(After(HALF_CODE, HALF_TYPES, 1), DOUBLED, TWO, After(HALF_CODE, HALF_TYPES, 6), LowerValue(5, I32),
      After(HALF_CODE, HALF_TYPES, 8), LowerValue(7, I32), I32);
  }

  lemma HalfOperates()
    ensures Operate(DivOp, HALF_CELLS[1], HALF_CELLS[2], ALU) == HALFWAY
    ensures Operate(MulOp, HALF_CELLS[3], HALF_CELLS[4], ALU) == 0x8000_0000
    ensures Operate(DivOp, HALF_CELLS[5], HALF_CELLS[6], ALU) == 0xC000_0000
  {
  }

  lemma HalfComputes(n: nat)
    requires n < 8
    ensures Step(HALF_CODE[n], LaneOf(HALFWAY), Machine(HALF_CELLS[..n], MEM, [])) == Machine(HALF_CELLS[..n + 1], MEM, [])
  {
    hide Operate;
    var m := Machine(HALF_CELLS[..n], MEM, []);
    assert HALF_CELLS[..n + 1] == HALF_CELLS[..n] + [HALF_CELLS[n]];
    assert forall v: nat :: v < n ==> ValueOf(m, v) == HALF_CELLS[v];
    HalfOperates();
  }

  lemma HalfEvaluates()
    ensures Eval(HALVED, FrameOf(HALFWAY), map[], MEM) == Some(LongVal(0x4000_0000))
  {
    hide IntBinary, FloatBinary;
    assert Eval(QUOTIENT, FrameOf(HALFWAY), map[], MEM) == Some(LongVal(0x4000_0000));
    assert Eval(DOUBLED, FrameOf(HALFWAY), map[], MEM) == Some(LongVal(0x8000_0000));
  }

  // Every constant is exact, nothing is compared or shifted, and still the
  // kernel stores another word: the 64-bit product is halved back, the 32-bit
  // one has wrapped to a negative number.
  lemma WideDividendObservable()
    ensures LowerBody(ENV, [Body(HALVED)]).Success?
    ensures ExecBody([Body(HALVED)], FrameOf(HALFWAY), map[], MEM) == Some((map[], [[0x4000_0000]]))
    ensures var code := LowerBody(ENV, [Body(HALVED)]).value.code; Run(code, |code|, LaneOf(HALFWAY), MEM, []).mem == [[0xC000_0000]]
  {
    hide LowerBody, Run, Eval, Begins, After, LowerExpr, Step;
    HalfBegins();
    EmitsHalf();
    EmitsBody(HALF_CODE, HALF_TYPES, HALVED);
    forall n | 0 <= n < 8
      ensures Step(HALF_CODE[n], LaneOf(HALFWAY), Machine(HALF_CELLS[..n], MEM, [])) == Machine(HALF_CELLS[..n + 1], MEM, [])
    {
      HalfComputes(n);
    }
    LaneStores(HALF_CODE, LaneOf(HALFWAY), HALF_CELLS);
    HalfEvaluates();
    SourceStores(HALVED, HALFWAY, LongVal(0x4000_0000));
    WrapOfWord(0x4000_0000);
  }
}
