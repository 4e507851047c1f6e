// Lowering of a straight-line loop body to typed SSA: what the kernel
// lowerer computes, as functions of the lowering state.  One invocation of
// the emitted code stands for one iteration of the source loop.

module Lowering {
  import opened Words
  import opened Hir
  import opened AccelIr

  const MAX_INSTRUCTIONS: nat := 1024
  const MAX_VALUES: nat := 1024
  const MAX_LOCALS: nat := 256

  datatype Reason = Limit | Range | Expression | ControlFlow | NotDoall | BufferEscape | LocalBuffer

  datatype Failure = Declined(reason: Reason) | HardError

  datatype Status<+T> = Success(value: T) | Failure(error: Failure) {
    predicate IsFailure() { Failure? }
    function PropagateFailure<U>(): Status<U> requires Failure? { Status.Failure(error) }
    function Extract(): T requires Success? { value }
  }

  function Decline<T>(reason: Reason): Status<T> { Status.Failure(Declined(reason)) }

  // A scalar parameter; its position in the table is its binding index.
  datatype Scalar = Scalar(name: string, ty: IrType, reassigned: bool)

  // A catalog buffer; binding is -1 when the region does not use it.
  datatype Buffer = Buffer(symbol: string, elem: IrType, binding: int)

  datatype Local = Local(
    symbol: string, index: int, isParameter: bool, isLoopCounter: bool,
    declared: IrType, proven: IrType)

  datatype ScalarResult = ScalarResult(name: string, producer: nat)

  datatype Reduction = Reduction(accumulator: string, mapped: Expr, entry: Option<nat>)

  datatype KernelEnv = KernelEnv(
    counter: string, start: Expr, kernelIndex: nat,
    scalars: seq<Scalar>, buffers: seq<Buffer>, locals: seq<Local>,
    results: seq<ScalarResult>, reduction: Option<Reduction>)

  datatype LowerValue = LowerValue(value: nat, ty: IrType)

  // types[v] is the type of value v; consumed lists the result entries this
  // kernel loads.
  datatype LowerState = LowerState(
    code: seq<Instr>, types: seq<IrType>,
    globalIndex: Option<nat>, uniforms: map<nat, nat>, locals: map<int, LowerValue>,
    consumed: set<nat>)

  const EMPTY := LowerState([], [], None, map[], map[], {})

  type Lowered = Status<(LowerState, LowerValue)>

  // ------------------------------------------------------------------
  // Symbol tables
  // ------------------------------------------------------------------

  function ScalarIndex(scalars: seq<Scalar>, name: string): (r: Option<nat>)
    ensures r.Some? ==> r.value < |scalars| && scalars[r.value].name == name
  {
    ScalarIndexFrom(scalars, name, 0)
  }

  function ScalarIndexFrom(scalars: seq<Scalar>, name: string, from: nat): (r: Option<nat>)
    ensures r.Some? ==> r.value < |scalars| && scalars[r.value].name == name
    decreases |scalars| - from
  {
    if from >= |scalars| then None
    else if scalars[from].name == name then Some(from)
    else ScalarIndexFrom(scalars, name, from + 1)
  }

  function CatalogBuffer(buffers: seq<Buffer>, symbol: string): Option<Buffer> {
    if buffers == [] then None
    else if buffers[0].symbol == symbol then Some(buffers[0])
    else CatalogBuffer(buffers[1..], symbol)
  }

  function FindLocal(locals: seq<Local>, symbol: string): (r: Option<Local>)
    ensures r.Some? ==> r.value in locals && r.value.symbol == symbol
  {
    if locals == [] then None
    else if locals[0].symbol == symbol then Some(locals[0])
    else FindLocal(locals[1..], symbol)
  }

  // The earliest result entry of an earlier kernel with this name.
  function ResultIndex(env: KernelEnv, name: string, from: nat): (r: Option<nat>)
    ensures r.Some? ==> r.value < |env.results| && env.results[r.value].name == name
    ensures r.Some? ==> env.results[r.value].producer < env.kernelIndex
    decreases |env.results| - from
  {
    if from >= |env.results| then None
    else if env.results[from].producer < env.kernelIndex && env.results[from].name == name then Some(from)
    else ResultIndex(env, name, from + 1)
  }

  // ------------------------------------------------------------------
  // Emission
  // ------------------------------------------------------------------

  function Append(s: LowerState, i: Instr): Lowered {
    if |s.code| >= MAX_INSTRUCTIONS then Decline(Limit)
    else if ResultType(i).VoidType? then Success((s.(code := s.code + [i]), LowerValue(0, VoidType)))
    else if |s.types| >= MAX_VALUES then Decline(Limit)
    else Success((s.(code := s.code + [i], types := s.types + [ResultType(i)]),
                  LowerValue(|s.types|, ResultType(i))))
  }

  // Materialise a Boolean as 0/1 where an integer is expected; nothing else
  // converts.
  function Coerce(s: LowerState, v: LowerValue, expected: IrType): Lowered {
    if expected.VoidType? || expected == v.ty then Success((s, v))
    else if v.ty.BoolType? && expected.I32? then
      var (s1, one) :- Append(s, ConstI32(1));
      var (s2, zero) :- Append(s1, ConstI32(0));
      Append(s2, SelectInstr(I32, v.value, one.value, zero.value))
    else Decline(Expression)
  }

  function LowerUniform(s: LowerState, env: KernelEnv, scalar: nat): Lowered {
    if scalar >= |env.scalars| then Status.Failure(HardError)
    else if scalar in s.uniforms then Success((s, LowerValue(s.uniforms[scalar], env.scalars[scalar].ty)))
    else
      var (s1, v) :- Append(s, Uniform(env.scalars[scalar].ty, scalar));
      Success((s1.(uniforms := s1.uniforms[scalar := v.value]), v))
  }

  function LowerGlobalIndex(s: LowerState): Lowered {
    if s.globalIndex.Some? then Success((s, LowerValue(s.globalIndex.value, IndexType)))
    else
      var (s1, v) :- Append(s, GlobalIndex);
      Success((s1.(globalIndex := Some(v.value)), v))
  }

  function LowerResult(s: LowerState, entry: nat): Lowered {
    var (s1, v) :- Append(s, LoadResult(entry));
    Success((s1.(consumed := s1.consumed + {entry}), v))
  }

  function LowerSymbol(s: LowerState, env: KernelEnv, name: string): Lowered {
    if name == env.counter then Decline(Expression)
    else match ScalarIndex(env.scalars, name)
      case Some(i) =>
        if env.scalars[i].reassigned then Decline(Expression) else LowerUniform(s, env, i)
      case None =>
        match ResultIndex(env, name, 0)
        case Some(entry) => LowerResult(s, entry)
        case None =>
          match FindLocal(env.locals, name)
          case None => Decline(Expression)
          case Some(local) =>
            if !(0 <= local.index < MAX_LOCALS) then Decline(Expression)
            else if local.index !in s.locals then Decline(Expression)
            else Success((s, s.locals[local.index]))
  }

  // ------------------------------------------------------------------
  // Dispatch index arithmetic
  // ------------------------------------------------------------------

  function AdjustIndex(s: LowerState, base: LowerValue, adjustment: LowerValue, subtract: bool): Lowered {
    if !base.ty.IndexType? || !adjustment.ty.I32? then Status.Failure(HardError)
    else Append(s, BinaryInstr(if subtract then SubOp else AddOp, IndexType, base.value, adjustment.value))
  }

  // base + constant, where zero emits nothing.
  function AdjustConstant(s: LowerState, base: LowerValue, constant: int): Lowered {
    if constant == 0 then Success((s, base))
    else
      var (s1, c) :- Append(s, ConstI32(Wrap(constant)));
      AdjustIndex(s1, base, c, false)
  }

  // base +/- one immutable int parameter.
  function AdjustScalar(s: LowerState, env: KernelEnv, base: LowerValue, name: Option<string>, subtract: bool): Lowered {
    if name.None? || ScalarIndex(env.scalars, name.value).None? then Decline(Range)
    else
      var i := ScalarIndex(env.scalars, name.value).value;
      if env.scalars[i].reassigned || !env.scalars[i].ty.I32? then Decline(Range)
      else
        var (s1, u) :- LowerUniform(s, env, i);
        AdjustIndex(s1, base, u, subtract)
  }

  function LowerStart(s: LowerState, env: KernelEnv, base: LowerValue): Lowered {
    match FoldConstant(env.start)
    case Some(c) => if c < 0 || c > INT_MAX then Decline(Range) else AdjustConstant(s, base, c)
    case None => AdjustScalar(s, env, base, TermSymbol(StripPar(env.start)), false)
  }

  function LowerIndex(s: LowerState, env: KernelEnv, e: Expr): Lowered {
    var affine := NormalizeIndex(e, env.counter);
    if !affine.kind.CounterOffset? then Decline(Range)
    else
      var (s1, lane) :- LowerGlobalIndex(s);
      var (s2, counter) :- LowerStart(s1, env, lane);
      var (s3, shifted) :-
        if affine.symbol.Some? then AdjustScalar(s2, env, counter, affine.symbol, affine.sign < 0)
        else Success((s2, counter));
      AdjustConstant(s3, shifted, affine.offset)
  }

  // ------------------------------------------------------------------
  // Expressions
  // ------------------------------------------------------------------

  function ArithOpcode(kind: BinaryKind): Option<Opcode> {
    match kind
    case Plus => Some(AddOp)
    case Minus => Some(SubOp)
    case Mul => Some(MulOp)
    case And => Some(BitAndOp)
    case Or => Some(BitOrOp)
    case Xor => Some(BitXorOp)
    case _ => None
  }

  function CompareOpcode(kind: BinaryKind): Option<Opcode> {
    match kind
    case Eq => Some(CmpEq)
    case Neq => Some(CmpNe)
    case Lt => Some(CmpLt)
    case Lte => Some(CmpLte)
    case Gt => Some(CmpGt)
    case Gte => Some(CmpGte)
    case _ => None
  }

  predicate IsScalarType(t: IrType) { t.I32? || t.F32? }

  // Division, remainder and shifts take a folded constant as their right
  // operand: a positive divisor, or a shift amount in 0..31.
  function ConstantOperand(kind: BinaryKind): Option<Opcode> {
    match kind
    case Div => Some(DivOp)
    case Mod => Some(ModOp)
    case Shl => Some(ShlOp)
    case Shr => Some(ShrOp)
    case _ => None
  }

  predicate ConstantAllowed(kind: BinaryKind, c: Int64) {
    if kind.Div? || kind.Mod? then 0 < c <= INT_MAX else 0 <= c <= 31
  }

  predicate BitOnly(op: Opcode) { op.BitAndOp? || op.BitOrOp? || op.BitXorOp? }

  function LowerSubscript(s: LowerState, env: KernelEnv, base: Expr, index: Expr): Lowered {
    match TermSymbol(base)
    case None => Decline(Expression)
    case Some(symbol) =>
      match CatalogBuffer(env.buffers, symbol)
      case None => Decline(Expression)
      case Some(b) =>
        if b.binding < 0 then Status.Failure(HardError)
        else
          var (s1, at) :- LowerIndex(s, env, index);
          if !at.ty.IndexType? then Status.Failure(HardError)
          else Append(s1, Load(b.elem, b.binding, at.value))
  }

  function LowerExpr(s: LowerState, env: KernelEnv, e: Expr, expected: IrType): Lowered
    decreases e, 1
  {
    match e
    case TermExpr(IntTerm(i)) => var (s1, v) :- Append(s, ConstI32(Wrap(i))); Coerce(s1, v, expected)
    case TermExpr(FloatTerm(b)) => var (s1, v) :- Append(s, ConstF32(b)); Coerce(s1, v, expected)
    case TermExpr(SymbolTerm(n)) => var (s1, v) :- LowerSymbol(s, env, n); Coerce(s1, v, expected)
    case TermExpr(NullTerm) => Status.Failure(HardError)
    case Unary(Par, x) => LowerExpr(s, env, x, expected)
    case Unary(Neg, x) =>
      var (s1, v) :- LowerExpr(s, env, x, VoidType);
      if !v.ty.I32? then Decline(Expression)
      else
        var (s2, zero) :- Append(s1, ConstI32(0));
        var (s3, r) :- Append(s2, BinaryInstr(SubOp, I32, zero.value, v.value));
        Coerce(s3, r, expected)
    case Subscript(base, index) =>
      var (s1, v) :- LowerSubscript(s, env, base, index);
      Coerce(s1, v, expected)
    case Binary(kind, l, r) =>
      var (s1, v) :-
        if CompareOpcode(kind).Some? then LowerComparison(s, env, kind, l, r)
        else LowerBinary(s, env, kind, l, r, expected);
      Coerce(s1, v, expected)
    case _ => Decline(Expression)
  }

  function LowerComparison(s: LowerState, env: KernelEnv, kind: BinaryKind, l: Expr, r: Expr): Lowered
    requires CompareOpcode(kind).Some?
    decreases Binary(kind, l, r), 0
  {
    var (s1, a) :- LowerExpr(s, env, l, VoidType);
    var (s2, b) :- LowerExpr(s1, env, r, VoidType);
    if a.ty != b.ty || !IsScalarType(a.ty) then Decline(Expression)
    else Append(s2, BinaryInstr(CompareOpcode(kind).value, BoolType, a.value, b.value))
  }

  // a divided or shifted by the folded constant.
  function LowerByConstant(s: LowerState, kind: BinaryKind, a: LowerValue, r: Expr): Lowered
    requires ConstantOperand(kind).Some?
  {
    if !a.ty.I32? || FoldConstant(r).None? || !ConstantAllowed(kind, FoldConstant(r).value)
    then Decline(Expression)
    else
      var (s1, c) :- Append(s, ConstI32(Wrap(FoldConstant(r).value)));
      Append(s1, BinaryInstr(ConstantOperand(kind).value, I32, a.value, c.value))
  }

  function LowerBinary(s: LowerState, env: KernelEnv, kind: BinaryKind, l: Expr, r: Expr, expected: IrType): Lowered
    decreases Binary(kind, l, r), 0
  {
    if ConstantOperand(kind).None? && ArithOpcode(kind).None? then Decline(Expression)
    else
      var (s1, a) :- LowerExpr(s, env, l, VoidType);
      if ConstantOperand(kind).Some? then
        var (s2, v) :- LowerByConstant(s1, kind, a, r);
        Coerce(s2, v, expected)
      else
        var (s2, b) :- LowerExpr(s1, env, r, VoidType);
        if a.ty != b.ty || !IsScalarType(a.ty) then Decline(Expression)
        else if BitOnly(ArithOpcode(kind).value) && !a.ty.I32? then Decline(Expression)
        else
          var (s3, v) :- Append(s2, BinaryInstr(ArithOpcode(kind).value, a.ty, a.value, b.value));
          Coerce(s3, v, expected)
  }

  // ------------------------------------------------------------------
  // Statements
  // ------------------------------------------------------------------

  function LowerAtomic(s: LowerState, env: KernelEnv, reduction: Reduction): Status<LowerState> {
    if reduction.entry.None? then Status.Failure(HardError)
    else
      var (s1, v) :- LowerExpr(s, env, reduction.mapped, I32);
      if !v.ty.I32? || reduction.entry.value >= |env.results| then Status.Failure(HardError)
      else
        var (s2, _) :- Append(s1, AtomicAdd(reduction.entry.value, v.value));
        Success(s2)
  }

  function LowerStore(s: LowerState, env: KernelEnv, base: Expr, index: Expr, rhs: Expr): Status<LowerState> {
    match TermSymbol(base)
    case None => Decline(Expression)
    case Some(symbol) =>
      match CatalogBuffer(env.buffers, symbol)
      case None => Decline(Expression)
      case Some(b) =>
        if b.binding < 0 then Status.Failure(HardError)
        else
          var (s1, at) :- LowerIndex(s, env, index);
          var (s2, v) :- LowerExpr(s1, env, rhs, b.elem);
          if !at.ty.IndexType? then Status.Failure(HardError)
          else
            var (s3, _) :- Append(s2, Store(b.binding, at.value, v.value));
            Success(s3)
  }

  function LocalType(local: Local): IrType {
    if IsScalarType(local.declared) then local.declared else local.proven
  }

  function LowerAssign(s: LowerState, env: KernelEnv, name: string, rhs: Expr): Status<LowerState> {
    if name == "$return" then Decline(ControlFlow)
    else match FindLocal(env.locals, name)
      case None => Decline(Expression)
      case Some(local) =>
        if local.isParameter || local.isLoopCounter then Decline(NotDoall)
        else if !(0 <= local.index < MAX_LOCALS) then Decline(Limit)
        else if !IsScalarType(LocalType(local)) then Decline(Expression)
        else
          var (s1, v) :- LowerExpr(s, env, rhs, LocalType(local));
          Success(s1.(locals := s1.locals[local.index := v]))
  }

  predicate UpdatesAccumulator(env: KernelEnv, lhs: Expr) {
    env.reduction.Some? && TermSymbol(lhs) == Some(env.reduction.value.accumulator)
  }

  function LowerStatement(s: LowerState, env: KernelEnv, stmt: Stmt): Status<LowerState> {
    if UpdatesAccumulator(env, stmt.lhs) then LowerAtomic(s, env, env.reduction.value)
    else match stmt.lhs
      case Subscript(base, index) => LowerStore(s, env, base, index, stmt.rhs)
      case TermExpr(SymbolTerm(name)) => LowerAssign(s, env, name, stmt.rhs)
      case _ => Decline(Expression)
  }

  function LowerBody(env: KernelEnv, body: seq<Stmt>): Status<LowerState>
    decreases |body|
  {
    if body == [] then Success(EMPTY)
    else
      var s :- LowerBody(env, body[..|body| - 1]);
      LowerStatement(s, env, body[|body| - 1])
  }
}
