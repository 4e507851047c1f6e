// Structural facts about lowered kernels: the validator accepts every kernel
// the lowerer produces, and reductions flow only from earlier kernels to
// later ones.

module KernelValidation {
  import opened Words
  import opened Hir
  import opened AccelIr
  import opened Lowering

  const MAX_SCALAR_BINDINGS: nat := 32
  const MAX_BUFFER_BINDINGS: nat := 64

  datatype Shape = Shape(scalarCount: nat, bufferTypes: seq<IrType>)

  // The value-defining instructions: entry v defines value v.
  function Definitions(code: seq<Instr>): seq<Instr> {
    if code == [] then []
    else
      var front, last := Definitions(code[..|code| - 1]), code[|code| - 1];
      if ResultType(last).VoidType? then front else front + [last]
  }

  predicate Operand(defs: seq<Instr>, v: nat, t: IrType) {
    v < |defs| && (t.VoidType? || ResultType(defs[v]) == t)
  }

  // A constant right operand the validator accepts for this operation.
  predicate ConstantChecked(op: Opcode, def: Instr) {
    match op
    case DivOp => def.ConstI32? && Signed(def.bits) > 0
    case ModOp => def.ConstI32? && Signed(def.bits) > 0
    case ShlOp => def.ConstI32? && 0 <= Signed(def.bits) <= 31
    case ShrOp => def.ConstI32? && 0 <= Signed(def.bits) <= 31
    case _ => true
  }

  predicate ValidArithmetic(defs: seq<Instr>, op: Opcode, t: IrType, l: nat, r: nat) {
    && Operand(defs, l, VoidType) && Operand(defs, r, VoidType) && ConstantChecked(op, defs[r])
    && var (first, second) := (ResultType(defs[l]), ResultType(defs[r]));
       if t.IndexType? then (op.AddOp? || op.SubOp?) && first.IndexType? && second.I32?
       else
         && first == t && second == t
         && (t.I32? || (t.F32? && (op.AddOp? || op.SubOp? || op.MulOp?)))
  }

  predicate ValidComparison(defs: seq<Instr>, op: Opcode, t: IrType, l: nat, r: nat) {
    && t.BoolType? && Operand(defs, l, VoidType) && Operand(defs, r, VoidType)
    && var (first, second) := (ResultType(defs[l]), ResultType(defs[r]));
       first == second && (first.I32? || first.F32? || (first.BoolType? && (op.CmpEq? || op.CmpNe?)))
  }

  // defs are the definitions before the instruction.
  predicate ValidInstr(shape: Shape, defs: seq<Instr>, i: Instr) {
    match i
    case Uniform(t, b) => IsScalarType(t) && b < shape.scalarCount
    case ConstI32(_) => true
    case ConstF32(_) => true
    case ConstBool(b) => b <= 1
    case GlobalIndex => true
    case Load(t, b, at) => b < |shape.bufferTypes| && t == shape.bufferTypes[b] && Operand(defs, at, IndexType)
    case Store(b, at, v) =>
      b < |shape.bufferTypes| && Operand(defs, at, IndexType) && Operand(defs, v, shape.bufferTypes[b])
    case BinaryInstr(op, t, l, r) =>
      if AccelIr.RelationOf(op).Some? then ValidComparison(defs, op, t, l, r) else ValidArithmetic(defs, op, t, l, r)
    case SelectInstr(ty, c, t, f) => IsScalarType(ty) && Operand(defs, c, BoolType) && Operand(defs, t, ty) && Operand(defs, f, ty)
    case AtomicAdd(_, v) => Operand(defs, v, I32)
    case LoadResult(_) => true
  }

  predicate ValidCode(shape: Shape, code: seq<Instr>) {
    code == [] ||
    (ValidCode(shape, code[..|code| - 1]) &&
     ValidInstr(shape, Definitions(code[..|code| - 1]), code[|code| - 1]))
  }

  predicate ValidKernel(shape: Shape, code: seq<Instr>, valueCount: nat) {
    && shape.scalarCount <= MAX_SCALAR_BINDINGS && |shape.bufferTypes| <= MAX_BUFFER_BINDINGS
    && |code| <= MAX_INSTRUCTIONS && valueCount <= MAX_VALUES
    && (forall b :: b in shape.bufferTypes ==> IsScalarType(b))
    && ValidCode(shape, code)
    && |Definitions(code)| == valueCount
  }

  // The validation loop: instructions in order, remembering what each
  // defined value is.
  method Validate(shape: Shape, code: seq<Instr>, valueCount: nat) returns (ok: bool)
    ensures ok <==> ValidKernel(shape, code, valueCount)
  {
    if shape.scalarCount > MAX_SCALAR_BINDINGS || |shape.bufferTypes| > MAX_BUFFER_BINDINGS { return false; }
    if |code| > MAX_INSTRUCTIONS || valueCount > MAX_VALUES { return false; }
    for i := 0 to |shape.bufferTypes|
      invariant forall b :: 0 <= b < i ==> IsScalarType(shape.bufferTypes[b])
    {
      if !IsScalarType(shape.bufferTypes[i]) { return false; }
    }
    var defined: seq<Instr> := [];
    assert code[..0] == [];
    for i := 0 to |code|
      invariant defined == Definitions(code[..i])
      invariant ValidCode(shape, code[..i])
    {
      assert code[..i + 1][..i] == code[..i];
      if !ValidInstr(shape, defined, code[i]) {
        InvalidPrefix(shape, code, i + 1);
        return false;
      }
      if !ResultType(code[i]).VoidType? { defined := defined + [code[i]]; }
    }
    assert code[..|code|] == code;
    return |defined| == valueCount;
  }

  lemma {:induction false} InvalidPrefix(shape: Shape, code: seq<Instr>, n: nat)
    requires n <= |code| && !ValidCode(shape, code[..n])
    ensures !ValidCode(shape, code)
    decreases |code| - n
  {
    if n == |code| {
      assert code[..n] == code;
    } else {
      assert code[..n + 1][..n] == code[..n];
      InvalidPrefix(shape, code, n + 1);
    }
  }

  // ------------------------------------------------------------------
  // What the tables of an accepted region guarantee
  // ------------------------------------------------------------------

  ghost predicate TablesFit(env: KernelEnv, shape: Shape) {
    && shape.scalarCount == |env.scalars| <= MAX_SCALAR_BINDINGS
    && |shape.bufferTypes| <= MAX_BUFFER_BINDINGS
    && (forall b :: b in shape.bufferTypes ==> IsScalarType(b))
    && (forall i :: 0 <= i < |env.scalars| ==> IsScalarType(env.scalars[i].ty))
    && (forall b :: b in env.buffers && b.binding >= 0 ==>
         b.binding < |shape.bufferTypes| && shape.bufferTypes[b.binding] == b.elem)
  }

  // ------------------------------------------------------------------
  // The lowering invariant
  // ------------------------------------------------------------------

  predicate Typed(s: LowerState, v: LowerValue) {
    v.value < |s.types| && s.types[v.value] == v.ty && !v.ty.VoidType?
  }

  predicate OwnEntry(env: KernelEnv, e: nat) {
    env.reduction.Some? && env.reduction.value.entry == Some(e) && e < |env.results|
  }

  predicate EarlierEntry(env: KernelEnv, e: nat) {
    e < |env.results| && env.results[e].producer < env.kernelIndex
  }

  ghost predicate Flow(env: KernelEnv, code: seq<Instr>, consumed: set<nat>) {
    && (forall i :: i in code && i.AtomicAdd? ==> OwnEntry(env, i.entry))
    && (forall i :: i in code && i.LoadResult? ==> EarlierEntry(env, i.entry))
    && (forall e :: e in consumed <==> LoadResult(e) in code)
  }

  ghost predicate Sound(env: KernelEnv, shape: Shape, s: LowerState) {
    && ValidCode(shape, s.code)
    && |s.code| <= MAX_INSTRUCTIONS && |s.types| <= MAX_VALUES
    && |Definitions(s.code)| == |s.types|
    && (forall v :: 0 <= v < |s.types| ==> ResultType(Definitions(s.code)[v]) == s.types[v])
    && (s.globalIndex.Some? ==> Typed(s, LowerValue(s.globalIndex.value, IndexType)))
    && (forall i :: i in s.uniforms ==> i < |env.scalars| && Typed(s, LowerValue(s.uniforms[i], env.scalars[i].ty)))
    && (forall i :: i in s.locals ==> Typed(s, s.locals[i]))
    && Flow(env, s.code, s.consumed)
  }

  ghost predicate Defines(env: KernelEnv, shape: Shape, s: LowerState, s1: LowerState, v: LowerValue) {
    Sound(env, shape, s1) && s.code <= s1.code && s.types <= s1.types && s.locals == s1.locals && Typed(s1, v)
  }

  lemma FlowSnoc(env: KernelEnv, code: seq<Instr>, consumed: set<nat>, i: Instr)
    requires Flow(env, code, consumed)
    requires i.AtomicAdd? ==> OwnEntry(env, i.entry)
    requires i.LoadResult? ==> EarlierEntry(env, i.entry)
    ensures Flow(env, code + [i], if i.LoadResult? then consumed + {i.entry} else consumed)
  {
  }

  lemma CodeSnoc(shape: Shape, code: seq<Instr>, i: Instr)
    requires ValidCode(shape, code) && ValidInstr(shape, Definitions(code), i)
    ensures ValidCode(shape, code + [i])
    ensures Definitions(code + [i]) == if ResultType(i).VoidType? then Definitions(code) else Definitions(code) + [i]
  {
    assert (code + [i])[..|code|] == code;
  }

  function Recorded(s: LowerState, i: Instr): LowerState {
    if i.LoadResult? then s.(consumed := s.consumed + {i.entry}) else s
  }

  lemma AppendParts(s: LowerState, i: Instr)
    requires Append(s, i).Success?
    ensures var (s1, v) := Append(s, i).value;
      && s1 == s.(code := s.code + [i], types := if ResultType(i).VoidType? then s.types else s.types + [ResultType(i)])
      && |s1.code| <= MAX_INSTRUCTIONS && (|s.types| <= MAX_VALUES ==> |s1.types| <= MAX_VALUES)
      && v == (if ResultType(i).VoidType? then LowerValue(0, VoidType) else LowerValue(|s.types|, ResultType(i)))
  {
  }

  lemma AppendSound(env: KernelEnv, shape: Shape, s: LowerState, i: Instr)
    requires Sound(env, shape, s) && Append(s, i).Success? && ValidInstr(shape, Definitions(s.code), i)
    requires i.AtomicAdd? ==> OwnEntry(env, i.entry)
    requires i.LoadResult? ==> EarlierEntry(env, i.entry)
    ensures var (s1, v) := Append(s, i).value;
      && Sound(env, shape, Recorded(s1, i))
      && (!ResultType(i).VoidType? ==> Defines(env, shape, s, Recorded(s1, i), v) && v.ty == ResultType(i))
      && s1.code == s.code + [i]
      && s1.locals == s.locals && s1.types == (if ResultType(i).VoidType? then s.types else s.types + [ResultType(i)])
      && Definitions(s1.code) == (if ResultType(i).VoidType? then Definitions(s.code) else Definitions(s.code) + [i])
  {
    hide ValidInstr, Flow, ValidCode, Definitions, OwnEntry, EarlierEntry, Append;
    AppendParts(s, i);
    CodeSnoc(shape, s.code, i);
    FlowSnoc(env, s.code, s.consumed, i);
    TypesSnoc(Definitions(s.code), s.types, i);
  }

  lemma TypesSnoc(defined: seq<Instr>, types: seq<IrType>, i: Instr)
    requires |defined| == |types| && forall v :: 0 <= v < |types| ==> ResultType(defined[v]) == types[v]
    ensures forall v :: 0 <= v < |types| + 1 ==> ResultType((defined + [i])[v]) == (types + [ResultType(i)])[v]
  {
  }

  lemma CacheSound(env: KernelEnv, shape: Shape, s: LowerState, scalar: nat, v: LowerValue)
    requires Sound(env, shape, s) && scalar < |env.scalars| && Typed(s, v) && v.ty == env.scalars[scalar].ty
    ensures Sound(env, shape, s.(uniforms := s.uniforms[scalar := v.value]))
  {
    hide ValidCode, Definitions, Flow;
  }

  lemma CachedSound(env: KernelEnv, shape: Shape, s: LowerState, scalar: nat)
    requires Sound(env, shape, s) && scalar in s.uniforms
    ensures scalar < |env.scalars| && Defines(env, shape, s, s, LowerValue(s.uniforms[scalar], env.scalars[scalar].ty))
  {
    hide ValidCode, Definitions, Flow;
  }

  lemma UniformSound(env: KernelEnv, shape: Shape, s: LowerState, scalar: nat)
    requires Sound(env, shape, s) && TablesFit(env, shape) && LowerUniform(s, env, scalar).Success?
    ensures var (s1, v) := LowerUniform(s, env, scalar).value;
      Defines(env, shape, s, s1, v) && scalar < |env.scalars| && v.ty == env.scalars[scalar].ty
  {
    hide Sound, Definitions, Append;
    if scalar in s.uniforms {
      CachedSound(env, shape, s, scalar);
    } else {
      var i := Uniform(env.scalars[scalar].ty, scalar);
      AppendSound(env, shape, s, i);
      var (s1, v) := Append(s, i).value;
      CacheSound(env, shape, s1, scalar, v);
    }
  }

  lemma GlobalIndexSound(env: KernelEnv, shape: Shape, s: LowerState)
    requires Sound(env, shape, s) && LowerGlobalIndex(s).Success?
    ensures var (s1, v) := LowerGlobalIndex(s).value;
      Defines(env, shape, s, s1, v) && v.ty.IndexType?
  {
    hide ValidCode, Definitions, Flow;
    if s.globalIndex.None? {
      AppendSound(env, shape, s, GlobalIndex);
    }
  }

  lemma SymbolSound(env: KernelEnv, shape: Shape, s: LowerState, name: string)
    requires Sound(env, shape, s) && TablesFit(env, shape) && LowerSymbol(s, env, name).Success?
    ensures var (s1, v) := LowerSymbol(s, env, name).value; Defines(env, shape, s, s1, v)
  {
    hide ValidCode, Definitions, Flow;
    match ScalarIndex(env.scalars, name)
    case Some(i) => UniformSound(env, shape, s, i);
    case None =>
      match ResultIndex(env, name, 0)
      case Some(entry) => AppendSound(env, shape, s, LoadResult(entry));
      case None =>
  }

  lemma AdjustSound(env: KernelEnv, shape: Shape, s: LowerState, base: LowerValue, adjustment: LowerValue, subtract: bool)
    requires Sound(env, shape, s) && AdjustIndex(s, base, adjustment, subtract).Success?
    requires Typed(s, base) && Typed(s, adjustment)
    ensures var (s1, v) := AdjustIndex(s, base, adjustment, subtract).value;
      Defines(env, shape, s, s1, v) && v.ty.IndexType?
  {
    AppendSound(env, shape, s, BinaryInstr(if subtract then SubOp else AddOp, IndexType, base.value, adjustment.value));
  }

  lemma AdjustConstantSound(env: KernelEnv, shape: Shape, s: LowerState, base: LowerValue, constant: int)
    requires Sound(env, shape, s) && Typed(s, base) && base.ty.IndexType? && AdjustConstant(s, base, constant).Success?
    ensures var (s1, v) := AdjustConstant(s, base, constant).value;
      Defines(env, shape, s, s1, v) && v.ty.IndexType?
  {
    hide Flow, ValidCode, Definitions, Wrap;
    if constant != 0 {
      AppendSound(env, shape, s, ConstI32(Wrap(constant)));
      var (s1, c) := Append(s, ConstI32(Wrap(constant))).value;
      AdjustSound(env, shape, s1, base, c, false);
    }
  }

  lemma AdjustScalarSound(env: KernelEnv, shape: Shape, s: LowerState, base: LowerValue, name: Option<string>, subtract: bool)
    requires Sound(env, shape, s) && TablesFit(env, shape) && AdjustScalar(s, env, base, name, subtract).Success?
    requires Typed(s, base) && base.ty.IndexType?
    ensures var (s1, v) := AdjustScalar(s, env, base, name, subtract).value;
      Defines(env, shape, s, s1, v) && v.ty.IndexType?
  {
    hide Flow, ValidCode, Definitions;
    var i := ScalarIndex(env.scalars, name.value).value;
    UniformSound(env, shape, s, i);
    var (s1, u) := LowerUniform(s, env, i).value;
    AdjustSound(env, shape, s1, base, u, subtract);
  }

  lemma IndexSound(env: KernelEnv, shape: Shape, s: LowerState, e: Expr)
    requires Sound(env, shape, s) && TablesFit(env, shape) && LowerIndex(s, env, e).Success?
    ensures var (s1, v) := LowerIndex(s, env, e).value; Defines(env, shape, s, s1, v) && v.ty.IndexType?
  {
    hide Sound, AdjustConstant, AdjustScalar, LowerGlobalIndex, NormalizeIndex;
    var affine := NormalizeIndex(e, env.counter);
    GlobalIndexSound(env, shape, s);
    var (s1, lane) := LowerGlobalIndex(s).value;
    match FoldConstant(env.start) {
      case Some(c) => AdjustConstantSound(env, shape, s1, lane, c);
      case None => AdjustScalarSound(env, shape, s1, lane, TermSymbol(StripPar(env.start)), false);
    }
    var (s2, counter) := LowerStart(s1, env, lane).value;
    if affine.symbol.Some? {
      AdjustScalarSound(env, shape, s2, counter, affine.symbol, affine.sign < 0);
      var (s3, shifted) := AdjustScalar(s2, env, counter, affine.symbol, affine.sign < 0).value;
      AdjustConstantSound(env, shape, s3, shifted, affine.offset);
    } else {
      AdjustConstantSound(env, shape, s2, counter, affine.offset);
    }
  }

  lemma {:induction false} CatalogMember(buffers: seq<Buffer>, symbol: string)
    requires CatalogBuffer(buffers, symbol).Some?
    ensures CatalogBuffer(buffers, symbol).value in buffers
  {
    if buffers[0].symbol != symbol {
      CatalogMember(buffers[1..], symbol);
    }
  }

  lemma LoadSound(env: KernelEnv, shape: Shape, s: LowerState, b: Buffer, at: LowerValue)
    requires Sound(env, shape, s) && TablesFit(env, shape) && b in env.buffers && b.binding >= 0
    requires Typed(s, at) && at.ty.IndexType? && Append(s, Load(b.elem, b.binding, at.value)).Success?
    ensures var (s1, v) := Append(s, Load(b.elem, b.binding, at.value)).value; Defines(env, shape, s, s1, v)
  {
    hide Flow, ValidCode;
    assert shape.bufferTypes[b.binding] in shape.bufferTypes;
    AppendSound(env, shape, s, Load(b.elem, b.binding, at.value));
  }

  lemma SubscriptSound(env: KernelEnv, shape: Shape, s: LowerState, base: Expr, index: Expr)
    requires Sound(env, shape, s) && TablesFit(env, shape) && LowerSubscript(s, env, base, index).Success?
    ensures var (s1, v) := LowerSubscript(s, env, base, index).value; Defines(env, shape, s, s1, v)
  {
    hide LowerIndex, Append, Sound, Defines, TablesFit, Definitions, Typed;
    var b := CatalogBuffer(env.buffers, TermSymbol(base).value).value;
    CatalogMember(env.buffers, TermSymbol(base).value);
    IndexSound(env, shape, s, index);
    var (s1, at) := LowerIndex(s, env, index).value;
    DefinesKnown(env, shape, s, s1, at);
    LoadSound(env, shape, s1, b, at);
    var (s2, v) := Append(s1, Load(b.elem, b.binding, at.value)).value;
    DefinesAfter(env, shape, s, s1, at, s2, v);
  }

  lemma LiteralSound(env: KernelEnv, shape: Shape, s: LowerState, i: Instr)
    requires Sound(env, shape, s) && Append(s, i).Success? && (i.ConstI32? || i.ConstF32?)
    ensures var (s1, v) := Append(s, i).value;
      && Defines(env, shape, s, s1, v) && v.ty == ResultType(i)
      && v.value < |Definitions(s1.code)| && Definitions(s1.code)[v.value] == i
  {
    AppendSound(env, shape, s, i);
  }

  lemma SelectSound(env: KernelEnv, shape: Shape, s: LowerState, c: LowerValue, one: LowerValue, zero: LowerValue)
    requires Sound(env, shape, s) && Append(s, SelectInstr(I32, c.value, one.value, zero.value)).Success?
    requires Typed(s, c) && c.ty.BoolType? && Typed(s, one) && one.ty.I32? && Typed(s, zero) && zero.ty.I32?
    ensures var (s1, v) := Append(s, SelectInstr(I32, c.value, one.value, zero.value)).value;
      Defines(env, shape, s, s1, v) && v.ty.I32?
  {
    AppendSound(env, shape, s, SelectInstr(I32, c.value, one.value, zero.value));
  }

  lemma CoerceSound(env: KernelEnv, shape: Shape, s: LowerState, v: LowerValue, expected: IrType)
    requires Sound(env, shape, s) && Typed(s, v) && Coerce(s, v, expected).Success?
    ensures var (s1, v1) := Coerce(s, v, expected).value;
      Defines(env, shape, s, s1, v1) && (expected.VoidType? || v1.ty == expected)
  {
    hide Sound, Append;
    if !expected.VoidType? && expected != v.ty {
      LiteralSound(env, shape, s, ConstI32(1));
      var (s1, one) := Append(s, ConstI32(1)).value;
      LiteralSound(env, shape, s1, ConstI32(0));
      var (s2, zero) := Append(s1, ConstI32(0)).value;
      SelectSound(env, shape, s2, v, one, zero);
    }
  }

  lemma DefinesKnown(env: KernelEnv, shape: Shape, s: LowerState, s1: LowerState, v: LowerValue)
    requires Defines(env, shape, s, s1, v)
    ensures Sound(env, shape, s1) && Typed(s1, v) && v.value < |Definitions(s1.code)|
  {
  }

  lemma DefinesAfter(env: KernelEnv, shape: Shape, s: LowerState, s1: LowerState, a: LowerValue, s2: LowerState, b: LowerValue)
    requires Defines(env, shape, s, s1, a) && Defines(env, shape, s1, s2, b)
    ensures Defines(env, shape, s, s2, b) && Typed(s2, a)
  {
    hide Sound;
  }

  lemma OperandDefined(env: KernelEnv, shape: Shape, s: LowerState, v: LowerValue)
    requires Sound(env, shape, s) && Typed(s, v)
    ensures v.value < |Definitions(s.code)|
  {
  }

  // Appending a two-operand instruction over checked operands.
  lemma OperatorSound(env: KernelEnv, shape: Shape, s: LowerState, op: Opcode, t: IrType, a: LowerValue, b: LowerValue)
    requires Sound(env, shape, s) && Typed(s, a) && Typed(s, b) && a.ty == b.ty && IsScalarType(a.ty)
    requires ConstantChecked(op, Definitions(s.code)[b.value])
    requires if AccelIr.RelationOf(op).Some? then t.BoolType? else t == a.ty && (t.I32? || op.AddOp? || op.SubOp? || op.MulOp?)
    requires Append(s, BinaryInstr(op, t, a.value, b.value)).Success?
    ensures var (s1, v) := Append(s, BinaryInstr(op, t, a.value, b.value)).value;
      Defines(env, shape, s, s1, v) && v.ty == t
  {
    AppendSound(env, shape, s, BinaryInstr(op, t, a.value, b.value));
  }

  // A value converted to the expected type.
  lemma ConvertedSound(env: KernelEnv, shape: Shape, s: LowerState, s1: LowerState, v: LowerValue, expected: IrType)
    requires Defines(env, shape, s, s1, v) && Coerce(s1, v, expected).Success?
    ensures var (s2, w) := Coerce(s1, v, expected).value;
      Defines(env, shape, s, s2, w) && (expected.VoidType? || w.ty == expected)
  {
    hide Sound, Coerce;
    CoerceSound(env, shape, s1, v, expected);
    var (s2, w) := Coerce(s1, v, expected).value;
    DefinesAfter(env, shape, s, s1, v, s2, w);
  }

  lemma TermSound(env: KernelEnv, shape: Shape, s: LowerState, e: Expr, expected: IrType)
    requires e.TermExpr?
    requires Sound(env, shape, s) && TablesFit(env, shape) && LowerExpr(s, env, e, expected).Success?
    ensures var (s1, v) := LowerExpr(s, env, e, expected).value;
      Defines(env, shape, s, s1, v) && (expected.VoidType? || v.ty == expected)
  {
    hide Sound, Append, LowerSymbol, Coerce, TablesFit, Wrap, Defines;
    match e.term
    case IntTerm(i) =>
      LiteralSound(env, shape, s, ConstI32(Wrap(i)));
      var (s1, v) := Append(s, ConstI32(Wrap(i))).value;
      ConvertedSound(env, shape, s, s1, v, expected);
    case FloatTerm(b) =>
      LiteralSound(env, shape, s, ConstF32(b));
      var (s1, v) := Append(s, ConstF32(b)).value;
      ConvertedSound(env, shape, s, s1, v, expected);
    case SymbolTerm(n) =>
      SymbolSound(env, shape, s, n);
      var (s1, v) := LowerSymbol(s, env, n).value;
      ConvertedSound(env, shape, s, s1, v, expected);
  }

  // Zero minus a checked operand.
  lemma MinusSound(env: KernelEnv, shape: Shape, s: LowerState, v: LowerValue)
    requires Sound(env, shape, s) && Typed(s, v) && v.ty.I32? && Append(s, ConstI32(0)).Success?
    requires var (s1, zero) := Append(s, ConstI32(0)).value; Append(s1, BinaryInstr(SubOp, I32, zero.value, v.value)).Success?
    ensures var (s1, zero) := Append(s, ConstI32(0)).value;
      var (s2, r) := Append(s1, BinaryInstr(SubOp, I32, zero.value, v.value)).value;
      Defines(env, shape, s, s2, r) && r.ty.I32?
  {
    hide Sound, Append, ValidInstr;
    LiteralSound(env, shape, s, ConstI32(0));
    var (s1, zero) := Append(s, ConstI32(0)).value;
    OperandDefined(env, shape, s1, v);
    OperatorSound(env, shape, s1, SubOp, I32, zero, v);
  }

  lemma {:induction false} NegationSound(env: KernelEnv, shape: Shape, s: LowerState, e: Expr, expected: IrType)
    requires e.Unary? && e.unary.Neg?
    requires Sound(env, shape, s) && TablesFit(env, shape) && LowerExpr(s, env, e, expected).Success?
    ensures var (s1, v) := LowerExpr(s, env, e, expected).value;
      Defines(env, shape, s, s1, v) && (expected.VoidType? || v.ty == expected)
    decreases e, 0
  {
    hide Sound, Append, Coerce, TablesFit, Defines, Typed;
    ExprSound(env, shape, s, e.operand, VoidType);
    var (s1, v) := LowerExpr(s, env, e.operand, VoidType).value;
    DefinesKnown(env, shape, s, s1, v);
    MinusSound(env, shape, s1, v);
    var (s2, zero) := Append(s1, ConstI32(0)).value;
    var (s3, r) := Append(s2, BinaryInstr(SubOp, I32, zero.value, v.value)).value;
    DefinesAfter(env, shape, s, s1, v, s3, r);
    ConvertedSound(env, shape, s, s3, r, expected);
  }

  lemma ElementSound(env: KernelEnv, shape: Shape, s: LowerState, e: Expr, expected: IrType)
    requires e.Subscript?
    requires Sound(env, shape, s) && TablesFit(env, shape) && LowerExpr(s, env, e, expected).Success?
    ensures var (s1, v) := LowerExpr(s, env, e, expected).value;
      Defines(env, shape, s, s1, v) && (expected.VoidType? || v.ty == expected)
  {
    hide Sound, LowerSubscript, Coerce, TablesFit, Defines;
    SubscriptSound(env, shape, s, e.base, e.index);
    var (s1, v) := LowerSubscript(s, env, e.base, e.index).value;
    ConvertedSound(env, shape, s, s1, v, expected);
  }

  lemma {:induction false} OperationSound(env: KernelEnv, shape: Shape, s: LowerState, e: Expr, expected: IrType)
    requires e.Binary?
    requires Sound(env, shape, s) && TablesFit(env, shape) && LowerExpr(s, env, e, expected).Success?
    ensures var (s1, v) := LowerExpr(s, env, e, expected).value;
      Defines(env, shape, s, s1, v) && (expected.VoidType? || v.ty == expected)
    decreases e, 1
  {
    hide Sound, Coerce, TablesFit, Defines, LowerBinary, LowerComparison;
    if CompareOpcode(e.kind).Some? {
      ComparisonSound(env, shape, s, e.kind, e.left, e.right);
      var (s1, v) := LowerComparison(s, env, e.kind, e.left, e.right).value;
      ConvertedSound(env, shape, s, s1, v, expected);
    } else {
      BinarySound(env, shape, s, e.kind, e.left, e.right, expected);
      var (s1, v) := LowerBinary(s, env, e.kind, e.left, e.right, expected).value;
      ConvertedSound(env, shape, s, s1, v, expected);
    }
  }

  lemma {:induction false} ExprSound(env: KernelEnv, shape: Shape, s: LowerState, e: Expr, expected: IrType)
    requires Sound(env, shape, s) && TablesFit(env, shape) && LowerExpr(s, env, e, expected).Success?
    ensures var (s1, v) := LowerExpr(s, env, e, expected).value;
      Defines(env, shape, s, s1, v) && (expected.VoidType? || v.ty == expected)
    decreases e, 2
  {
    hide Sound, Append, LowerSymbol, LowerSubscript, LowerBinary, LowerComparison, Coerce, TablesFit, Defines;
    match e
    case TermExpr(_) => TermSound(env, shape, s, e, expected);
    case Unary(Par, x) => ExprSound(env, shape, s, x, expected);
    case Unary(Neg, _) => NegationSound(env, shape, s, e, expected);
    case Subscript(_, _) => ElementSound(env, shape, s, e, expected);
    case Binary(_, _, _) => OperationSound(env, shape, s, e, expected);
  }

  lemma CompareSound(env: KernelEnv, shape: Shape, s: LowerState, kind: BinaryKind, a: LowerValue, b: LowerValue)
    requires CompareOpcode(kind).Some? && Sound(env, shape, s)
    requires Typed(s, a) && Typed(s, b) && a.ty == b.ty && IsScalarType(a.ty)
    requires Append(s, BinaryInstr(CompareOpcode(kind).value, BoolType, a.value, b.value)).Success?
    ensures var (s1, v) := Append(s, BinaryInstr(CompareOpcode(kind).value, BoolType, a.value, b.value)).value;
      Defines(env, shape, s, s1, v)
  {
    hide Sound, Append, Definitions, Defines, Typed;
    OperandDefined(env, shape, s, b);
    OperatorSound(env, shape, s, CompareOpcode(kind).value, BoolType, a, b);
  }

  lemma {:induction false} ComparisonSound(env: KernelEnv, shape: Shape, s: LowerState, kind: BinaryKind, l: Expr, r: Expr)
    requires CompareOpcode(kind).Some?
    requires Sound(env, shape, s) && TablesFit(env, shape) && LowerComparison(s, env, kind, l, r).Success?
    ensures var (s1, v) := LowerComparison(s, env, kind, l, r).value; Defines(env, shape, s, s1, v)
    decreases Binary(kind, l, r), 0
  {
    hide Sound, Append, TablesFit, Definitions, LowerExpr, Defines, Typed, CompareOpcode;
    ExprSound(env, shape, s, l, VoidType);
    var (s1, a) := LowerExpr(s, env, l, VoidType).value;
    DefinesKnown(env, shape, s, s1, a);
    ExprSound(env, shape, s1, r, VoidType);
    var (s2, b) := LowerExpr(s1, env, r, VoidType).value;
    DefinesKnown(env, shape, s1, s2, b);
    DefinesAfter(env, shape, s, s1, a, s2, b);
    CompareSound(env, shape, s2, kind, a, b);
    var (s3, v) := Append(s2, BinaryInstr(CompareOpcode(kind).value, BoolType, a.value, b.value)).value;
    DefinesAfter(env, shape, s, s2, b, s3, v);
  }

  lemma ConstantSound(
    env: KernelEnv, shape: Shape, s0: LowerState, s: LowerState, kind: BinaryKind, a: LowerValue, c: Int64, expected: IrType)
    requires ConstantOperand(kind).Some? && ConstantAllowed(kind, c)
    requires Defines(env, shape, s0, s, a) && a.ty.I32? && Append(s, ConstI32(Wrap(c))).Success?
    requires var (s2, k) := Append(s, ConstI32(Wrap(c))).value;
      var i := BinaryInstr(ConstantOperand(kind).value, I32, a.value, k.value);
      Append(s2, i).Success? && Coerce(Append(s2, i).value.0, Append(s2, i).value.1, expected).Success?
    ensures var (s2, k) := Append(s, ConstI32(Wrap(c))).value;
      var (s3, v) := Append(s2, BinaryInstr(ConstantOperand(kind).value, I32, a.value, k.value)).value;
      Defines(env, shape, s0, Coerce(s3, v, expected).value.0, Coerce(s3, v, expected).value.1)
  {
    hide Sound, Append, Definitions, Wrap, Coerce, Defines, Typed;
    DefinesKnown(env, shape, s0, s, a);
    LiteralSound(env, shape, s, ConstI32(Wrap(c)));
    var (s2, k) := Append(s, ConstI32(Wrap(c))).value;
    DefinesAfter(env, shape, s0, s, a, s2, k);
    DefinesKnown(env, shape, s, s2, k);
    SignedOfWrap(c);
    OperatorSound(env, shape, s2, ConstantOperand(kind).value, I32, a, k);
    var (s3, v) := Append(s2, BinaryInstr(ConstantOperand(kind).value, I32, a.value, k.value)).value;
    FinishSound(env, shape, s0, s2, k, s3, v, expected);
  }

  lemma ArithSound(
    env: KernelEnv, shape: Shape, s0: LowerState, s1: LowerState, a: LowerValue, s: LowerState, b: LowerValue,
    kind: BinaryKind, expected: IrType)
    requires Defines(env, shape, s0, s1, a) && Defines(env, shape, s1, s, b)
    requires ArithOpcode(kind).Some? && a.ty == b.ty && IsScalarType(a.ty)
    requires BitOnly(ArithOpcode(kind).value) ==> a.ty.I32?
    requires var i := BinaryInstr(ArithOpcode(kind).value, a.ty, a.value, b.value);
      Append(s, i).Success? && Coerce(Append(s, i).value.0, Append(s, i).value.1, expected).Success?
    ensures var (s3, v) := Append(s, BinaryInstr(ArithOpcode(kind).value, a.ty, a.value, b.value)).value;
      Defines(env, shape, s0, Coerce(s3, v, expected).value.0, Coerce(s3, v, expected).value.1)
  {
    hide Sound, Append, Definitions, Defines, Typed, Coerce;
    DefinesAfter(env, shape, s0, s1, a, s, b);
    DefinesKnown(env, shape, s1, s, b);
    OperatorSound(env, shape, s, ArithOpcode(kind).value, a.ty, a, b);
    var (s3, v) := Append(s, BinaryInstr(ArithOpcode(kind).value, a.ty, a.value, b.value)).value;
    FinishSound(env, shape, s0, s, b, s3, v, expected);
  }

  lemma {:induction false} BinarySound(
    env: KernelEnv, shape: Shape, s: LowerState, kind: BinaryKind, l: Expr, r: Expr, expected: IrType)
    requires Sound(env, shape, s) && TablesFit(env, shape) && LowerBinary(s, env, kind, l, r, expected).Success?
    ensures var (s1, v) := LowerBinary(s, env, kind, l, r, expected).value; Defines(env, shape, s, s1, v)
    decreases Binary(kind, l, r), 0
  {
    hide Sound, Append, TablesFit, Definitions, Wrap, FoldConstant, Coerce, LowerExpr, Defines, Typed, ArithOpcode, ConstantOperand, ConstantAllowed;
    ExprSound(env, shape, s, l, VoidType);
    var (s1, a) := LowerExpr(s, env, l, VoidType).value;
    DefinesKnown(env, shape, s, s1, a);
    if ConstantOperand(kind).Some? {
      ConstantSound(env, shape, s, s1, kind, a, FoldConstant(r).value, expected);
    } else {
      ExprSound(env, shape, s1, r, VoidType);
      var (s2, b) := LowerExpr(s1, env, r, VoidType).value;
      ArithSound(env, shape, s, s1, a, s2, b, kind, expected);
    }
  }

  lemma FinishSound(
    env: KernelEnv, shape: Shape, s: LowerState, s2: LowerState, b: LowerValue, s3: LowerState, v: LowerValue, expected: IrType)
    requires Defines(env, shape, s, s2, b) && Defines(env, shape, s2, s3, v) && Coerce(s3, v, expected).Success?
    ensures Defines(env, shape, s, Coerce(s3, v, expected).value.0, Coerce(s3, v, expected).value.1)
  {
    hide Sound, Coerce;
    CoerceSound(env, shape, s3, v, expected);
    var (s4, w) := Coerce(s3, v, expected).value;
    DefinesAfter(env, shape, s, s2, b, s3, v);
    DefinesAfter(env, shape, s, s3, v, s4, w);
  }

  lemma AtomicSound(env: KernelEnv, shape: Shape, s: LowerState, reduction: Reduction)
    requires env.reduction == Some(reduction)
    requires Sound(env, shape, s) && TablesFit(env, shape) && LowerAtomic(s, env, reduction).Success?
    ensures var s1 := LowerAtomic(s, env, reduction).value; Sound(env, shape, s1) && s.code <= s1.code
  {
    hide LowerExpr, Flow, Definitions, ValidCode;
    ExprSound(env, shape, s, reduction.mapped, I32);
    var (s1, v) := LowerExpr(s, env, reduction.mapped, I32).value;
    AppendSound(env, shape, s1, AtomicAdd(reduction.entry.value, v.value));
  }

  lemma StoreSound(env: KernelEnv, shape: Shape, s: LowerState, base: Expr, index: Expr, rhs: Expr)
    requires Sound(env, shape, s) && TablesFit(env, shape) && LowerStore(s, env, base, index, rhs).Success?
    ensures var s1 := LowerStore(s, env, base, index, rhs).value; Sound(env, shape, s1) && s.code <= s1.code
  {
    hide LowerExpr, LowerIndex, Flow, Definitions, ValidCode;
    var symbol := TermSymbol(base).value;
    var b := CatalogBuffer(env.buffers, symbol).value;
    CatalogMember(env.buffers, symbol);
    IndexSound(env, shape, s, index);
    var (s1, at) := LowerIndex(s, env, index).value;
    ExprSound(env, shape, s1, rhs, b.elem);
    var (s2, v) := LowerExpr(s1, env, rhs, b.elem).value;
    AppendSound(env, shape, s2, Store(b.binding, at.value, v.value));
  }

  lemma AssignSound(env: KernelEnv, shape: Shape, s: LowerState, name: string, rhs: Expr)
    requires Sound(env, shape, s) && TablesFit(env, shape) && LowerAssign(s, env, name, rhs).Success?
    ensures var s1 := LowerAssign(s, env, name, rhs).value; Sound(env, shape, s1) && s.code <= s1.code
  {
    hide LowerExpr, Flow, Definitions, ValidCode;
    ExprSound(env, shape, s, rhs, LocalType(FindLocal(env.locals, name).value));
  }

  lemma StatementSound(env: KernelEnv, shape: Shape, s: LowerState, stmt: Stmt)
    requires Sound(env, shape, s) && TablesFit(env, shape) && LowerStatement(s, env, stmt).Success?
    ensures Sound(env, shape, LowerStatement(s, env, stmt).value)
    ensures s.code <= LowerStatement(s, env, stmt).value.code
  {
    hide LowerAtomic, LowerStore, LowerAssign, Sound, TablesFit;
    if UpdatesAccumulator(env, stmt.lhs) {
      AtomicSound(env, shape, s, env.reduction.value);
    } else {
      match stmt.lhs
      case Subscript(base, index) => StoreSound(env, shape, s, base, index, stmt.rhs);
      case TermExpr(SymbolTerm(name)) => AssignSound(env, shape, s, name, stmt.rhs);
    }
  }

  lemma {:induction false} BodySound(env: KernelEnv, shape: Shape, body: seq<Stmt>)
    requires TablesFit(env, shape) && LowerBody(env, body).Success?
    ensures Sound(env, shape, LowerBody(env, body).value)
    decreases |body|
  {
    if body != [] {
      hide Sound, LowerStatement, TablesFit;
      BodySound(env, shape, body[..|body| - 1]);
      StatementSound(env, shape, LowerBody(env, body[..|body| - 1]).value, body[|body| - 1]);
    }
  }

  // The validator accepts every lowered kernel, so compilation never stops
  // with "failed validation"; each kernel adds only into its own entry, loads
  // only entries of earlier kernels, and its consumer bits are exactly the
  // entries it loads.
  lemma LoweredKernelIsValid(env: KernelEnv, shape: Shape, body: seq<Stmt>)
    requires TablesFit(env, shape) && LowerBody(env, body).Success?
    ensures var s := LowerBody(env, body).value;
      ValidKernel(shape, s.code, |s.types|) && Flow(env, s.code, s.consumed)
  {
    BodySound(env, shape, body);
  }

  // ------------------------------------------------------------------
  // The whole region
  // ------------------------------------------------------------------

  datatype Kernel = Kernel(env: KernelEnv, body: seq<Stmt>)

  function CodeOf(k: Kernel): seq<Instr> {
    match LowerBody(k.env, k.body)
    case Success(s) => s.code
    case Failure(_) => []
  }

  // The consumer mask of an entry after every kernel is lowered: one bit a
  // kernel.
  function ConsumerMask(kernels: seq<Kernel>, entry: nat): set<nat> {
    set k: nat | k < |kernels| && LowerBody(kernels[k].env, kernels[k].body).Success?
      && entry in LowerBody(kernels[k].env, kernels[k].body).value.consumed
  }

  ghost predicate RegionTables(kernels: seq<Kernel>, shape: Shape, results: seq<ScalarResult>) {
    forall k :: 0 <= k < |kernels| ==>
      && TablesFit(kernels[k].env, shape)
      && kernels[k].env.kernelIndex == k && kernels[k].env.results == results
      && LowerBody(kernels[k].env, kernels[k].body).Success?
      && (kernels[k].env.reduction.Some? ==>
           var e := kernels[k].env.reduction.value.entry;
           e.Some? && e.value < |results| ==> results[e.value].producer == k)
  }

  // Data flows between kernels through reductions only forwards: an entry is
  // written only by its producer, read only by later kernels, and bit k of
  // its mask is set exactly when kernel k loads it.
  lemma ReductionFlow(kernels: seq<Kernel>, shape: Shape, results: seq<ScalarResult>, k: nat, e: nat)
    requires RegionTables(kernels, shape, results) && k < |kernels| && e < |results|
    ensures k in ConsumerMask(kernels, e) <==> LoadResult(e) in CodeOf(kernels[k])
    ensures k in ConsumerMask(kernels, e) ==> results[e].producer < k
    ensures forall i :: i in CodeOf(kernels[k]) && i.AtomicAdd? && i.entry == e ==> results[e].producer == k
  {
    hide LowerBody;
    LoweredKernelIsValid(kernels[k].env, shape, kernels[k].body);
  }
}
