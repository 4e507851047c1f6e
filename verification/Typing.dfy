// Which bodies the kernel lowerer accepts, as a typing of the source: every
// name means one immutable scalar, earlier result or assigned local, operand
// types agree, and constants and indices have the admitted form.  Lowering
// refuses a typed body for its size alone and any other for the first thing
// that has no type, and what it emits names nothing but what the typing found.

module Typing {
  import opened Words
  import opened Hir
  import opened AccelIr
  import opened Lowering

  // ------------------------------------------------------------------
  // What a name means
  // ------------------------------------------------------------------

  ghost predicate ScalarNamed(scalars: seq<Scalar>, k: nat, name: string) {
    k < |scalars| && scalars[k].name == name && forall q :: 0 <= q < k ==> scalars[q].name != name
  }

  ghost predicate ResultNamed(env: KernelEnv, k: nat, name: string) {
    && k < |env.results| && env.results[k].name == name && env.results[k].producer < env.kernelIndex
    && forall q :: 0 <= q < k ==> env.results[q].name != name || env.results[q].producer >= env.kernelIndex
  }

  ghost predicate LocalNamed(env: KernelEnv, k: nat, name: string) {
    k < |env.locals| && env.locals[k].symbol == name && forall q :: 0 <= q < k ==> env.locals[q].symbol != name
  }

  ghost predicate BufferNamed(env: KernelEnv, k: nat, name: string) {
    k < |env.buffers| && env.buffers[k].symbol == name && forall q :: 0 <= q < k ==> env.buffers[q].symbol != name
  }

  // The types of the locals assigned so far, by local index.
  type Types = map<int, IrType>

  // A type, or why there is none.
  type Typed = Status<IrType>

  ghost function NameType(env: KernelEnv, types: Types, name: string): Typed {
    if name == env.counter then Decline(Expression)
    else if exists k: nat :: ScalarNamed(env.scalars, k, name) then
      var k: nat :| ScalarNamed(env.scalars, k, name);
      if env.scalars[k].reassigned then Decline(Expression) else Success(env.scalars[k].ty)
    else if exists k: nat :: ResultNamed(env, k, name) then Success(I32)
    else if exists k: nat :: LocalNamed(env, k, name) then
      var k: nat :| LocalNamed(env, k, name);
      if 0 <= env.locals[k].index < 256 && env.locals[k].index in types then Success(types[env.locals[k].index])
      else Decline(Expression)
    else Decline(Expression)
  }

  // An int parameter the function never assigns.
  ghost predicate IntParameter(scalars: seq<Scalar>, name: string) {
    exists k: nat :: ScalarNamed(scalars, k, name) && scalars[k].ty == I32 && !scalars[k].reassigned
  }

  ghost predicate StartTyped(env: KernelEnv) {
    match FoldConstant(env.start)
    case Some(c) => 0 <= c <= 0x7FFF_FFFF
    case None => TermSymbol(StripPar(env.start)).Some? && IntParameter(env.scalars, TermSymbol(StripPar(env.start)).value)
  }

  ghost predicate IndexTyped(env: KernelEnv, index: Expr) {
    var affine := NormalizeIndex(index, env.counter);
    && affine.kind == CounterOffset && StartTyped(env)
    && (affine.symbol.Some? ==> IntParameter(env.scalars, affine.symbol.value))
  }

  // The bound buffer a subscript's base names.
  ghost function BufferAt(env: KernelEnv, base: Expr): Status<Buffer> {
    match TermSymbol(base)
    case None => Decline(Expression)
    case Some(name) =>
      if exists k: nat :: BufferNamed(env, k, name) then
        var k: nat :| BufferNamed(env, k, name);
        if env.buffers[k].binding >= 0 then Success(env.buffers[k]) else Status.Failure(HardError)
      else Decline(Expression)
  }

  // ------------------------------------------------------------------
  // Types of expressions
  // ------------------------------------------------------------------

  predicate Arithmetic(t: IrType) { t == I32 || t == F32 }

  // The operands of one operation; a constant right operand is not typed.
  function BinaryType(kind: BinaryKind, a: Typed, b: Typed, c: Option<int>): Typed {
    match kind
    case Lt | Lte | Gt | Gte | Eq | Neq =>
      if a.Failure? then a else if b.Failure? then b
      else if a == b && Arithmetic(a.value) then Success(BoolType) else Decline(Expression)
    case Plus | Minus | Mul =>
      if a.Failure? then a else if b.Failure? then b
      else if a == b && Arithmetic(a.value) then a else Decline(Expression)
    case And | Or | Xor =>
      if a.Failure? then a else if b.Failure? then b
      else if a == b == Success(I32) then a else Decline(Expression)
    case Div | Mod =>
      if a.Failure? then a
      else if a == Success(I32) && c.Some? && 0 < c.value <= 0x7FFF_FFFF then a else Decline(Expression)
    case Shl | Shr =>
      if a.Failure? then a
      else if a == Success(I32) && c.Some? && 0 <= c.value <= 31 then a else Decline(Expression)
    case _ => Decline(Expression)
  }

  ghost function TypeOf(env: KernelEnv, types: Types, e: Expr): Typed {
    match e
    case TermExpr(IntTerm(_)) => Success(I32)
    case TermExpr(FloatTerm(_)) => Success(F32)
    case TermExpr(SymbolTerm(name)) => NameType(env, types, name)
    case TermExpr(NullTerm) => Status.Failure(HardError)
    case Unary(Par, x) => TypeOf(env, types, x)
    case Unary(Neg, x) =>
      var t := TypeOf(env, types, x);
      if t.Failure? || t == Success(I32) then t else Decline(Expression)
    case Subscript(base, index) =>
      if BufferAt(env, base).Failure? then Status.Failure(BufferAt(env, base).error)
      else if IndexTyped(env, index) then Success(BufferAt(env, base).value.elem) else Decline(Range)
    case Binary(kind, l, r) => BinaryType(kind, TypeOf(env, types, l), TypeOf(env, types, r), FoldConstant(r))
    case _ => Decline(Expression)
  }

  // Where a type is expected only a Boolean converts, to an int.
  function Coerced(t: Typed, expected: IrType): Typed {
    if t.Failure? || expected == VoidType || t == Success(expected) then t
    else if t == Success(BoolType) && expected == I32 then Success(I32)
    else Decline(Expression)
  }

  function Size(e: Expr): nat {
    match e
    case Unary(_, x) => 1 + Size(x)
    case Binary(_, l, r) => 1 + Size(l) + Size(r)
    case _ => 1
  }

  // ------------------------------------------------------------------
  // Statements and bodies
  // ------------------------------------------------------------------

  function StoredType(local: Local): IrType {
    if local.declared == I32 || local.declared == F32 then local.declared else local.proven
  }

  predicate Accumulates(env: KernelEnv, stmt: Stmt) {
    env.reduction.Some? && stmt.lhs == TermExpr(SymbolTerm(env.reduction.value.accumulator))
  }

  // The types after a statement, or why it has none.
  ghost function StmtTypes(env: KernelEnv, types: Types, stmt: Stmt): Status<Types> {
    if Accumulates(env, stmt) then
      var r := env.reduction.value;
      if r.entry.None? then Status.Failure(HardError)
      else
        var t := Coerced(TypeOf(env, types, r.mapped), I32);
        if t.Failure? then Status.Failure(t.error)
        else if r.entry.value < |env.results| then Success(types) else Status.Failure(HardError)
    else match stmt.lhs
      case Subscript(base, index) =>
        if BufferAt(env, base).Failure? then Status.Failure(BufferAt(env, base).error)
        else if !IndexTyped(env, index) then Decline(Range)
        else
          var t := Coerced(TypeOf(env, types, stmt.rhs), BufferAt(env, base).value.elem);
          if t.Failure? then Status.Failure(t.error) else Success(types)
      case TermExpr(SymbolTerm(name)) =>
        if name == "$return" then Decline(ControlFlow)
        else if exists k: nat :: LocalNamed(env, k, name) then
          var k: nat :| LocalNamed(env, k, name);
          AssignTypes(env, types, env.locals[k], stmt.rhs)
        else Decline(Expression)
      case _ => Decline(Expression)
  }

  ghost function AssignTypes(env: KernelEnv, types: Types, local: Local, rhs: Expr): Status<Types> {
    if local.isParameter || local.isLoopCounter then Decline(NotDoall)
    else if local.index < 0 || local.index >= 256 then Decline(Limit)
    else if StoredType(local) != I32 && StoredType(local) != F32 then Decline(Expression)
    else
      var t := Coerced(TypeOf(env, types, rhs), StoredType(local));
      if t.Failure? then Status.Failure(t.error) else Success(types[local.index := StoredType(local)])
  }

  ghost function BodyTypes(env: KernelEnv, body: seq<Stmt>): Status<Types>
    decreases |body|
  {
    if body == [] then Success(map[])
    else match BodyTypes(env, body[..|body| - 1])
      case Failure(e) => Status.Failure(e)
      case Success(types) => StmtTypes(env, types, body[|body| - 1])
  }

  function StmtSize(env: KernelEnv, stmt: Stmt): nat {
    1 + Size(if Accumulates(env, stmt) then env.reduction.value.mapped else stmt.rhs)
  }

  function BodySize(env: KernelEnv, body: seq<Stmt>): nat {
    if body == [] then 0 else BodySize(env, body[..|body| - 1]) + StmtSize(env, body[|body| - 1])
  }

  // ------------------------------------------------------------------
  // Where emitted instructions come from
  // ------------------------------------------------------------------

  // A uniform reads a parameter the function never assigns, a load or store
  // touches a bound catalog buffer, a result load an earlier kernel's entry
  // and an atomic add the kernel's own.
  ghost predicate Origin(env: KernelEnv, i: Instr) {
    match i
    case Uniform(t, b) => b < |env.scalars| && !env.scalars[b].reassigned && env.scalars[b].ty == t
    case Load(t, b, _) => exists k :: 0 <= k < |env.buffers| && env.buffers[k].binding == b && env.buffers[k].elem == t
    case Store(b, _, _) => exists k :: 0 <= k < |env.buffers| && env.buffers[k].binding == b
    case LoadResult(e) => e < |env.results| && env.results[e].producer < env.kernelIndex
    case AtomicAdd(e, _) => env.reduction.Some? && env.reduction.value.entry == Some(e) && e < |env.results|
    case _ => true
  }

  ghost predicate Fine(env: KernelEnv, s: LowerState) {
    |s.types| <= |s.code| && forall i :: 0 <= i < |s.code| ==> Origin(env, s.code[i])
  }

  ghost function LocalTypes(s: LowerState): Types { map i | i in s.locals :: s.locals[i].ty }

  // A step that emits at most n instructions succeeds with the type, or fails
  // as there is none or because the instructions may not fit.
  ghost predicate Gives(env: KernelEnv, s: LowerState, r: Lowered, t: Typed, n: nat) {
    match r
    case Success((s1, v)) => t == Success(v.ty) && Fine(env, s1) && |s1.code| <= |s.code| + n && s1.locals == s.locals
    case Failure(e) => t == Status.Failure(e) || (e == Declined(Limit) && |s.code| + n > 1024)
  }

  lemma AppendGives(env: KernelEnv, s: LowerState, i: Instr)
    requires Fine(env, s) && Origin(env, i)
    ensures Gives(env, s, Append(s, i), Success(ResultType(i)), 1)
  {
  }

  // ------------------------------------------------------------------
  // Tables
  // ------------------------------------------------------------------

  lemma {:induction false} ScalarFoundFrom(scalars: seq<Scalar>, name: string, from: nat)
    requires from <= |scalars|
    ensures match ScalarIndexFrom(scalars, name, from)
      case Some(k) => from <= k < |scalars| && scalars[k].name == name && forall q :: from <= q < k ==> scalars[q].name != name
      case None => forall q :: from <= q < |scalars| ==> scalars[q].name != name
    decreases |scalars| - from
  {
    if from < |scalars| && scalars[from].name != name {
      ScalarFoundFrom(scalars, name, from + 1);
    }
  }

  lemma ScalarFound(scalars: seq<Scalar>, name: string)
    ensures ScalarIndex(scalars, name).None? ==> forall k: nat :: !ScalarNamed(scalars, k, name)
    ensures ScalarIndex(scalars, name).Some? ==>
      forall k: nat :: ScalarNamed(scalars, k, name) <==> k == ScalarIndex(scalars, name).value
  {
    ScalarFoundFrom(scalars, name, 0);
  }

  lemma {:induction false} ResultFound(env: KernelEnv, name: string, from: nat)
    requires from <= |env.results|
    requires forall q :: 0 <= q < from ==> env.results[q].name != name || env.results[q].producer >= env.kernelIndex
    ensures (exists k: nat :: ResultNamed(env, k, name)) <==> ResultIndex(env, name, from).Some?
    decreases |env.results| - from
  {
    if from < |env.results| {
      if env.results[from].producer < env.kernelIndex && env.results[from].name == name {
        assert ResultNamed(env, from, name);
      } else {
        ResultFound(env, name, from + 1);
      }
    }
  }

  lemma {:induction false} LocalFoundFrom(locals: seq<Local>, name: string) returns (k: nat)
    ensures FindLocal(locals, name).None? <==> forall q :: 0 <= q < |locals| ==> locals[q].symbol != name
    ensures FindLocal(locals, name).Some? ==>
      k < |locals| && FindLocal(locals, name).value == locals[k] && forall q :: 0 <= q < k ==> locals[q].symbol != name
  {
    k := 0;
    if locals != [] && locals[0].symbol != name {
      k := LocalFoundFrom(locals[1..], name);
      k := k + 1;
      assert forall q :: 0 < q < |locals| ==> locals[1..][q - 1] == locals[q];
    }
  }

  lemma LocalFound(env: KernelEnv, name: string)
    ensures FindLocal(env.locals, name).None? <==> forall k: nat :: !LocalNamed(env, k, name)
    ensures forall k: nat :: LocalNamed(env, k, name) ==> FindLocal(env.locals, name) == Some(env.locals[k])
  {
    var p := LocalFoundFrom(env.locals, name);
    if FindLocal(env.locals, name).Some? {
      assert LocalNamed(env, p, name);
    }
  }

  lemma {:induction false} BufferFoundFrom(buffers: seq<Buffer>, name: string) returns (k: nat)
    ensures CatalogBuffer(buffers, name).None? <==> forall q :: 0 <= q < |buffers| ==> buffers[q].symbol != name
    ensures CatalogBuffer(buffers, name).Some? ==>
      k < |buffers| && CatalogBuffer(buffers, name).value == buffers[k] && buffers[k].symbol == name
      && forall q :: 0 <= q < k ==> buffers[q].symbol != name
  {
    k := 0;
    if buffers != [] && buffers[0].symbol != name {
      k := BufferFoundFrom(buffers[1..], name);
      k := k + 1;
      assert forall q :: 0 < q < |buffers| ==> buffers[1..][q - 1] == buffers[q];
    }
  }

  lemma BufferFound(env: KernelEnv, base: Expr)
    ensures BufferAt(env, base) ==
      if TermSymbol(base).None? || CatalogBuffer(env.buffers, TermSymbol(base).value).None? then Decline(Expression)
      else if CatalogBuffer(env.buffers, TermSymbol(base).value).value.binding < 0 then Status.Failure(HardError)
      else Success(CatalogBuffer(env.buffers, TermSymbol(base).value).value)
    ensures BufferAt(env, base).Success? ==>
      exists k :: 0 <= k < |env.buffers| && env.buffers[k] == BufferAt(env, base).value
  {
    if TermSymbol(base).Some? {
      var name := TermSymbol(base).value;
      var p := BufferFoundFrom(env.buffers, name);
      if CatalogBuffer(env.buffers, name).Some? {
        assert BufferNamed(env, p, name);
        assert forall k: nat :: BufferNamed(env, k, name) ==> k == p;
      }
    }
  }

  // ------------------------------------------------------------------
  // Names and indices
  // ------------------------------------------------------------------

  lemma UniformGives(env: KernelEnv, s: LowerState, k: nat)
    requires Fine(env, s) && k < |env.scalars| && !env.scalars[k].reassigned
    ensures Gives(env, s, LowerUniform(s, env, k), Success(env.scalars[k].ty), 1)
  {
    hide Append;
    AppendGives(env, s, Uniform(env.scalars[k].ty, k));
  }

  lemma GlobalIndexGives(env: KernelEnv, s: LowerState)
    requires Fine(env, s)
    ensures Gives(env, s, LowerGlobalIndex(s), Success(IndexType), 1)
  {
    hide Append;
    AppendGives(env, s, GlobalIndex);
  }

  lemma LocalGives(env: KernelEnv, s: LowerState, name: string)
    requires Fine(env, s) && name != env.counter
    requires forall k: nat :: !ScalarNamed(env.scalars, k, name)
    requires forall k: nat :: !ResultNamed(env, k, name)
    requires ScalarIndex(env.scalars, name).None? && ResultIndex(env, name, 0).None?
    ensures Gives(env, s, LowerSymbol(s, env, name), NameType(env, LocalTypes(s), name), 1)
  {
    hide ScalarIndex, ResultIndex, FindLocal, ScalarNamed, ResultNamed, LocalNamed;
    LocalFound(env, name);
  }

  lemma SymbolGives(env: KernelEnv, s: LowerState, name: string)
    requires Fine(env, s)
    ensures Gives(env, s, LowerSymbol(s, env, name), NameType(env, LocalTypes(s), name), 1)
  {
    hide ScalarIndex, ResultIndex, Append, Fine, ScalarNamed, ResultNamed, LowerUniform;
    ScalarFound(env.scalars, name);
    ResultFound(env, name, 0);
    if name != env.counter {
      match ScalarIndex(env.scalars, name)
      case Some(k) =>
        assert ScalarNamed(env.scalars, k, name);
        if !env.scalars[k].reassigned { UniformGives(env, s, k); }
      case None =>
        match ResultIndex(env, name, 0)
        case Some(entry) => ResultGives(env, s, entry);
        case None => LocalGives(env, s, name);
    }
  }

  lemma ResultGives(env: KernelEnv, s: LowerState, entry: nat)
    requires Fine(env, s) && entry < |env.results| && env.results[entry].producer < env.kernelIndex
    ensures Gives(env, s, LowerResult(s, entry), Success(I32), 1)
  {
    hide Append;
    AppendGives(env, s, LoadResult(entry));
  }

  lemma AdjustGives(env: KernelEnv, s: LowerState, base: LowerValue, adjustment: LowerValue, subtract: bool)
    requires Fine(env, s) && base.ty.IndexType? && adjustment.ty.I32?
    ensures Gives(env, s, AdjustIndex(s, base, adjustment, subtract), Success(IndexType), 1)
  {
    hide Append;
    AppendGives(env, s, BinaryInstr(if subtract then SubOp else AddOp, IndexType, base.value, adjustment.value));
  }

  lemma ConstantGives(env: KernelEnv, s: LowerState, base: LowerValue, constant: int)
    requires Fine(env, s) && base.ty.IndexType?
    ensures Gives(env, s, AdjustConstant(s, base, constant), Success(IndexType), 2)
  {
    hide Append, Wrap, AdjustIndex, Fine;
    if constant != 0 {
      AppendGives(env, s, ConstI32(Wrap(constant)));
      if Append(s, ConstI32(Wrap(constant))).Success? {
        var (s1, c) := Append(s, ConstI32(Wrap(constant))).value;
        AdjustGives(env, s1, base, c, false);
      }
    }
  }

  lemma ScalarGives(env: KernelEnv, s: LowerState, base: LowerValue, name: Option<string>, subtract: bool)
    requires Fine(env, s) && base.ty.IndexType?
    ensures Gives(env, s, AdjustScalar(s, env, base, name, subtract),
      if name.Some? && IntParameter(env.scalars, name.value) then Success(IndexType) else Decline(Range), 2)
  {
    hide LowerUniform, AdjustIndex, Fine, ScalarIndex, ScalarNamed;
    if name.Some? {
      ScalarFound(env.scalars, name.value);
      if IntParameter(env.scalars, name.value) {
        var k := ScalarIndex(env.scalars, name.value).value;
        UniformGives(env, s, k);
        if LowerUniform(s, env, k).Success? {
          var (s1, u) := LowerUniform(s, env, k).value;
          AdjustGives(env, s1, base, u, subtract);
        }
      }
    }
  }

  lemma StartGives(env: KernelEnv, s: LowerState, base: LowerValue)
    requires Fine(env, s) && base.ty.IndexType?
    ensures Gives(env, s, LowerStart(s, env, base), if StartTyped(env) then Success(IndexType) else Decline(Range), 2)
  {
    hide AdjustConstant, AdjustScalar, Fine, IntParameter;
    match FoldConstant(env.start)
    case Some(c) => ConstantGives(env, s, base, c);
    case None => ScalarGives(env, s, base, TermSymbol(StripPar(env.start)), false);
  }

  lemma IndexGives(env: KernelEnv, s: LowerState, index: Expr)
    requires Fine(env, s)
    ensures Gives(env, s, LowerIndex(s, env, index), if IndexTyped(env, index) then Success(IndexType) else Decline(Range), 7)
  {
    hide LowerGlobalIndex, LowerStart, AdjustConstant, AdjustScalar, Fine, IntParameter, StartTyped, NormalizeIndex;
    var affine := NormalizeIndex(index, env.counter);
    if affine.kind.CounterOffset? {
      GlobalIndexGives(env, s);
      if LowerGlobalIndex(s).Success? {
        var (s1, lane) := LowerGlobalIndex(s).value;
        StartGives(env, s1, lane);
        if LowerStart(s1, env, lane).Success? {
          var (s2, counter) := LowerStart(s1, env, lane).value;
          OffsetGives(env, s2, counter, affine);
        }
      }
    }
  }

  // What LowerIndex adds after the start.
  lemma OffsetGives(env: KernelEnv, s: LowerState, counter: LowerValue, affine: Affine)
    requires Fine(env, s) && counter.ty.IndexType?
    ensures
      if affine.symbol.None? then Gives(env, s, AdjustConstant(s, counter, affine.offset), Success(IndexType), 4)
      else match AdjustScalar(s, env, counter, affine.symbol, affine.sign < 0)
        case Success((s1, shifted)) =>
          IntParameter(env.scalars, affine.symbol.value) && Gives(env, s, AdjustConstant(s1, shifted, affine.offset), Success(IndexType), 4)
        case Failure(e) => (e == Declined(Range) && !IntParameter(env.scalars, affine.symbol.value)) || (e == Declined(Limit) && |s.code| + 4 > 1024)
  {
    hide AdjustConstant, AdjustScalar, Fine, IntParameter;
    if affine.symbol.None? {
      ConstantGives(env, s, counter, affine.offset);
    } else {
      ScalarGives(env, s, counter, affine.symbol, affine.sign < 0);
      if AdjustScalar(s, env, counter, affine.symbol, affine.sign < 0).Success? {
        var (s1, shifted) := AdjustScalar(s, env, counter, affine.symbol, affine.sign < 0).value;
        ConstantGives(env, s1, shifted, affine.offset);
      }
    }
  }

  // ------------------------------------------------------------------
  // Expressions
  // ------------------------------------------------------------------

  lemma SubscriptGives(env: KernelEnv, s: LowerState, base: Expr, index: Expr)
    requires Fine(env, s)
    ensures Gives(env, s, LowerSubscript(s, env, base, index), TypeOf(env, LocalTypes(s), Subscript(base, index)), 8)
  {
    hide LowerIndex, CatalogBuffer, BufferAt, IndexTyped, Append, Fine;
    BufferFound(env, base);
    if BufferAt(env, base).Success? {
      var b := BufferAt(env, base).value;
      IndexGives(env, s, index);
      if LowerIndex(s, env, index).Success? {
        var (s1, at) := LowerIndex(s, env, index).value;
        AppendGives(env, s1, Load(b.elem, b.binding, at.value));
      }
    }
  }

  lemma CoerceGives(env: KernelEnv, s: LowerState, v: LowerValue, expected: IrType)
    requires Fine(env, s)
    ensures Gives(env, s, Coerce(s, v, expected), Coerced(Success(v.ty), expected), 3)
  {
    hide Append, Fine;
    if v.ty.BoolType? && expected.I32? {
      AppendGives(env, s, ConstI32(1));
      if Append(s, ConstI32(1)).Success? {
        var (s1, one) := Append(s, ConstI32(1)).value;
        AppendGives(env, s1, ConstI32(0));
        if Append(s1, ConstI32(0)).Success? {
          var (s2, zero) := Append(s1, ConstI32(0)).value;
          AppendGives(env, s2, SelectInstr(I32, v.value, one.value, zero.value));
        }
      }
    }
  }

  // A value of the type t, coerced to what is expected.
  lemma ThenCoerce(env: KernelEnv, s: LowerState, r: Lowered, t: Typed, n: nat, expected: IrType)
    requires Gives(env, s, r, t, n)
    ensures r.Success? ==> Gives(env, s, Coerce(r.value.0, r.value.1, expected), Coerced(t, expected), n + 3)
    ensures r.Failure? ==> Gives(env, s, r, Coerced(t, expected), n + 3)
  {
    hide Fine, Coerce;
    if r.Success? {
      CoerceGives(env, r.value.0, r.value.1, expected);
    }
  }

  // Coercing again what is already coerced emits nothing new.
  lemma ThenCoerceAgain(env: KernelEnv, s: LowerState, r: Lowered, t: Typed, n: nat, expected: IrType)
    requires Gives(env, s, r, Coerced(t, expected), n)
    ensures r.Success? ==> Gives(env, s, Coerce(r.value.0, r.value.1, expected), Coerced(t, expected), n + 3)
    ensures r.Failure? ==> Gives(env, s, r, Coerced(t, expected), n + 3)
  {
    hide Fine, Coerce;
    CoercedTwice(t, expected);
    ThenCoerce(env, s, r, Coerced(t, expected), n, expected);
  }

  lemma NegGives(env: KernelEnv, s: LowerState, v: LowerValue)
    requires Fine(env, s)
    ensures match Append(s, ConstI32(0))
      case Success((s1, zero)) => Gives(env, s, Append(s1, BinaryInstr(SubOp, I32, zero.value, v.value)), Success(I32), 2)
      case Failure(e) => e == Declined(Limit) && |s.code| + 2 > 1024
  {
    hide Append, Fine;
    AppendGives(env, s, ConstI32(0));
    if Append(s, ConstI32(0)).Success? {
      var (s1, zero) := Append(s, ConstI32(0)).value;
      AppendGives(env, s1, BinaryInstr(SubOp, I32, zero.value, v.value));
    }
  }

  lemma ByConstantGives(env: KernelEnv, s: LowerState, kind: BinaryKind, a: LowerValue, b: Typed, r: Expr)
    requires Fine(env, s) && ConstantOperand(kind).Some?
    ensures Gives(env, s, LowerByConstant(s, kind, a, r), BinaryType(kind, Success(a.ty), b, FoldConstant(r)), 2)
  {
    hide Append, Fine, FoldConstant, Wrap;
    if a.ty.I32? && FoldConstant(r).Some? && ConstantAllowed(kind, FoldConstant(r).value) {
      var c := ConstI32(Wrap(FoldConstant(r).value));
      AppendGives(env, s, c);
      if Append(s, c).Success? {
        var (s1, v) := Append(s, c).value;
        AppendGives(env, s1, BinaryInstr(ConstantOperand(kind).value, I32, a.value, v.value));
      }
    }
  }

  // Lowering an expression succeeds with its type, or the expression has no
  // type where one is expected, or its instructions may not fit.
  lemma {:induction false} ExprTyped(env: KernelEnv, s: LowerState, e: Expr, expected: IrType)
    requires Fine(env, s)
    ensures Gives(env, s, LowerExpr(s, env, e, expected), Coerced(TypeOf(env, LocalTypes(s), e), expected), 11 * Size(e))
    decreases e, 1
  {
    hide Fine, Append, Coerce, LowerSymbol, LowerSubscript, LowerComparison, LowerBinary, NameType, BufferAt, IndexTyped, BinaryType, Wrap,
      Coerced, ResultType;
    match e
    case TermExpr(_) => TermTyped(env, s, e, expected);
    case Unary(Par, x) => ExprTyped(env, s, x, expected);
    case Unary(Neg, x) => NegTyped(env, s, x, expected);
    case Subscript(base, index) =>
      SubscriptGives(env, s, base, index);
      ThenCoerce(env, s, LowerSubscript(s, env, base, index), TypeOf(env, LocalTypes(s), e), 8, expected);
    case Binary(kind, l, r) =>
      if CompareOpcode(kind).Some? {
        ComparisonTyped(env, s, e);
        ThenCoerce(env, s, LowerComparison(s, env, kind, l, r), TypeOf(env, LocalTypes(s), e), 11 * Size(e) - 10, expected);
      } else {
        BinaryTyped(env, s, e, expected);
        ThenCoerceAgain(env, s, LowerBinary(s, env, kind, l, r, expected), TypeOf(env, LocalTypes(s), e), 11 * Size(e) - 6, expected);
      }
    case _ => NoType(expected);
  }

  lemma TermTyped(env: KernelEnv, s: LowerState, e: Expr, expected: IrType)
    requires Fine(env, s) && e.TermExpr?
    ensures Gives(env, s, LowerExpr(s, env, e, expected), Coerced(TypeOf(env, LocalTypes(s), e), expected), 11)
  {
    hide Fine, Append, Coerce, LowerSymbol, NameType, Wrap, Coerced, ResultType;
    match e.term
    case IntTerm(i) =>
      LiteralGives(env, s, ConstI32(Wrap(i)));
      ThenCoerce(env, s, Append(s, ConstI32(Wrap(i))), Success(I32), 1, expected);
    case FloatTerm(b) =>
      LiteralGives(env, s, ConstF32(b));
      ThenCoerce(env, s, Append(s, ConstF32(b)), Success(F32), 1, expected);
    case SymbolTerm(n) =>
      SymbolGives(env, s, n);
      ThenCoerce(env, s, LowerSymbol(s, env, n), NameType(env, LocalTypes(s), n), 1, expected);
    case _ => NoType(expected);
  }

  lemma LiteralGives(env: KernelEnv, s: LowerState, i: Instr)
    requires Fine(env, s) && (i.ConstI32? || i.ConstF32?)
    ensures Gives(env, s, Append(s, i), Success(if i.ConstI32? then I32 else F32), 1)
  {
    hide Append;
    AppendGives(env, s, i);
  }

  lemma NoType(expected: IrType)
    ensures forall e :: Coerced(Status.Failure(e), expected) == Status.Failure(e)
  {
  }

  lemma CoercedTwice(t: Typed, expected: IrType)
    ensures Coerced(Coerced(t, expected), expected) == Coerced(t, expected)
  {
  }

  lemma CoercedFree(t: Typed)
    ensures Coerced(t, VoidType) == t
  {
  }

  lemma {:induction false} NegTyped(env: KernelEnv, s: LowerState, x: Expr, expected: IrType)
    requires Fine(env, s)
    ensures Gives(env, s, LowerExpr(s, env, Unary(Neg, x), expected),
      Coerced(TypeOf(env, LocalTypes(s), Unary(Neg, x)), expected), 11 * Size(Unary(Neg, x)))
    decreases Unary(Neg, x), 0
  {
    hide Fine, Append, Coerce, LowerSymbol, LowerSubscript, LowerComparison, LowerBinary, NameType, BufferAt, IndexTyped, BinaryType,
      Coerced, ResultType;
    ExprTyped(env, s, x, VoidType);
    CoercedFree(TypeOf(env, LocalTypes(s), x));
    NoType(expected);
    if LowerExpr(s, env, x, VoidType).Success? {
      var (s1, v) := LowerExpr(s, env, x, VoidType).value;
      if v.ty.I32? {
        NegGives(env, s1, v);
        if Append(s1, ConstI32(0)).Success? {
          var (s2, zero) := Append(s1, ConstI32(0)).value;
          ThenCoerce(env, s1, Append(s2, BinaryInstr(SubOp, I32, zero.value, v.value)), Success(I32), 2, expected);
        }
      }
    }
  }

  // Both operands, without any conversion.
  lemma {:induction false} ComparisonTyped(env: KernelEnv, s: LowerState, e: Expr)
    requires Fine(env, s) && e.Binary? && CompareOpcode(e.kind).Some?
    ensures Gives(env, s, LowerComparison(s, env, e.kind, e.left, e.right), TypeOf(env, LocalTypes(s), e), 11 * Size(e) - 10)
    decreases e, 0
  {
    hide Fine, Append, LowerExpr, NameType, BufferAt, IndexTyped, Coerced, FoldConstant;
    ExprTyped(env, s, e.left, VoidType);
    CoercedFree(TypeOf(env, LocalTypes(s), e.left));
    if LowerExpr(s, env, e.left, VoidType).Success? {
      var (s1, a) := LowerExpr(s, env, e.left, VoidType).value;
      assert LocalTypes(s1) == LocalTypes(s);
      ExprTyped(env, s1, e.right, VoidType);
      CoercedFree(TypeOf(env, LocalTypes(s), e.right));
      if LowerExpr(s1, env, e.right, VoidType).Success? {
        var (s2, b) := LowerExpr(s1, env, e.right, VoidType).value;
        AppendGives(env, s2, BinaryInstr(CompareOpcode(e.kind).value, BoolType, a.value, b.value));
      }
    }
  }

  lemma {:induction false} BinaryTyped(env: KernelEnv, s: LowerState, e: Expr, expected: IrType)
    requires Fine(env, s) && e.Binary? && CompareOpcode(e.kind).None?
    ensures Gives(env, s, LowerBinary(s, env, e.kind, e.left, e.right, expected),
      Coerced(TypeOf(env, LocalTypes(s), e), expected), 11 * Size(e) - 6)
    decreases e, 0
  {
    hide Fine, Append, LowerExpr, LowerByConstant, NameType, BufferAt, IndexTyped, FoldConstant, Coerce, Coerced;
    ExprTyped(env, s, e.left, VoidType);
    CoercedFree(TypeOf(env, LocalTypes(s), e.left));
    NoType(expected);
    if LowerExpr(s, env, e.left, VoidType).Success? {
      var (s1, a) := LowerExpr(s, env, e.left, VoidType).value;
      assert LocalTypes(s1) == LocalTypes(s);
      if ConstantOperand(e.kind).Some? {
        ByConstantGives(env, s1, e.kind, a, TypeOf(env, LocalTypes(s), e.right), e.right);
        ThenCoerce(env, s1, LowerByConstant(s1, e.kind, a, e.right), TypeOf(env, LocalTypes(s), e), 2, expected);
      } else if ArithOpcode(e.kind).Some? {
        ExprTyped(env, s1, e.right, VoidType);
        CoercedFree(TypeOf(env, LocalTypes(s), e.right));
        if LowerExpr(s1, env, e.right, VoidType).Success? {
          var (s2, b) := LowerExpr(s1, env, e.right, VoidType).value;
          ArithGives(env, s2, BinaryInstr(ArithOpcode(e.kind).value, a.ty, a.value, b.value), expected);
        }
      }
    }
  }

  lemma ArithGives(env: KernelEnv, s: LowerState, i: Instr, expected: IrType)
    requires Fine(env, s) && i.BinaryInstr?
    ensures match Append(s, i)
      case Success((s1, v)) => Gives(env, s, Coerce(s1, v, expected), Coerced(Success(i.binaryType), expected), 4)
      case Failure(e) => e == Declined(Limit) && |s.code| + 4 > 1024
  {
    hide Append, Fine, Coerce, Coerced;
    AppendGives(env, s, i);
    ThenCoerce(env, s, Append(s, i), Success(i.binaryType), 1, expected);
  }

  // ------------------------------------------------------------------
  // Statements
  // ------------------------------------------------------------------

  ghost predicate StmtGives(env: KernelEnv, s: LowerState, r: Status<LowerState>, types: Status<Types>, n: nat) {
    match r
    case Success(s1) => types == Success(LocalTypes(s1)) && Fine(env, s1) && |s1.code| <= |s.code| + n
    case Failure(e) => types == Status.Failure(e) || (e == Declined(Limit) && |s.code| + n > 1024)
  }

  lemma AtomicTyped(env: KernelEnv, s: LowerState, stmt: Stmt)
    requires Fine(env, s) && Accumulates(env, stmt)
    ensures StmtGives(env, s, LowerAtomic(s, env, env.reduction.value), StmtTypes(env, LocalTypes(s), stmt), 11 * StmtSize(env, stmt))
  {
    hide Fine, Append, LowerExpr, TypeOf;
    var reduction := env.reduction.value;
    if reduction.entry.Some? {
      ExprTyped(env, s, reduction.mapped, I32);
      if LowerExpr(s, env, reduction.mapped, I32).Success? {
        var (s1, v) := LowerExpr(s, env, reduction.mapped, I32).value;
        assert LocalTypes(s1) == LocalTypes(s);
        if reduction.entry.value < |env.results| {
          AppendGives(env, s1, AtomicAdd(reduction.entry.value, v.value));
        }
      }
    }
  }

  lemma StoreTyped(env: KernelEnv, s: LowerState, stmt: Stmt)
    requires Fine(env, s) && !Accumulates(env, stmt) && stmt.lhs.Subscript?
    ensures StmtGives(env, s, LowerStore(s, env, stmt.lhs.base, stmt.lhs.index, stmt.rhs),
      StmtTypes(env, LocalTypes(s), stmt), 11 * StmtSize(env, stmt))
  {
    hide Fine, Append, LowerExpr, TypeOf, LowerIndex, CatalogBuffer, BufferAt, IndexTyped, Coerced;
    BufferFound(env, stmt.lhs.base);
    if BufferAt(env, stmt.lhs.base).Success? {
      var b := BufferAt(env, stmt.lhs.base).value;
      IndexGives(env, s, stmt.lhs.index);
      if LowerIndex(s, env, stmt.lhs.index).Success? {
        var (s1, at) := LowerIndex(s, env, stmt.lhs.index).value;
        assert LocalTypes(s1) == LocalTypes(s);
        ExprTyped(env, s1, stmt.rhs, b.elem);
        if LowerExpr(s1, env, stmt.rhs, b.elem).Success? {
          var (s2, v) := LowerExpr(s1, env, stmt.rhs, b.elem).value;
          AppendGives(env, s2, Store(b.binding, at.value, v.value));
        }
      }
    }
  }

  lemma AssignTyped(env: KernelEnv, s: LowerState, stmt: Stmt)
    requires Fine(env, s) && !Accumulates(env, stmt) && TermSymbol(stmt.lhs).Some?
    ensures StmtGives(env, s, LowerAssign(s, env, TermSymbol(stmt.lhs).value, stmt.rhs),
      StmtTypes(env, LocalTypes(s), stmt), 11 * StmtSize(env, stmt))
  {
    hide Fine, Append, LowerExpr, TypeOf, FindLocal, LocalNamed;
    var name := TermSymbol(stmt.lhs).value;
    LocalFound(env, name);
    if name != "$return" && FindLocal(env.locals, name).Some? {
      var local := FindLocal(env.locals, name).value;
      var k: nat :| LocalNamed(env, k, name);
      if IsScalarType(LocalType(local)) { KeepTyped(env, s, local, stmt.rhs); }
    }
  }

  lemma KeepTyped(env: KernelEnv, s: LowerState, local: Local, rhs: Expr)
    requires Fine(env, s) && IsScalarType(LocalType(local))
    ensures match LowerExpr(s, env, rhs, LocalType(local))
      case Success((s1, v)) =>
        && Coerced(TypeOf(env, LocalTypes(s), rhs), StoredType(local)).Success?
        && LocalTypes(s1.(locals := s1.locals[local.index := v])) == LocalTypes(s)[local.index := StoredType(local)]
        && Fine(env, s1.(locals := s1.locals[local.index := v])) && |s1.code| <= |s.code| + 11 * Size(rhs)
      case Failure(e) =>
        || Coerced(TypeOf(env, LocalTypes(s), rhs), StoredType(local)) == Status.Failure(e)
        || (e == Declined(Limit) && |s.code| + 11 * Size(rhs) > 1024)
  {
    hide LowerExpr, TypeOf;
    ExprTyped(env, s, rhs, LocalType(local));
  }

  lemma StatementTyped(env: KernelEnv, s: LowerState, stmt: Stmt)
    requires Fine(env, s)
    ensures StmtGives(env, s, LowerStatement(s, env, stmt), StmtTypes(env, LocalTypes(s), stmt), 11 * StmtSize(env, stmt))
  {
    hide Fine, LowerAtomic, LowerStore, LowerAssign, StmtGives, StmtSize;
    if Accumulates(env, stmt) {
      AtomicTyped(env, s, stmt);
    } else {
      match stmt.lhs
      case Subscript(_, _) => StoreTyped(env, s, stmt);
      case TermExpr(SymbolTerm(_)) => AssignTyped(env, s, stmt);
      case _ => NoStatement(env, s, stmt);
    }
  }

  lemma NoStatement(env: KernelEnv, s: LowerState, stmt: Stmt)
    requires !Accumulates(env, stmt) && !stmt.lhs.Subscript? && TermSymbol(stmt.lhs).None?
    ensures StmtGives(env, s, LowerStatement(s, env, stmt), StmtTypes(env, LocalTypes(s), stmt), 11 * StmtSize(env, stmt))
  {
  }

  // A body lowers exactly when it is typed, unless its instructions may not
  // fit; what it lowers to comes from what the typing found.
  lemma {:induction false} BodyTyped(env: KernelEnv, body: seq<Stmt>)
    ensures match LowerBody(env, body)
      case Success(s) => BodyTypes(env, body) == Success(LocalTypes(s)) && Fine(env, s) && |s.code| <= 11 * BodySize(env, body)
      case Failure(e) => BodyTypes(env, body) == Status.Failure(e) || (e == Declined(Limit) && 11 * BodySize(env, body) > 1024)
    decreases |body|
  {
    hide StmtTypes, LowerStatement, Fine, StmtSize, LocalTypes;
    if body == [] {
      NothingEmitted(env);
    } else {
      var front, last := body[..|body| - 1], body[|body| - 1];
      BodyTyped(env, front);
      if LowerBody(env, front).Success? {
        StatementTyped(env, LowerBody(env, front).value, last);
      }
    }
  }

  lemma NothingEmitted(env: KernelEnv)
    ensures Fine(env, EMPTY) && LocalTypes(EMPTY) == map[]
  {
  }

  // ------------------------------------------------------------------
  // Reassigned parameters
  // ------------------------------------------------------------------

  // The expression uses the value of the name.
  predicate Reads(e: Expr, name: string) {
    match e
    case TermExpr(SymbolTerm(n)) => n == name
    case Unary(_, x) => Reads(x, name)
    case Binary(_, l, r) => Reads(l, name) || Reads(r, name)
    case Subscript(_, index) => Reads(index, name)
    case _ => false
  }

  lemma {:induction false} FoldReadsNothing(e: Expr, depth: nat, name: string)
    requires Fold(e, depth).Some?
    ensures !Reads(e, name)
    decreases e
  {
    match e
    case TermExpr(_) =>
    case Unary(_, x) => FoldReadsNothing(x, depth + 1, name);
    case Binary(_, l, r) =>
      FoldReadsNothing(l, depth + 1, name);
      FoldReadsNothing(r, depth + 1, name);
  }

  lemma {:induction false} StripParReads(e: Expr, name: string)
    ensures Reads(StripPar(e), name) <==> Reads(e, name)
  {
    if e.Unary? && e.unary.Par? {
      StripParReads(e.operand, name);
    }
  }

  // A counter-affine index uses the counter and its one invariant.
  lemma IndexReads(index: Expr, counter: string, name: string)
    requires NormalizeIndex(index, counter).kind == CounterOffset
    ensures Reads(index, name) ==> name == counter || NormalizeIndex(index, counter).symbol == Some(name)
  {
    StripParReads(index, name);
  }

  // The parameter is assigned somewhere, and the name means it.
  ghost predicate ReassignedName(env: KernelEnv, name: string) {
    name != env.counter && exists k: nat :: ScalarNamed(env.scalars, k, name) && env.scalars[k].reassigned
  }

  lemma NotIndexed(env: KernelEnv, name: string, used: string)
    requires ReassignedName(env, name) && IntParameter(env.scalars, used)
    ensures used != name
  {
    var k: nat :| ScalarNamed(env.scalars, k, name) && env.scalars[k].reassigned;
    var m: nat :| ScalarNamed(env.scalars, m, used) && !env.scalars[m].reassigned;
    assert used == name ==> !(k < m) && !(m < k);
  }

  lemma NotNamed(env: KernelEnv, types: Types, name: string)
    requires ReassignedName(env, name)
    ensures NameType(env, types, name).Failure?
  {
    hide ResultNamed, LocalNamed;
    var k: nat :| ScalarNamed(env.scalars, k, name) && env.scalars[k].reassigned;
    assert forall m: nat :: ScalarNamed(env.scalars, m, name) ==> m == k;
  }

  lemma IndexNeverReads(env: KernelEnv, index: Expr, name: string)
    requires ReassignedName(env, name) && IndexTyped(env, index)
    ensures !Reads(index, name)
  {
    hide IntParameter, ScalarNamed;
    IndexReads(index, env.counter, name);
    var affine := NormalizeIndex(index, env.counter);
    if affine.symbol.Some? {
      NotIndexed(env, name, affine.symbol.value);
    }
  }

  lemma {:induction false} TypedNeverReads(env: KernelEnv, types: Types, e: Expr, name: string)
    requires ReassignedName(env, name) && TypeOf(env, types, e).Success?
    ensures !Reads(e, name)
    decreases e
  {
    hide ReassignedName, NameType, IndexTyped, BufferAt;
    match e
    case TermExpr(SymbolTerm(_)) => NotNamed(env, types, name);
    case TermExpr(_) =>
    case Unary(_, x) => TypedNeverReads(env, types, x, name);
    case Subscript(_, index) => IndexNeverReads(env, index, name);
    case Binary(_, l, r) =>
      TypedNeverReads(env, types, l, name);
      if FoldConstant(r).Some? {
        FoldReadsNothing(r, 0, name);
      } else {
        TypedNeverReads(env, types, r, name);
      }
  }

  // The expressions a statement of the body lowers.
  predicate StmtReads(env: KernelEnv, stmt: Stmt, name: string) {
    if Accumulates(env, stmt) then Reads(env.reduction.value.mapped, name)
    else Reads(stmt.rhs, name) || (stmt.lhs.Subscript? && Reads(stmt.lhs.index, name))
  }

  lemma StatementNeverReads(env: KernelEnv, types: Types, stmt: Stmt, name: string)
    requires ReassignedName(env, name) && StmtTypes(env, types, stmt).Success?
    ensures !StmtReads(env, stmt, name)
  {
    hide ReassignedName, TypeOf, IndexTyped, BufferAt, LocalNamed;
    if Accumulates(env, stmt) {
      TypedNeverReads(env, types, env.reduction.value.mapped, name);
    } else {
      TypedNeverReads(env, types, stmt.rhs, name);
      if stmt.lhs.Subscript? {
        IndexNeverReads(env, stmt.lhs.index, name);
      }
    }
  }

  lemma {:induction false} BodyNeverReads(env: KernelEnv, body: seq<Stmt>, name: string, k: nat)
    requires ReassignedName(env, name) && BodyTypes(env, body).Success? && k < |body|
    ensures !StmtReads(env, body[k], name)
    decreases |body|
  {
    hide ReassignedName, StmtTypes, StmtReads;
    var front := body[..|body| - 1];
    if k < |front| {
      BodyNeverReads(env, front, name, k);
    } else {
      StatementNeverReads(env, BodyTypes(env, front).value, body[k], name);
    }
  }

  // A body that reads a parameter the function assigns somewhere is never
  // lowered, and a lowered body's uniforms are parameters it never assigns.
  lemma ReassignedNeverRead(env: KernelEnv, body: seq<Stmt>)
    requires LowerBody(env, body).Success?
    ensures forall name, k :: ReassignedName(env, name) && 0 <= k < |body| ==> !StmtReads(env, body[k], name)
    ensures forall i :: 0 <= i < |LowerBody(env, body).value.code| && LowerBody(env, body).value.code[i].Uniform? ==>
      var b := LowerBody(env, body).value.code[i].binding; b < |env.scalars| && !env.scalars[b].reassigned
  {
    hide LowerBody, BodyTypes, ReassignedName, StmtReads, BodySize, LocalTypes;
    BodyTyped(env, body);
    forall name, k | ReassignedName(env, name) && 0 <= k < |body| ensures !StmtReads(env, body[k], name) {
      BodyNeverReads(env, body, name, k);
    }
  }
}
