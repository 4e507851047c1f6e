// The kernel lowerer as an object: tables of values that are filled in place
// while the body of one loop is walked block by block.

module KernelLower {
  import opened Words
  import opened Hir
  import opened AccelIr
  import opened Lowering
  import KV = KernelValidation
  import T = Typing
  import S = Slots

  const MAX_VISITED: nat := 1024

  type Id = nat

  // A block of the loop body.  inBody: a BASIC block whose parent is the
  // loop; leaves: it carries a return, break or continue edge.
  datatype BodyBlock = BodyBlock(inBody: bool, leaves: bool, stmts: seq<Stmt>, stop: bool, succ: Option<Id>)

  type Graph = map<Id, BodyBlock>

  // ------------------------------------------------------------------
  // Chains of blocks
  // ------------------------------------------------------------------

  ghost predicate Closed(g: Graph) {
    forall id :: id in g && g[id].succ.Some? ==> g[id].succ.value in g
  }

  // path runs from the first block through successors, none of which ends
  // the body.
  ghost predicate Straight(g: Graph, inner: Option<Id>, path: seq<Id>) {
    && (forall i :: 0 <= i < |path| ==> path[i] in g && g[path[i]].inBody && !g[path[i]].leaves)
    && (path != [] ==> inner == Some(path[0]))
    && (forall i :: 0 <= i < |path| - 1 ==> !g[path[i]].stop && g[path[i]].succ == Some(path[i + 1]))
  }

  // A straight-line loop body: its last block, and no other, ends it with
  // the edge back to the first.
  ghost predicate Chain(g: Graph, inner: Option<Id>, path: seq<Id>) {
    && Straight(g, inner, path) && path != []
    && g[path[|path| - 1]].stop && g[path[|path| - 1]].succ == inner
  }

  function BodyOf(g: Graph, path: seq<Id>): seq<Stmt>
    requires forall i :: 0 <= i < |path| ==> path[i] in g
  {
    if path == [] then [] else BodyOf(g, path[..|path| - 1]) + g[path[|path| - 1]].stmts
  }

  // A body that lowers to a kernel: one chain of straight blocks, within the
  // block limit, whose statements all lower.
  ghost predicate Lowerable(g: Graph, env: KernelEnv, inner: Option<Id>, path: seq<Id>) {
    Chain(g, inner, path) && |path| <= MAX_VISITED && LowerBody(env, BodyOf(g, path)).Success?
  }

  class KernelLowerer {
    var code: seq<Instr>
    var types: seq<IrType>
    var hasGlobalIndex: bool
    var globalIndex: nat
    const hasUniform: array<bool>
    const uniformValue: array<nat>
    const hasLocal: array<bool>
    const localValue: array<LowerValue>
    var consumed: set<nat>

    ghost predicate Valid() {
      && hasUniform.Length == uniformValue.Length == S.PARAM_SIZE
      && hasLocal.Length == localValue.Length == MAX_LOCALS
    }

    ghost function Uniforms(): map<nat, nat>
      requires Valid()
      reads hasUniform, uniformValue
    {
      map i: nat | i < S.PARAM_SIZE && hasUniform[i] :: uniformValue[i]
    }

    ghost function Locals(): map<int, LowerValue>
      requires Valid()
      reads hasLocal, localValue
    {
      map i: int | 0 <= i < MAX_LOCALS && hasLocal[i] :: localValue[i]
    }

    ghost function State(): LowerState
      requires Valid()
      reads this, hasUniform, uniformValue, hasLocal, localValue
    {
      LowerState(code, types, if hasGlobalIndex then Some(globalIndex) else None, Uniforms(), Locals(), consumed)
    }

    // The result and the new state are the ones specified.
    ghost predicate Agrees(r: Status<LowerValue>, expected: Lowered)
      requires Valid()
      reads this, hasUniform, uniformValue, hasLocal, localValue
    {
      match expected
      case Success((s, v)) => r == Success(v) && State() == s
      case Failure(e) => r == Status.Failure(e)
    }

    constructor ()
      ensures Valid() && State() == EMPTY
      ensures fresh(hasUniform) && fresh(uniformValue) && fresh(hasLocal) && fresh(localValue)
    {
      code, types, hasGlobalIndex, globalIndex, consumed := [], [], false, 0, {};
      hasUniform := new bool[S.PARAM_SIZE](_ => false);
      uniformValue := new nat[S.PARAM_SIZE](_ => 0);
      hasLocal := new bool[MAX_LOCALS](_ => false);
      localValue := new LowerValue[MAX_LOCALS](_ => LowerValue(0, VoidType));
    }

    method Emit(i: Instr) returns (r: Status<LowerValue>)
      requires Valid()
      modifies this
      ensures Agrees(r, Append(old(State()), i))
    {
      if |code| >= MAX_INSTRUCTIONS { return Decline(Limit); }
      if ResultType(i).VoidType? {
        code := code + [i];
        return Success(LowerValue(0, VoidType));
      }
      if |types| >= MAX_VALUES { return Decline(Limit); }
      code, types := code + [i], types + [ResultType(i)];
      return Success(LowerValue(|types| - 1, ResultType(i)));
    }

    method CoerceTo(v: LowerValue, expected: IrType) returns (r: Status<LowerValue>)
      requires Valid()
      modifies this
      ensures Agrees(r, Coerce(old(State()), v, expected))
    {
      hide Append, State, Uniforms, Locals;
      if expected.VoidType? || expected == v.ty { return Success(v); }
      if v.ty.BoolType? && expected.I32? {
        var one :- Emit(ConstI32(1));
        var zero :- Emit(ConstI32(0));
        r := Emit(SelectInstr(I32, v.value, one.value, zero.value));
        return;
      }
      return Decline(Expression);
    }

    method UniformValue(env: KernelEnv, scalar: nat) returns (r: Status<LowerValue>)
      requires Valid() && |env.scalars| <= S.PARAM_SIZE
      modifies this, hasUniform, uniformValue
      ensures Agrees(r, LowerUniform(old(State()), env, scalar))
    {
      if scalar >= |env.scalars| { return Status.Failure(HardError); }
      if hasUniform[scalar] { return Success(LowerValue(uniformValue[scalar], env.scalars[scalar].ty)); }
      ghost var before := Uniforms();
      var v :- Emit(Uniform(env.scalars[scalar].ty, scalar));
      uniformValue[scalar], hasUniform[scalar] := v.value, true;
      assert Uniforms() == before[scalar := v.value];
      return Success(v);
    }

    method GlobalIndexValue() returns (r: Status<LowerValue>)
      requires Valid()
      modifies this
      ensures Agrees(r, LowerGlobalIndex(old(State())))
    {
      if hasGlobalIndex { return Success(LowerValue(globalIndex, IndexType)); }
      var v :- Emit(GlobalIndex);
      globalIndex, hasGlobalIndex := v.value, true;
      return Success(v);
    }

    method ResultValue(entry: nat) returns (r: Status<LowerValue>)
      requires Valid()
      modifies this
      ensures Agrees(r, LowerResult(old(State()), entry))
    {
      var v :- Emit(LoadResult(entry));
      consumed := consumed + {entry};
      return Success(v);
    }

    // Search dense result entries in producer order.
    method FindResult(env: KernelEnv, name: string) returns (r: Option<nat>)
      ensures r == ResultIndex(env, name, 0)
    {
      var i := 0;
      while i < |env.results|
        invariant i <= |env.results| && ResultIndex(env, name, 0) == ResultIndex(env, name, i)
      {
        if env.results[i].producer < env.kernelIndex && env.results[i].name == name { return Some(i); }
        i := i + 1;
      }
      return None;
    }

    method SymbolValue(env: KernelEnv, name: string) returns (r: Status<LowerValue>)
      requires Valid() && |env.scalars| <= S.PARAM_SIZE
      modifies this, hasUniform, uniformValue
      ensures Agrees(r, LowerSymbol(old(State()), env, name))
    {
      hide LowerUniform, LowerResult;
      if name == env.counter { return Decline(Expression); }
      var scalar := ScalarIndex(env.scalars, name);
      if scalar.Some? {
        if env.scalars[scalar.value].reassigned { return Decline(Expression); }
        r := UniformValue(env, scalar.value);
        return;
      }
      var entry := FindResult(env, name);
      if entry.Some? {
        r := ResultValue(entry.value);
        return;
      }
      var local := FindLocal(env.locals, name);
      if local.None? || !(0 <= local.value.index < MAX_LOCALS) { return Decline(Expression); }
      if !hasLocal[local.value.index] { return Decline(Expression); }
      return Success(localValue[local.value.index]);
    }

    method Adjust(base: LowerValue, adjustment: LowerValue, subtract: bool) returns (r: Status<LowerValue>)
      requires Valid()
      modifies this
      ensures Agrees(r, AdjustIndex(old(State()), base, adjustment, subtract))
    {
      hide Append, State, Uniforms, Locals;
      if !base.ty.IndexType? || !adjustment.ty.I32? { return Status.Failure(HardError); }
      r := Emit(BinaryInstr(if subtract then SubOp else AddOp, IndexType, base.value, adjustment.value));
    }

    method AdjustBy(base: LowerValue, constant: int) returns (r: Status<LowerValue>)
      requires Valid()
      modifies this
      ensures Agrees(r, AdjustConstant(old(State()), base, constant))
    {
      hide Append, State, Uniforms, Locals;
      if constant == 0 { return Success(base); }
      var c :- Emit(ConstI32(Wrap(constant)));
      r := Adjust(base, c, false);
    }

    method AdjustByScalar(env: KernelEnv, base: LowerValue, name: Option<string>, subtract: bool) returns (r: Status<LowerValue>)
      requires Valid() && |env.scalars| <= S.PARAM_SIZE
      modifies this, hasUniform, uniformValue
      ensures Agrees(r, AdjustScalar(old(State()), env, base, name, subtract))
    {
      hide Append, State, Uniforms, Locals, LowerUniform, AdjustIndex;
      if name.None? { return Decline(Range); }
      var scalar := ScalarIndex(env.scalars, name.value);
      if scalar.None? || env.scalars[scalar.value].reassigned { return Decline(Range); }
      if !env.scalars[scalar.value].ty.I32? { return Decline(Range); }
      var u :- UniformValue(env, scalar.value);
      r := Adjust(base, u, subtract);
    }

    method IndexValue(env: KernelEnv, e: Expr) returns (r: Status<LowerValue>)
      requires Valid() && |env.scalars| <= S.PARAM_SIZE
      modifies this, hasUniform, uniformValue
      ensures Agrees(r, LowerIndex(old(State()), env, e))
    {
      hide Append, State, Uniforms, Locals, LowerGlobalIndex, AdjustScalar, AdjustConstant, NormalizeIndex;
      var affine := NormalizeIndex(e, env.counter);
      if !affine.kind.CounterOffset? { return Decline(Range); }
      var index :- GlobalIndexValue();
      var start := FoldConstant(env.start);
      if start.Some? {
        if start.value < 0 || start.value > INT_MAX { return Decline(Range); }
        index :- AdjustBy(index, start.value);
      } else {
        index :- AdjustByScalar(env, index, TermSymbol(StripPar(env.start)), false);
      }
      if affine.symbol.Some? {
        index :- AdjustByScalar(env, index, affine.symbol, affine.sign < 0);
      }
      r := AdjustBy(index, affine.offset);
    }

    method SubscriptValue(env: KernelEnv, base: Expr, index: Expr) returns (r: Status<LowerValue>)
      requires Valid() && |env.scalars| <= S.PARAM_SIZE
      modifies this, hasUniform, uniformValue
      ensures Agrees(r, LowerSubscript(old(State()), env, base, index))
    {
      hide Append, State, Uniforms, Locals, LowerIndex, CatalogBuffer;
      var symbol := TermSymbol(base);
      if symbol.None? { return Decline(Expression); }
      var buffer := CatalogBuffer(env.buffers, symbol.value);
      if buffer.None? { return Decline(Expression); }
      if buffer.value.binding < 0 { return Status.Failure(HardError); }
      var at :- IndexValue(env, index);
      if !at.ty.IndexType? { return Status.Failure(HardError); }
      r := Emit(Load(buffer.value.elem, buffer.value.binding, at.value));
    }

    method ExprValue(env: KernelEnv, e: Expr, expected: IrType) returns (r: Status<LowerValue>)
      requires Valid() && |env.scalars| <= S.PARAM_SIZE
      modifies this, hasUniform, uniformValue
      ensures Agrees(r, LowerExpr(old(State()), env, e, expected))
      decreases e, 1
    {
      hide Append, State, Uniforms, Locals, LowerSymbol, LowerSubscript, LowerComparison, LowerBinary, Coerce, CompareOpcode, Wrap;
      var v: LowerValue;
      match e {
        case TermExpr(IntTerm(i)) => v :- Emit(ConstI32(Wrap(i)));
        case TermExpr(FloatTerm(b)) => v :- Emit(ConstF32(b));
        case TermExpr(SymbolTerm(n)) => v :- SymbolValue(env, n);
        case TermExpr(NullTerm) => return Status.Failure(HardError);
        case Unary(Par, x) =>
          r := ExprValue(env, x, expected);
          return;
        case Unary(Neg, x) =>
          v :- ExprValue(env, x, VoidType);
          if !v.ty.I32? { return Decline(Expression); }
          var zero :- Emit(ConstI32(0));
          v :- Emit(BinaryInstr(SubOp, I32, zero.value, v.value));
        case Subscript(base, index) => v :- SubscriptValue(env, base, index);
        case Binary(kind, _, _) =>
          if CompareOpcode(kind).Some? {
            v :- ComparisonValue(env, e);
          } else {
            v :- BinaryValue(env, e, expected);
          }
        case _ => return Decline(Expression);
      }
      r := CoerceTo(v, expected);
    }

    method ComparisonValue(env: KernelEnv, e: Expr) returns (r: Status<LowerValue>)
      requires Valid() && |env.scalars| <= S.PARAM_SIZE && e.Binary? && CompareOpcode(e.kind).Some?
      modifies this, hasUniform, uniformValue
      ensures Agrees(r, LowerComparison(old(State()), env, e.kind, e.left, e.right))
      decreases e, 0
    {
      hide Append, State, Uniforms, Locals, LowerExpr, CompareOpcode, IsScalarType;
      ghost var s := State();
      var a :- ExprValue(env, e.left, VoidType);
      ghost var s1 := State();
      assert LowerExpr(s, env, e.left, VoidType) == Success((s1, a));
      var b :- ExprValue(env, e.right, VoidType);
      assert LowerExpr(s1, env, e.right, VoidType) == Success((State(), b));
      if a.ty != b.ty || !IsScalarType(a.ty) { return Decline(Expression); }
      r := Emit(BinaryInstr(CompareOpcode(e.kind).value, BoolType, a.value, b.value));
    }

    method ConstantOperation(kind: BinaryKind, a: LowerValue, right: Expr) returns (r: Status<LowerValue>)
      requires Valid() && ConstantOperand(kind).Some?
      modifies this
      ensures Agrees(r, LowerByConstant(old(State()), kind, a, right))
    {
      hide Append, State, Uniforms, Locals, FoldConstant, Wrap;
      if !a.ty.I32? { return Decline(Expression); }
      var constant := FoldConstant(right);
      if constant.None? || !ConstantAllowed(kind, constant.value) { return Decline(Expression); }
      var c :- Emit(ConstI32(Wrap(constant.value)));
      r := Emit(BinaryInstr(ConstantOperand(kind).value, I32, a.value, c.value));
    }

    method BinaryValue(env: KernelEnv, e: Expr, expected: IrType) returns (r: Status<LowerValue>)
      requires Valid() && |env.scalars| <= S.PARAM_SIZE && e.Binary?
      modifies this, hasUniform, uniformValue
      ensures Agrees(r, LowerBinary(old(State()), env, e.kind, e.left, e.right, expected))
      decreases e, 0
    {
      hide Append, State, Uniforms, Locals, LowerExpr, Coerce, ConstantOperand, ArithOpcode, BitOnly, IsScalarType, LowerByConstant;
      if ConstantOperand(e.kind).None? && ArithOpcode(e.kind).None? { return Decline(Expression); }
      ghost var s := State();
      var a :- ExprValue(env, e.left, VoidType);
      ghost var s1 := State();
      assert LowerExpr(s, env, e.left, VoidType) == Success((s1, a));
      var v: LowerValue;
      if ConstantOperand(e.kind).Some? {
        v :- ConstantOperation(e.kind, a, e.right);
      } else {
        var b :- ExprValue(env, e.right, VoidType);
        assert LowerExpr(s1, env, e.right, VoidType) == Success((State(), b));
        if a.ty != b.ty || !IsScalarType(a.ty) { return Decline(Expression); }
        if BitOnly(ArithOpcode(e.kind).value) && !a.ty.I32? { return Decline(Expression); }
        v :- Emit(BinaryInstr(ArithOpcode(e.kind).value, a.ty, a.value, b.value));
      }
      r := CoerceTo(v, expected);
    }

    // ----------------------------------------------------------------
    // Statements
    // ----------------------------------------------------------------

    ghost predicate Follows(r: Status<()>, expected: Status<LowerState>)
      requires Valid()
      reads this, hasUniform, uniformValue, hasLocal, localValue
    {
      match expected
      case Success(s) => r == Success(()) && State() == s
      case Failure(e) => r == Status.Failure(e)
    }

    method AddToResult(env: KernelEnv, reduction: Reduction) returns (r: Status<()>)
      requires Valid() && |env.scalars| <= S.PARAM_SIZE
      modifies this, hasUniform, uniformValue
      ensures Follows(r, LowerAtomic(old(State()), env, reduction))
    {
      hide Append, State, Uniforms, Locals, LowerExpr;
      if reduction.entry.None? { return Status.Failure(HardError); }
      var v :- ExprValue(env, reduction.mapped, I32);
      if !v.ty.I32? || reduction.entry.value >= |env.results| { return Status.Failure(HardError); }
      var _ :- Emit(AtomicAdd(reduction.entry.value, v.value));
      return Success(());
    }

    method StoreElement(env: KernelEnv, base: Expr, index: Expr, rhs: Expr) returns (r: Status<()>)
      requires Valid() && |env.scalars| <= S.PARAM_SIZE
      modifies this, hasUniform, uniformValue
      ensures Follows(r, LowerStore(old(State()), env, base, index, rhs))
    {
      hide Append, State, Uniforms, Locals, LowerExpr, LowerIndex, CatalogBuffer;
      var symbol := TermSymbol(base);
      if symbol.None? { return Decline(Expression); }
      var buffer := CatalogBuffer(env.buffers, symbol.value);
      if buffer.None? { return Decline(Expression); }
      if buffer.value.binding < 0 { return Status.Failure(HardError); }
      var at :- IndexValue(env, index);
      var v :- ExprValue(env, rhs, buffer.value.elem);
      if !at.ty.IndexType? { return Status.Failure(HardError); }
      var _ :- Emit(Store(buffer.value.binding, at.value, v.value));
      return Success(());
    }

    // The value becomes the local's current one.
    method KeepLocal(at: nat, v: LowerValue)
      requires Valid() && at < MAX_LOCALS
      modifies hasLocal, localValue
      ensures Valid() && State() == old(State()).(locals := old(State()).locals[at := v])
    {
      ghost var before := Locals();
      localValue[at], hasLocal[at] := v, true;
      assert Locals() == before[at := v];
    }

    method AssignLocal(env: KernelEnv, name: string, rhs: Expr) returns (r: Status<()>)
      requires Valid() && |env.scalars| <= S.PARAM_SIZE
      modifies this, hasUniform, uniformValue, hasLocal, localValue
      ensures Follows(r, LowerAssign(old(State()), env, name, rhs))
    {
      hide LowerExpr, Append, State, Uniforms, Locals;
      if name == "$return" { return Decline(ControlFlow); }
      var local := FindLocal(env.locals, name);
      if local.None? { return Decline(Expression); }
      if local.value.isParameter || local.value.isLoopCounter { return Decline(NotDoall); }
      var at := local.value.index;
      if !(0 <= at < MAX_LOCALS) { return Decline(Limit); }
      if !IsScalarType(LocalType(local.value)) { return Decline(Expression); }
      var v :- ExprValue(env, rhs, LocalType(local.value));
      KeepLocal(at, v);
      return Success(());
    }

    method Statement(env: KernelEnv, stmt: Stmt) returns (r: Status<()>)
      requires Valid() && |env.scalars| <= S.PARAM_SIZE
      modifies this, hasUniform, uniformValue, hasLocal, localValue
      ensures Follows(r, LowerStatement(old(State()), env, stmt))
    {
      hide Append, State, Uniforms, Locals, LowerAtomic, LowerStore, LowerAssign;
      if UpdatesAccumulator(env, stmt.lhs) {
        r := AddToResult(env, env.reduction.value);
        return;
      }
      match stmt.lhs
      case Subscript(base, index) => r := StoreElement(env, base, index, stmt.rhs);
      case TermExpr(SymbolTerm(name)) => r := AssignLocal(env, name, stmt.rhs);
      case _ => return Decline(Expression);
    }

    // ----------------------------------------------------------------
    // Blocks
    // ----------------------------------------------------------------

    method Statements(env: KernelEnv, stmts: seq<Stmt>, ghost before: seq<Stmt>) returns (r: Status<()>)
      requires Valid() && |env.scalars| <= S.PARAM_SIZE
      requires LowerBody(env, before) == Success(State())
      modifies this, hasUniform, uniformValue, hasLocal, localValue
      ensures Follows(r, LowerBody(env, before + stmts))
    {
      hide LowerStatement, State;
      assert before + stmts[..0] == before;
      for i := 0 to |stmts|
        invariant LowerBody(env, before + stmts[..i]) == Success(State())
      {
        r := Statement(env, stmts[i]);
        assert (before + stmts[..i + 1])[..|before| + i] == before + stmts[..i];
        if r.Failure? {
          LowerBodyFails(env, before + stmts[..i + 1], stmts[i + 1..], r.error);
          assert before + stmts[..i + 1] + stmts[i + 1..] == before + stmts;
          return;
        }
      }
      assert before + stmts[..|stmts|] == before + stmts;
      return Success(());
    }

    // Lowers the chain of straight blocks from the first block of the body to
    // the back edge, and nothing else.
    method Block(g: Graph, env: KernelEnv, inner: Option<Id>) returns (r: Status<()>)
      requires Valid() && State() == EMPTY && |env.scalars| <= S.PARAM_SIZE && Closed(g) && (inner.Some? ==> inner.value in g)
      modifies this, hasUniform, uniformValue, hasLocal, localValue
      ensures r.Success? <==> exists path :: Lowerable(g, env, inner, path)
      ensures forall path :: Lowerable(g, env, inner, path) ==> LowerBody(env, BodyOf(g, path)) == Success(State())
    {
      hide LowerBody, State;
      var visited: seq<Id> := [];
      var block := inner;
      assert LowerBody(env, []) == Success(State()) by { NothingLowered(env); }
      while block.Some?
        invariant Walk(g, inner, visited, block)
        invariant |visited| <= MAX_VISITED
        invariant LowerBody(env, BodyOf(g, visited)) == Success(State())
        decreases MAX_VISITED - |visited|
      {
        var id := block.value;
        if id in visited {
          NoChainThrough(g, inner, visited, id);
          return Decline(ControlFlow);
        }
        if |visited| >= MAX_VISITED {
          LongerThan(g, inner, visited, id);
          return Decline(Limit);
        }
        var b := g[id];
        ghost var before := visited;
        visited := visited + [id];
        if !b.inBody || b.leaves {
          NoChainPast(g, inner, before, id);
          return Decline(ControlFlow);
        }
        assert visited[..|before|] == before;
        r := Statements(env, b.stmts, BodyOf(g, before));
        if r.Failure? {
          ChainBodyFails(g, env, inner, before, id, r.error);
          return;
        }
        if b.stop {
          if b.succ != inner {
            NoChainPast(g, inner, before, id);
            return Decline(ControlFlow);
          }
          OneChain(g, inner, before, id);
          assert Lowerable(g, env, inner, visited);
          return Success(());
        }
        block := b.succ;
      }
      NoChainEnds(g, inner, visited);
      return Status.Failure(HardError);
    }
  }

  lemma NothingLowered(env: KernelEnv)
    ensures LowerBody(env, []) == Success(EMPTY)
  {
  }

  lemma {:induction false} LowerBodyFails(env: KernelEnv, front: seq<Stmt>, rest: seq<Stmt>, e: Failure)
    requires LowerBody(env, front) == Status.Failure(e)
    ensures LowerBody(env, front + rest) == Status.Failure(e)
    decreases |rest|
  {
    if rest == [] {
      assert front + rest == front;
    } else {
      LowerBodyFails(env, front, rest[..|rest| - 1], e);
      assert (front + rest)[..|front + rest| - 1] == front + rest[..|rest| - 1];
    }
  }

  // The blocks walked so far and the next one.
  ghost predicate Walk(g: Graph, inner: Option<Id>, visited: seq<Id>, next: Option<Id>) {
    && Straight(g, inner, visited)
    && (next.Some? ==> next.value in g)
    && if visited == [] then next == inner
       else !g[visited[|visited| - 1]].stop && g[visited[|visited| - 1]].succ == next
  }

  // Every chain begins with the blocks walked.
  lemma {:induction false} ChainFollows(g: Graph, inner: Option<Id>, visited: seq<Id>, next: Option<Id>, path: seq<Id>, n: nat)
    requires Walk(g, inner, visited, next) && Chain(g, inner, path) && n <= |visited|
    ensures n < |path| && path[..n] == visited[..n]
    ensures Some(path[n]) == if n < |visited| then Some(visited[n]) else next
  {
    if n > 0 {
      ChainFollows(g, inner, visited, next, path, n - 1);
      assert !g[visited[n - 1]].stop;
      assert path[..n] == path[..n - 1] + [path[n - 1]];
    }
  }

  // A chain never comes back to a block it has passed.
  lemma {:induction false} ChainDistinct(g: Graph, inner: Option<Id>, path: seq<Id>, i: nat, j: nat)
    requires Chain(g, inner, path) && i < j < |path|
    ensures path[i] != path[j]
    decreases |path| - j
  {
    if path[i] == path[j] && j + 1 < |path| {
      ChainDistinct(g, inner, path, i + 1, j + 1);
    }
  }

  ghost predicate NoChain(g: Graph, inner: Option<Id>) { forall path :: !Chain(g, inner, path) }

  lemma NoChainThrough(g: Graph, inner: Option<Id>, visited: seq<Id>, id: Id)
    requires Walk(g, inner, visited, Some(id)) && id in visited
    ensures NoChain(g, inner)
  {
    forall path | Chain(g, inner, path) ensures false {
      ChainFollows(g, inner, visited, Some(id), path, |visited|);
      var k :| 0 <= k < |visited| && visited[k] == id;
      ChainDistinct(g, inner, path, k, |visited|);
    }
  }

  lemma LongerThan(g: Graph, inner: Option<Id>, visited: seq<Id>, id: Id)
    requires Walk(g, inner, visited, Some(id))
    ensures forall path :: Chain(g, inner, path) ==> |path| > |visited|
  {
    forall path | Chain(g, inner, path) ensures |path| > |visited| {
      ChainFollows(g, inner, visited, Some(id), path, |visited|);
    }
  }

  lemma NoChainPast(g: Graph, inner: Option<Id>, before: seq<Id>, id: Id)
    requires Walk(g, inner, before, Some(id))
    requires !g[id].inBody || g[id].leaves || (g[id].stop && g[id].succ != inner)
    ensures NoChain(g, inner)
  {
    forall path | Chain(g, inner, path) ensures false {
      ChainFollows(g, inner, before, Some(id), path, |before|);
    }
  }

  lemma NoChainEnds(g: Graph, inner: Option<Id>, visited: seq<Id>)
    requires Walk(g, inner, visited, None)
    ensures NoChain(g, inner)
  {
    forall path | Chain(g, inner, path) ensures false {
      ChainFollows(g, inner, visited, None, path, |visited|);
    }
  }

  lemma OneChain(g: Graph, inner: Option<Id>, before: seq<Id>, id: Id)
    requires Walk(g, inner, before, Some(id)) && g[id].inBody && !g[id].leaves && g[id].stop && g[id].succ == inner
    ensures Chain(g, inner, before + [id])
    ensures forall path :: Chain(g, inner, path) ==> path == before + [id]
  {
    forall path | Chain(g, inner, path) ensures path == before + [id] {
      ChainFollows(g, inner, before, Some(id), path, |before|);
      assert path[..|before|] == before && path[|before|] == id;
    }
  }

  lemma {:induction false} BodyPrefix(g: Graph, path: seq<Id>, n: nat) returns (rest: seq<Stmt>)
    requires n <= |path| && forall i :: 0 <= i < |path| ==> path[i] in g
    ensures BodyOf(g, path) == BodyOf(g, path[..n]) + rest
    decreases |path|
  {
    if n == |path| {
      assert path[..n] == path;
      rest := [];
    } else {
      var front := path[..|path| - 1];
      assert front[..n] == path[..n];
      var r := BodyPrefix(g, front, n);
      rest := r + g[path[|path| - 1]].stmts;
    }
  }

  // A statement that is not lowered fails every chain through its block.
  lemma BodyFails(g: Graph, env: KernelEnv, inner: Option<Id>, before: seq<Id>, id: Id, e: Failure, path: seq<Id>)
    requires Walk(g, inner, before, Some(id)) && Chain(g, inner, path)
    requires LowerBody(env, BodyOf(g, before) + g[id].stmts) == Status.Failure(e)
    ensures LowerBody(env, BodyOf(g, path)).Failure?
  {
    hide LowerBody, Walk;
    assert path[..|before| + 1] == before + [id] by {
      ChainFollows(g, inner, before, Some(id), path, |before|);
    }
    assert (before + [id])[..|before|] == before;
    var rest := BodyPrefix(g, path, |before| + 1);
    LowerBodyFails(env, BodyOf(g, before) + g[id].stmts, rest, e);
  }

  lemma ChainBodyFails(g: Graph, env: KernelEnv, inner: Option<Id>, before: seq<Id>, id: Id, e: Failure)
    requires Walk(g, inner, before, Some(id))
    requires LowerBody(env, BodyOf(g, before) + g[id].stmts) == Status.Failure(e)
    ensures forall path :: !Lowerable(g, env, inner, path)
  {
    hide LowerBody, BodyOf;
    forall path | Chain(g, inner, path) ensures LowerBody(env, BodyOf(g, path)).Failure? {
      BodyFails(g, env, inner, before, id, e, path);
    }
  }

  // ------------------------------------------------------------------
  // One kernel
  // ------------------------------------------------------------------

  const NAME_SIZE: nat := 512

  function Decimal(n: nat): string {
    if n < 10 then [('0' as int + n) as char] else Decimal(n / 10) + [('0' as int + n % 10) as char]
  }

  // The name has to leave room for its terminator.
  function KernelName(function_: string, kernelIndex: nat): string { function_ + "$accel$" + Decimal(kernelIndex) }

  predicate NameFits(function_: string, kernelIndex: nat) { |KernelName(function_, kernelIndex)| < NAME_SIZE }

  lemma {:induction false} DecimalDigits(n: nat)
    ensures |Decimal(n)| == 1 <==> n < 10
    ensures |Decimal(n)| <= 2 <==> n < 100
    ensures forall i :: 0 <= i < |Decimal(n)| ==> '0' <= Decimal(n)[i] <= '9'
  {
    if n >= 10 {
      DecimalDigits(n / 10);
    }
  }

  // A straight-line body and its statements, block by block.
  lemma ChainMeans(g: Graph, inner: Option<Id>, path: seq<Id>)
    ensures Chain(g, inner, path) <==>
      && path != [] && inner == Some(path[0])
      && (forall i :: 0 <= i < |path| ==> path[i] in g && g[path[i]].inBody && !g[path[i]].leaves)
      && (forall i :: 0 <= i < |path| - 1 ==> !g[path[i]].stop && g[path[i]].succ == Some(path[i + 1]))
      && g[path[|path| - 1]].stop && g[path[|path| - 1]].succ == inner
  {
  }

  // A chain within the limits lowers exactly when its body is typed, unless
  // the instructions may not fit.
  lemma LowerableMeans(g: Graph, env: KernelEnv, inner: Option<Id>, path: seq<Id>)
    requires Chain(g, inner, path)
    ensures Lowerable(g, env, inner, path) ==> |path| <= 1024 && T.BodyTypes(env, BodyOf(g, path)).Success?
    ensures |path| <= 1024 && T.BodyTypes(env, BodyOf(g, path)).Success? && 11 * T.BodySize(env, BodyOf(g, path)) <= 1024 ==>
      Lowerable(g, env, inner, path)
  {
    hide LowerBody, T.BodyTypes, T.BodySize, T.Fine, BodyOf;
    T.BodyTyped(env, BodyOf(g, path));
  }

  // The lowerer knows a catalog entry's buffer by its binding, if it has one.
  ghost predicate Connected(
    params: seq<S.Param>, catalog: seq<S.Entry>, bindings: seq<S.Binding>, pos: seq<nat>, buffers: seq<Buffer>)
  {
    && S.Projects(params, catalog, bindings, pos) && |buffers| == |catalog|
    && forall k :: 0 <= k < |buffers| ==>
         && buffers[k].symbol == catalog[k].symbol
         && (buffers[k].binding >= 0 ==> buffers[k].binding < |pos| && pos[buffers[k].binding] == k)
  }

  // Every buffer a lowered kernel loads or stores is one some kernel is
  // recorded to touch, and has a binding with its name.
  lemma TouchedIsBound(
    params: seq<S.Param>, catalog: seq<S.Entry>, bindings: seq<S.Binding>, pos: seq<nat>, env: KernelEnv, body: seq<Stmt>, i: Instr)
    returns (k: nat)
    requires Connected(params, catalog, bindings, pos, env.buffers)
    requires LowerBody(env, body).Success? && i in LowerBody(env, body).value.code && (i.Load? || i.Store?)
    ensures k < |catalog| && (catalog[k].gpuRead || catalog[k].gpuWrite)
    ensures i.buffer < |bindings| && bindings[i.buffer].symbol == catalog[k].symbol && bindings[i.buffer].class_ == catalog[k].class_
  {
    hide LowerBody, T.BodyTypes, T.BodySize, T.LocalTypes;
    T.BodyTyped(env, body);
    assert T.Origin(env, i);
    k :| 0 <= k < |env.buffers| && env.buffers[k].binding == i.buffer;
    assert pos[i.buffer] in pos;
    assert S.Bound(params, catalog, bindings[i.buffer], pos[i.buffer]);
  }

  // Lowers a loop body and checks the result.  The check never fails: the
  // kernel exists exactly when its name fits, there is memory for it and the
  // body is lowerable, and is then the body's lowering.
  method BuildKernel(g: Graph, env: KernelEnv, shape: KV.Shape, inner: Option<Id>, function_: string, memory: bool)
    returns (r: Status<(seq<Instr>, nat)>)
    requires Closed(g) && (inner.Some? ==> inner.value in g) && KV.TablesFit(env, shape)
    ensures r.Success? <==>
      |function_| + 7 + |Decimal(env.kernelIndex)| < 512 && memory && exists path :: Lowerable(g, env, inner, path)
    ensures r.Success? ==> forall path :: Lowerable(g, env, inner, path) ==>
      r == Success((LowerBody(env, BodyOf(g, path)).value.code, |LowerBody(env, BodyOf(g, path)).value.types|))
    ensures r.Success? ==> KV.ValidKernel(shape, r.value.0, r.value.1)
    ensures r.Success? ==> forall i :: 0 <= i < |r.value.0| ==> T.Origin(env, r.value.0[i])
    ensures !NameFits(function_, env.kernelIndex) ==> r == Decline(Limit)
    ensures NameFits(function_, env.kernelIndex) && !memory ==> r == Status.Failure(HardError)
  {
    hide LowerBody, KV.ValidKernel, T.Origin, T.BodyTypes, T.BodySize, T.LocalTypes;
    if |KernelName(function_, env.kernelIndex)| >= NAME_SIZE { return Decline(Limit); }
    if !memory { return Status.Failure(HardError); }
    var lowerer := new KernelLowerer();
    var lowered := lowerer.Block(g, env, inner);
    if lowered.Failure? {
      assert forall path :: !Lowerable(g, env, inner, path);
      return Status.Failure(lowered.error);
    }
    ghost var path :| Lowerable(g, env, inner, path);
    KV.LoweredKernelIsValid(env, shape, BodyOf(g, path));
    T.BodyTyped(env, BodyOf(g, path));
    var valid := KV.Validate(shape, lowerer.code, |lowerer.types|);
    if !valid { return Status.Failure(HardError); }
    return Success((lowerer.code, |lowerer.types|));
  }
}
