// The program itself against what the kernels compute: where its 64-bit
// operations meet their guards and its loops make the dispatched trips, a
// region leaves what the device leaves.

module ProgramMeaning {
  import opened Words
  import opened Hir
  import opened AccelIr
  import opened Lowering
  import opened LongArithmetic
  import opened ConstantOperands
  import opened Truncation
  import opened Widths
  import opened LoweringMeaning
  import opened LoopMeaning
  import opened Ranges
  import opened Region
  import opened Residency
  import KV = KernelValidation

  // ------------------------------------------------------------------
  // Statements and bodies
  // ------------------------------------------------------------------

  type State = Option<(Vars, Mem)>

  function LowState(s: State): State { if s.Some? then Some((LowVars(s.value.0), s.value.1)) else None }

  predicate StmtIndexed(s: Stmt, frame: Frame) {
    Indexed(s.rhs, frame) && (s.lhs.Subscript? ==> IndexKnown(s.lhs.index, frame))
  }

  lemma LowAssigned(vars: Vars, name: string, v: Value)
    ensures LowVars(vars[name := v]) == LowVars(vars)[name := Low(v)]
  {
  }

  lemma StoredLow(elem: ElemType, v: Value)
    ensures StoredWord(elem, Low(v)) == StoredWord(elem, v)
  {
  }

  // The truncated statement leaves the same memory and the low words of the
  // same variables.
  lemma StmtLow(s: Stmt, frame: Frame, vars: Vars, mem: Mem)
    requires ShortVars(frame.args) && StmtIndexed(s, frame) && Guarded(s.rhs, frame, vars, mem)
    ensures ExecStmt(TruncatedStmt(s), frame, LowVars(vars), mem) == LowState(ExecStmt(s, frame, vars, mem))
  {
    hide Eval, Put, Indexed, Guarded, NormalizeIndex, AffineBound, AffineWord, StoredWord, LowVars, Low, Truncated;
    TruncatedMeaning(s.rhs, frame, vars, mem);
    var v := Eval(s.rhs, frame, vars, mem);
    match s.lhs
    case Subscript(base, index) =>
      NormalizeMeaning(index, frame, vars, mem);
      NormalizeMeaning(index, frame, LowVars(vars), mem);
      if v.Some? && TermSymbol(base).Some? && FindBuffer(frame.buffers, TermSymbol(base).value).Some? {
        StoredLow(FindBuffer(frame.buffers, TermSymbol(base).value).value.elem, v.value);
      }
    case TermExpr(SymbolTerm(name)) =>
      if v.Some? { LowAssigned(vars, name, v.value); }
    case _ =>
  }

  // Every statement meets its guards where the body reaches it.
  predicate BodyGuarded(body: seq<Stmt>, frame: Frame, vars: Vars, mem: Mem)
    decreases |body|
  {
    body == [] ||
    (var (front, last) := (body[..|body| - 1], body[|body| - 1]);
     var before := ExecBody(front, frame, vars, mem);
     BodyGuarded(front, frame, vars, mem) && (before.Some? ==> Guarded(last.rhs, frame, before.value.0, before.value.1)))
  }

  lemma {:induction false} BodyLow(body: seq<Stmt>, frame: Frame, vars: Vars, mem: Mem)
    requires ShortVars(frame.args) && BodyGuarded(body, frame, vars, mem)
    requires forall s :: s in body ==> StmtIndexed(s, frame)
    ensures ExecBody(TruncatedBody(body), frame, LowVars(vars), mem) == LowState(ExecBody(body, frame, vars, mem))
    decreases |body|
  {
    hide ExecStmt, StmtIndexed, Guarded, LowVars, TruncatedStmt;
    if body != [] {
      var (front, last) := (body[..|body| - 1], body[|body| - 1]);
      assert last in body;
      TruncatedSnoc(body);
      BodyLow(front, frame, vars, mem);
      var before := ExecBody(front, frame, vars, mem);
      if before.Some? {
        StmtLow(last, frame, before.value.0, before.value.1);
      }
    }
  }

  // ------------------------------------------------------------------
  // What lowering established about the indices
  // ------------------------------------------------------------------

  // The arguments of a region are ints and floats.
  lemma ShortArguments(r: Region, act: Actuals)
    requires ArgumentsBound(r, act)
    ensures ShortVars(act.args)
  {
  }

  predicate IndexFits(env: KernelEnv, index: Expr) {
    var affine := NormalizeIndex(index, env.counter);
    && affine.kind.CounterOffset?
    && (affine.symbol.Some? ==>
         ScalarIndex(env.scalars, affine.symbol.value).Some?
         && env.scalars[ScalarIndex(env.scalars, affine.symbol.value).value].ty.I32?)
  }

  lemma LoweredIndexFits(s: LowerState, env: KernelEnv, index: Expr)
    requires LowerIndex(s, env, index).Success?
    ensures IndexFits(env, index)
  {
    hide NormalizeIndex, LowerGlobalIndex, LowerStart, AdjustConstant, LowerUniform, AdjustIndex;
  }

  // The frame passes the int arguments the scalars name.
  predicate ArgumentsOf(env: KernelEnv, frame: Frame) {
    && frame.counter == env.counter
    && forall i :: 0 <= i < |env.scalars| && env.scalars[i].ty.I32? ==>
         env.scalars[i].name in frame.args && frame.args[env.scalars[i].name].IntVal?
  }

  lemma FitsKnown(env: KernelEnv, frame: Frame, index: Expr)
    requires IndexFits(env, index) && ArgumentsOf(env, frame)
    ensures IndexKnown(index, frame)
  {
    hide NormalizeIndex;
    NormalizedSymbol(index, env.counter);
  }

  lemma {:induction false} LoweredIndexed(s: LowerState, env: KernelEnv, e: Expr, expected: IrType, frame: Frame)
    requires LowerExpr(s, env, e, expected).Success? && ArgumentsOf(env, frame)
    ensures Indexed(e, frame)
    decreases e
  {
    hide Append, Coerce, LowerByConstant, LowerSymbol, LowerIndex, IndexKnown, ArgumentsOf, ArithOpcode, BitOnly;
    match e
    case Unary(op, x) => LoweredIndexed(s, env, x, if op.Par? then expected else VoidType, frame);
    case Binary(kind, l, r) =>
      LoweredIndexed(s, env, l, VoidType, frame);
      if ConstantOperand(kind).None? {
        LoweredIndexed(LowerExpr(s, env, l, VoidType).value.0, env, r, VoidType, frame);
      }
    case Subscript(base, index) =>
      LoweredIndexFits(s, env, index);
      FitsKnown(env, frame, index);
    case _ =>
  }

  lemma {:induction false} StripParIndexed(e: Expr, frame: Frame)
    requires Indexed(StripPar(e), frame)
    ensures Indexed(e, frame)
  {
    if e.Unary? && e.unary.Par? {
      StripParIndexed(e.operand, frame);
    }
  }

  // An accumulator's update holds its name and the lowered mapped expression.
  lemma MappedIndexed(rhs: Expr, accumulator: string, frame: Frame)
    requires MappedExpr(rhs, accumulator).Some? && Indexed(MappedExpr(rhs, accumulator).value, frame)
    ensures Indexed(rhs, frame)
  {
    var sum := StripPar(rhs);
    var (l, r) := (StripPar(sum.left), StripPar(sum.right));
    if TermSymbol(l) == Some(accumulator) {
      assert Indexed(l, frame) && Indexed(r, frame);
    } else {
      assert Indexed(r, frame) && Indexed(l, frame);
    }
    StripParIndexed(sum.left, frame);
    StripParIndexed(sum.right, frame);
    StripParIndexed(rhs, frame);
  }

  lemma LoweredStmtIndexed(s: LowerState, env: KernelEnv, stmt: Stmt, frame: Frame)
    requires LowerStatement(s, env, stmt).Success? && ScalarVerdict(env, stmt) && ArgumentsOf(env, frame)
    ensures StmtIndexed(stmt, frame)
  {
    hide LowerExpr, LowerIndex, Indexed, IndexKnown, ArgumentsOf, Append, MappedExpr;
    if UpdatesAccumulator(env, stmt.lhs) {
      LoweredIndexed(s, env, env.reduction.value.mapped, I32, frame);
      MappedIndexed(stmt.rhs, env.reduction.value.accumulator, frame);
    } else {
      match stmt.lhs
      case Subscript(base, index) =>
        LoweredIndexFits(s, env, index);
        FitsKnown(env, frame, index);
        var b := CatalogBuffer(env.buffers, TermSymbol(base).value).value;
        LoweredIndexed(LowerIndex(s, env, index).value.0, env, stmt.rhs, b.elem, frame);
      case TermExpr(SymbolTerm(name)) =>
        LoweredIndexed(s, env, stmt.rhs, LocalType(FindLocal(env.locals, name).value), frame);
    }
  }

  lemma {:induction false} AcceptedIndexed(env: KernelEnv, body: seq<Stmt>, frame: Frame)
    requires Accepted(env, body) && ArgumentsOf(env, frame)
    ensures forall s :: s in body ==> StmtIndexed(s, frame)
    decreases |body|
  {
    hide LowerStatement, ScalarVerdict, StmtIndexed, ArgumentsOf, WellFormed;
    if body != [] {
      var (front, last) := (body[..|body| - 1], body[|body| - 1]);
      assert last in body;
      AcceptedIndexed(env, front, frame);
      LoweredStmtIndexed(LowerBody(env, front).value, env, last, frame);
    }
  }

  // ------------------------------------------------------------------
  // Loops and regions
  // ------------------------------------------------------------------

  // The program's loop after k iterations; None when one of them fails.
  function SourceLoop(st: Setting, k: nat, vars: Vars, mem: Mem): State {
    if k == 0 then Some((vars, mem))
    else
      var (vars', mem') :- SourceLoop(st, k - 1, vars, mem);
      ExecBody(st.body, FrameAt(st, k - 1), vars', mem')
  }

  // Every iteration meets its guards in the state it starts from.
  ghost predicate LoopGuarded(st: Setting, count: nat, vars: Vars, mem: Mem) {
    forall t: nat :: t < count && SourceLoop(st, t, vars, mem).Some? ==>
      var (vars', mem') := SourceLoop(st, t, vars, mem).value; BodyGuarded(st.body, FrameAt(st, t), vars', mem')
  }

  lemma {:induction false} LoopLow(st: Setting, k: nat, vars: Vars, mem: Mem)
    requires Accepted(st.env, st.body) && ShortVars(st.args) && ArgumentsOf(st.env, FrameAt(st, 0)) && LoopGuarded(st, k, vars, mem)
    ensures TruncatedLoop(st, k, LowVars(vars), mem) == LowState(SourceLoop(st, k, vars, mem))
  {
    hide ExecBody, Accepted, BodyGuarded, LowVars;
    if k > 0 {
      LoopLow(st, k - 1, vars, mem);
      var before := SourceLoop(st, k - 1, vars, mem);
      if before.Some? {
        AcceptedIndexed(st.env, st.body, FrameAt(st, k - 1));
        BodyLow(st.body, FrameAt(st, k - 1), before.value.0, before.value.1);
      }
    }
  }

  // The program's first k loops, one after another.
  function SourceRegion(r: Region, act: Actuals, k: nat, vars: Vars, mem: Mem): State
    requires k <= |r.loops|
  {
    if k == 0 then Some((vars, mem))
    else
      var (vars', mem') :- SourceRegion(r, act, k - 1, vars, mem);
      var count :- SourceCount(r, act, k - 1);
      SourceLoop(SettingAt(r, act, k - 1), count, Initialised(r, k - 1, vars'), mem')
  }

  // Every loop the program reaches meets its guards.
  ghost predicate RegionGuarded(r: Region, act: Actuals, vars: Vars, mem: Mem) {
    forall k :: 0 <= k < |r.loops| && SourceRegion(r, act, k, vars, mem).Some? ==>
      var (vars', mem') := SourceRegion(r, act, k, vars, mem).value;
      LoopGuarded(SettingAt(r, act, k), TripCount(r, act, k), Initialised(r, k, vars'), mem')
  }

  lemma InitialisedLow(r: Region, k: nat, vars: Vars)
    requires k < |r.loops|
    ensures Initialised(r, k, LowVars(vars)) == LowVars(Initialised(r, k, vars))
  {
    if r.loops[k].zeroFirst && r.loops[k].env.reduction.Some? {
      LowAssigned(vars, r.loops[k].env.reduction.value.accumulator, IntVal(0));
    }
  }

  lemma SettingArguments(r: Region, act: Actuals, k: nat)
    requires Compiled(r) && ArgumentsBound(r, act) && k < |r.loops|
    ensures Accepted(r.loops[k].env, r.loops[k].body) && ArgumentsOf(r.loops[k].env, FrameAt(SettingAt(r, act, k), 0))
  {
    hide Accepted, KV.TablesFit, Independent, BodyAccesses, ResultsOf, AddKernels;
    assert LoopCompiled(r, k);
  }

  // Where the program makes the dispatched trips and meets its guards, the
  // kernels' sequential loops leave its memory and the low words of its
  // variables.
  lemma {:induction false} RegionLow(r: Region, act: Actuals, k: nat, vars: Vars, mem: Mem)
    requires Compiled(r) && ArgumentsBound(r, act) && CountsAgree(r, act) && RegionGuarded(r, act, vars, mem) && k <= |r.loops|
    ensures TruncatedRegion(r, act, k, LowVars(vars), mem) == LowState(SourceRegion(r, act, k, vars, mem))
  {
    hide Compiled, ArgumentsBound, Accepted, ArgumentsOf, LowVars, LoopGuarded, SourceLoop, TruncatedLoop, Initialised, TripCount, SourceCount;
    if k > 0 {
      RegionLow(r, act, k - 1, vars, mem);
      var before := SourceRegion(r, act, k - 1, vars, mem);
      if before.Some? {
        InitialisedLow(r, k - 1, before.value.0);
        SettingArguments(r, act, k - 1);
        ShortArguments(r, act);
        LoopLow(SettingAt(r, act, k - 1), TripCount(r, act, k - 1), Initialised(r, k - 1, before.value.0), before.value.1);
      }
    }
  }

  // The accumulator's variable starts at zero in both.
  lemma EntryLow(r: Region, vars: Vars)
    requires EntryReady(r, vars)
    ensures EntryReady(r, LowVars(vars))
  {
  }

  // The words a device leaves are those of the program's final state.
  predicate Leaves(r: Region, source: State, mem: Mem, results: seq<Word>) {
    && source.Some? && source.value.1 == mem && |results| == |ResultsOf(r.loops)|
    && forall j :: 0 <= j < |results| ==>
         ResultsOf(r.loops)[j].name in source.value.0 && Low(source.value.0[ResultsOf(r.loops)[j].name]) == IntVal(results[j])
  }

  // For every accepted region, arguments, buffers and interleaving of each
  // kernel's lanes: where the program's 64-bit operations meet their guards
  // and its loops make the dispatched trips, it cannot fail, the device ends
  // with the memory it leaves, and every result word is the low word of its
  // accumulator.
  lemma ProgramSimulation(
    r: Region, act: Actuals, lengths: seq<nat>, schedules: seq<seq<nat>>, vars: Vars, mem: Mem, results: seq<Word>)
    requires Runnable(r, act, lengths) && |r.loops| == |schedules|
    requires CountsAgree(r, act) && RegionGuarded(r, act, vars, mem)
    requires Holding(mem, lengths) && EntryReady(r, vars)
    requires |results| == |ResultsOf(r.loops)| && forall j :: 0 <= j < |results| ==> results[j] == 0
    requires AllComplete(r, act, schedules, |r.loops|, Device(mem, results))
    ensures var dev := Dispatched(r, act, schedules, |r.loops|, Device(mem, results));
      Leaves(r, SourceRegion(r, act, |r.loops|, vars, mem), dev.mem, dev.results)
  {
    hide Compiled, ArgumentsBound, RuntimeAccepts, CountsAgree, RegionGuarded, TruncatedRegion, SourceRegion, Dispatched, TripCount, ResultsOf, AllComplete, EntryReady, Holding;
    EntryLow(r, vars);
    RegionLow(r, act, |r.loops|, vars, mem);
    RegionSimulation(r, act, lengths, schedules, LowVars(vars), mem, results);
  }

  // The same through the host transfers.
  lemma ProgramTransfer(
    r: Region, act: Actuals, lengths: seq<nat>, schedules: seq<seq<nat>>, vars: Vars, host: Mem, device: Mem, results: seq<Word>)
    requires Runnable(r, act, lengths) && |r.loops| == |schedules|
    requires CountsAgree(r, act) && RegionGuarded(r, act, vars, host)
    requires Holding(host, lengths) && Holding(device, lengths) && EntryReady(r, vars)
    requires forall b :: 0 <= b < |host| && Uploaded(r, act, b) ==> device[b] == host[b]
    requires |results| == |ResultsOf(r.loops)| && forall j :: 0 <= j < |results| ==> results[j] == 0
    requires AllComplete(r, act, schedules, |r.loops|, Device(device, results))
    ensures var after := Dispatched(r, act, schedules, |r.loops|, Device(device, results));
      && |after.mem| == |host|
      && Leaves(r, SourceRegion(r, act, |r.loops|, vars, host), HostAfter(r, act, host, after.mem), after.results)
  {
    hide Compiled, ArgumentsBound, RuntimeAccepts, CountsAgree, RegionGuarded, TruncatedRegion, SourceRegion, Dispatched, TripCount, AllComplete, EntryReady, Holding, HostAfter, Uploaded;
    EntryLow(r, vars);
    RegionLow(r, act, |r.loops|, vars, host);
    HostTransfer(r, act, lengths, schedules, LowVars(vars), host, device, results);
  }

  // ------------------------------------------------------------------
  // Regions that meet their guards on every input
  // ------------------------------------------------------------------

  // An element takes the low word of any value; a variable stays an int or a
  // float.
  predicate StmtWidth(s: Stmt) { if s.lhs.Subscript? then WidthOf(s.rhs).Some? else WidthOf(s.rhs) == Some(Plain) }

  predicate RegionWidths(r: Region) {
    forall k, s :: 0 <= k < |r.loops| && s in r.loops[k].body ==> StmtWidth(s)
  }

  lemma StmtShort(s: Stmt, frame: Frame, vars: Vars, mem: Mem)
    requires ShortVars(frame.args) && ShortVars(vars) && StmtWidth(s)
    ensures Guarded(s.rhs, frame, vars, mem)
    ensures ExecStmt(s, frame, vars, mem).Some? ==> ShortVars(ExecStmt(s, frame, vars, mem).value.0)
  {
    hide Eval, Put, Guarded, StoredWord, WidthOf;
    WidthGuards(s.rhs, frame, vars, mem);
  }

  lemma {:induction false} BodyShort(body: seq<Stmt>, frame: Frame, vars: Vars, mem: Mem)
    requires ShortVars(frame.args) && ShortVars(vars) && forall s :: s in body ==> StmtWidth(s)
    ensures BodyGuarded(body, frame, vars, mem)
    ensures ExecBody(body, frame, vars, mem).Some? ==> ShortVars(ExecBody(body, frame, vars, mem).value.0)
    decreases |body|
  {
    hide ExecStmt, Guarded, StmtWidth, ShortVars;
    if body != [] {
      var (front, last) := (body[..|body| - 1], body[|body| - 1]);
      assert last in body;
      BodyShort(front, frame, vars, mem);
      var before := ExecBody(front, frame, vars, mem);
      if before.Some? {
        StmtShort(last, frame, before.value.0, before.value.1);
      }
    }
  }

  lemma FrameArguments(st: Setting, t: nat)
    ensures FrameAt(st, t).args == st.args
  {
  }

  lemma {:induction false} LoopShort(st: Setting, k: nat, vars: Vars, mem: Mem)
    requires ShortVars(st.args) && ShortVars(vars) && forall s :: s in st.body ==> StmtWidth(s)
    ensures LoopGuarded(st, k, vars, mem)
    ensures SourceLoop(st, k, vars, mem).Some? ==> ShortVars(SourceLoop(st, k, vars, mem).value.0)
  {
    hide ExecBody, BodyGuarded, StmtWidth, ShortVars, FrameAt;
    if k > 0 {
      LoopShort(st, k - 1, vars, mem);
      var before := SourceLoop(st, k - 1, vars, mem);
      if before.Some? {
        FrameArguments(st, k - 1);
        BodyShort(st.body, FrameAt(st, k - 1), before.value.0, before.value.1);
      }
    }
  }

  lemma InitialisedShort(r: Region, k: nat, vars: Vars)
    requires k < |r.loops| && ShortVars(vars)
    ensures ShortVars(Initialised(r, k, vars))
  {
  }

  lemma {:induction false} RegionShort(r: Region, act: Actuals, k: nat, vars: Vars, mem: Mem)
    requires ShortVars(act.args) && ShortVars(vars) && RegionWidths(r) && k <= |r.loops|
    ensures SourceRegion(r, act, k, vars, mem).Some? ==> ShortVars(SourceRegion(r, act, k, vars, mem).value.0)
  {
    hide SourceLoop, SourceCount, Initialised, ShortVars, StmtWidth, LoopGuarded;
    if k > 0 {
      RegionShort(r, act, k - 1, vars, mem);
      var before := SourceRegion(r, act, k - 1, vars, mem);
      if before.Some? && SourceCount(r, act, k - 1).Some? {
        InitialisedShort(r, k - 1, before.value.0);
        LoopShort(SettingAt(r, act, k - 1), SourceCount(r, act, k - 1).value, Initialised(r, k - 1, before.value.0), before.value.1);
      }
    }
  }

  // A region whose statements have widths meets its guards on every input, if
  // no variable holds a 64-bit value before it.
  lemma WidthsGuard(r: Region, act: Actuals, vars: Vars, mem: Mem)
    requires ArgumentsBound(r, act) && RegionWidths(r) && ShortVars(vars)
    ensures RegionGuarded(r, act, vars, mem)
  {
    hide ArgumentsBound, SourceRegion, LoopGuarded, Initialised, ShortVars, StmtWidth, TripCount;
    ShortArguments(r, act);
    forall k | 0 <= k < |r.loops| && SourceRegion(r, act, k, vars, mem).Some?
      ensures var (vars', mem') := SourceRegion(r, act, k, vars, mem).value;
        LoopGuarded(SettingAt(r, act, k), TripCount(r, act, k), Initialised(r, k, vars'), mem')
    {
      RegionShort(r, act, k, vars, mem);
      var (vars1, mem1) := SourceRegion(r, act, k, vars, mem).value;
      InitialisedShort(r, k, vars1);
      LoopShort(SettingAt(r, act, k), TripCount(r, act, k), Initialised(r, k, vars1), mem1);
    }
  }
}
