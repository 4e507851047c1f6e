// Lowering keeps the meaning of a loop body: running the emitted code for one
// invocation performs the stores and the reduction contribution of the
// matching source iteration, whatever the variables held before it.

module LoweringMeaning {
  import opened Words
  import opened Hir
  import opened AccelIr
  import opened Lowering
  import opened ConstantOperands
  import opened Truncation

  // ------------------------------------------------------------------
  // Memory accesses of a body, in the order loop analysis records them
  // ------------------------------------------------------------------

  datatype Access = Access(buffer: nat, write: bool, index: Affine)

  function SubscriptAccess(env: KernelEnv, base: Expr, index: Expr, write: bool): seq<Access> {
    match TermSymbol(base)
    case None => []
    case Some(symbol) =>
      match CatalogBuffer(env.buffers, symbol)
      case None => []
      case Some(b) =>
        if b.binding < 0 then [] else [Access(b.binding, write, NormalizeIndex(index, env.counter))]
  }

  function ExprAccesses(env: KernelEnv, e: Expr): seq<Access> {
    match e
    case Unary(_, x) => ExprAccesses(env, x)
    case Binary(_, l, r) => ExprAccesses(env, l) + ExprAccesses(env, r)
    case Subscript(base, index) => SubscriptAccess(env, base, index, false) + ExprAccesses(env, index)
    case _ => []
  }

  function StmtAccesses(env: KernelEnv, stmt: Stmt): seq<Access> {
    ExprAccesses(env, stmt.rhs) +
    match stmt.lhs
    case Subscript(base, index) => SubscriptAccess(env, base, index, true) + ExprAccesses(env, index)
    case _ => []
  }

  function BodyAccesses(env: KernelEnv, body: seq<Stmt>): seq<Access>
    decreases |body|
  {
    if body == [] then []
    else BodyAccesses(env, body[..|body| - 1]) + StmtAccesses(env, body[|body| - 1])
  }

  // ------------------------------------------------------------------
  // One invocation beside one iteration
  // ------------------------------------------------------------------

  datatype Scene = Scene(env: KernelEnv, frame: Frame, inv: Invocation, mem: Mem, results: seq<Word>)

  function ElemOf(t: IrType): ElemType { if t.F32? then FloatElem else IntElem }

  function FrameBuffers(buffers: seq<Buffer>): seq<BufferName> {
    if buffers == [] then []
    else
      var b := buffers[0];
      [BufferName(b.symbol, ElemOf(b.elem), if b.binding < 0 then 0 else b.binding)] + FrameBuffers(buffers[1..])
  }

  function ArgumentValue(t: IrType, w: Word): Value {
    if t.F32? then FloatVal(w) else IntVal(w)
  }

  // Facts about the compiler's tables that earlier passes establish.
  ghost predicate WellFormed(env: KernelEnv) {
    && (forall i :: 0 <= i < |env.scalars| ==> IsScalarType(env.scalars[i].ty))
    && (forall b :: b in env.buffers && b.binding >= 0 ==> IsScalarType(b.elem))
    && (forall l1, l2 :: l1 in env.locals && l2 in env.locals && l1.index == l2.index ==> l1.symbol == l2.symbol)
    && (forall i :: 0 <= i < |env.scalars| ==>
         var l := FindLocal(env.locals, env.scalars[i].name); l.Some? ==> l.value.isParameter)
    && (var l := FindLocal(env.locals, env.counter); l.Some? ==> l.value.isLoopCounter)
    && (forall i, j :: 0 <= i < j < |env.results| ==> env.results[i].name != env.results[j].name)
    && (forall i :: 0 <= i < |env.results| && env.results[i].producer == env.kernelIndex ==> env.reduction.Some?)
    && (env.reduction.Some? ==>
         var r := env.reduction.value;
         && r.accumulator != env.counter
         && ScalarIndex(env.scalars, r.accumulator).None?
         && (r.entry.Some? && r.entry.value < |env.results| ==>
              env.results[r.entry.value] == ScalarResult(r.accumulator, env.kernelIndex)))
  }

  // The word a loop bound denotes: a constant, an int argument, or the
  // wrapping sum or difference of two bounds.
  function BoundWord(e: Expr, args: map<string, Value>): Word
    decreases e
  {
    match FoldConstant(e)
    case Some(c) => Wrap(c)
    case None =>
      var x := StripPar(e);
      match TermSymbol(x)
      case Some(s) => if s in args && args[s].IntVal? then args[s].w else 0
      case None =>
        if !x.Binary? then 0
        else
          StripParDecreases(e);
          if x.kind.Plus? then Add(BoundWord(x.left, args), BoundWord(x.right, args))
          else Sub(BoundWord(x.left, args), BoundWord(x.right, args))
  }

  // The word the loop counter starts from.
  function StartWord(env: KernelEnv, args: map<string, Value>): Word { BoundWord(env.start, args) }

  // The invocation and the iteration see the same arguments and buffers, and
  // lane g stands for counter value start + g.
  ghost predicate Matches(sc: Scene) {
    && sc.frame.counter == sc.env.counter
    && sc.frame.alu == sc.inv.alu
    && sc.frame.buffers == FrameBuffers(sc.env.buffers)
    && |sc.inv.uniforms| == |sc.env.scalars|
    && (forall i :: 0 <= i < |sc.env.scalars| ==>
         && sc.env.scalars[i].name in sc.frame.args
         && sc.frame.args[sc.env.scalars[i].name] == ArgumentValue(sc.env.scalars[i].ty, sc.inv.uniforms[i]))
    && (forall name :: name in sc.frame.args ==> ScalarIndex(sc.env.scalars, name).Some?)
    && sc.frame.counterValue == Wrap(StartWord(sc.env, sc.frame.args) + sc.inv.lane)
    && |sc.results| == |sc.env.results|
  }

  function Now(sc: Scene, s: LowerState): Machine {
    Run(s.code, |s.code|, sc.inv, sc.mem, sc.results)
  }

  predicate Holds(m: Machine, v: LowerValue) {
    v.value < |m.vals| && m.vals[v.value].ty == v.ty
  }

  ghost predicate LocalTracked(sc: Scene, s: LowerState, m: Machine, vars: Vars, name: string) {
    var l := FindLocal(sc.env.locals, name);
    l.Some? && l.value.index in s.locals ==>
      var v := s.locals[l.value.index];
      && Holds(m, v) && name in vars && Rep(v.ty, m.vals[v.value].bits, vars[name])
      && !(sc.env.reduction.Some? && sc.env.reduction.value.accumulator == name)
  }

  ghost predicate ResultTracked(sc: Scene, m: Machine, vars: Vars, j: nat) {
    j < |sc.env.results| && sc.env.results[j].producer <= sc.env.kernelIndex ==>
      sc.env.results[j].name in vars && j < |m.results|
      && vars[sc.env.results[j].name] == IntVal(m.results[j])
  }

  ghost predicate Sim(sc: Scene, s: LowerState, m: Machine, vars: Vars) {
    && |m.vals| == |s.types|
    && (forall v :: 0 <= v < |s.types| ==> m.vals[v].ty == s.types[v])
    && |m.results| == |sc.results|
    && SameShape(sc.mem, m.mem)
    && (s.globalIndex.Some? ==>
         s.globalIndex.value < |m.vals| && m.vals[s.globalIndex.value] == Cell(IndexType, sc.inv.lane))
    && (forall i :: i in s.uniforms ==>
         && i < |sc.env.scalars| && s.uniforms[i] < |m.vals|
         && i < |sc.inv.uniforms|
         && m.vals[s.uniforms[i]] == Cell(sc.env.scalars[i].ty, sc.inv.uniforms[i]))
    && (forall name :: LocalTracked(sc, s, m, vars, name))
    && (forall j: nat :: ResultTracked(sc, m, vars, j))
  }

  function AddressWord(sc: Scene, a: Access): Word {
    AffineWord(a.index, sc.frame.counterValue, sc.frame.args)
  }

  predicate Fits(sc: Scene, a: Access) {
    a.buffer < |sc.mem| && AddressWord(sc, a) < |sc.mem[a.buffer]| <= 0x8000_0000
  }

  predicate IsMemoryInstr(i: Instr) { i.Load? || i.Store? }

  // The instruction performs one of the listed accesses at its address.
  ghost predicate AddressedBy(sc: Scene, code: seq<Instr>, n: nat, a: Access)
    requires n < |code| && IsMemoryInstr(code[n])
  {
    && code[n].buffer == a.buffer
    && code[n].Store? == a.write
    && ValueOf(Run(code, n, sc.inv, sc.mem, sc.results), code[n].index).bits == AddressWord(sc, a)
  }

  ghost predicate Addressed(sc: Scene, code: seq<Instr>, accesses: seq<Access>) {
    forall n :: 0 <= n < |code| && IsMemoryInstr(code[n]) ==>
      exists a :: a in accesses && AddressedBy(sc, code, n, a)
  }

  ghost predicate Ready(sc: Scene, s: LowerState, vars: Vars, accesses: seq<Access>) {
    && WellFormed(sc.env) && Matches(sc)
    && Sim(sc, s, Now(sc, s), vars)
    && Addressed(sc, s.code, accesses)
  }

  // s1 extends s by code without stores or atomic adds.
  ghost predicate Grown(sc: Scene, s: LowerState, s1: LowerState) {
    && Now(sc, s).vals <= Now(sc, s1).vals
    && Now(sc, s1).mem == Now(sc, s).mem
    && Now(sc, s1).results == Now(sc, s).results
    && s1.locals == s.locals
  }

  predicate Pure(i: Instr) { !i.Store? && !i.AtomicAdd? }

  // ------------------------------------------------------------------
  // Appending one instruction
  // ------------------------------------------------------------------

  lemma AddressedSnoc(sc: Scene, code: seq<Instr>, i: Instr, accesses: seq<Access>)
    requires Addressed(sc, code, accesses)
    requires IsMemoryInstr(i) ==>
      exists a :: a in accesses && i.buffer == a.buffer && i.Store? == a.write
        && ValueOf(Run(code, |code|, sc.inv, sc.mem, sc.results), i.index).bits == AddressWord(sc, a)
    ensures Addressed(sc, code + [i], accesses)
  {
    var code1 := code + [i];
    forall n | 0 <= n < |code1| && IsMemoryInstr(code1[n])
      ensures exists a :: a in accesses && AddressedBy(sc, code1, n, a)
    {
      RunOfPrefix(code, [i], n, sc.inv, sc.mem, sc.results);
      if n < |code| {
        var a :| a in accesses && AddressedBy(sc, code, n, a);
        assert AddressedBy(sc, code1, n, a);
      } else {
        var a :| a in accesses && i.buffer == a.buffer && i.Store? == a.write
          && ValueOf(Run(code, |code|, sc.inv, sc.mem, sc.results), i.index).bits == AddressWord(sc, a);
        assert AddressedBy(sc, code1, n, a);
      }
    }
  }

  lemma SimGrown(sc: Scene, s: LowerState, m: Machine, cell: Cell, vars: Vars)
    requires Sim(sc, s, m, vars)
    ensures Sim(sc, s.(types := s.types + [cell.ty]), m.(vals := m.vals + [cell]), vars)
  {
    var s1, m1 := s.(types := s.types + [cell.ty]), m.(vals := m.vals + [cell]);
    forall name ensures LocalTracked(sc, s1, m1, vars, name) {
      assert LocalTracked(sc, s, m, vars, name);
    }
    forall j: nat ensures ResultTracked(sc, m1, vars, j) {
      assert ResultTracked(sc, m, vars, j);
    }
  }

  lemma SimIgnoresCode(sc: Scene, s: LowerState, s1: LowerState, m: Machine, vars: Vars)
    requires Sim(sc, s, m, vars)
    requires s1.types == s.types && s1.locals == s.locals
    requires s1.globalIndex == s.globalIndex && s1.uniforms == s.uniforms
    ensures Sim(sc, s1, m, vars)
  {
    forall name ensures LocalTracked(sc, s1, m, vars, name) {
      assert LocalTracked(sc, s, m, vars, name);
    }
  }

  lemma AppendPure(sc: Scene, s: LowerState, i: Instr, vars: Vars, accesses: seq<Access>)
    requires Ready(sc, s, vars, accesses)
    requires Append(s, i).Success? && Pure(i) && !ResultType(i).VoidType?
    requires i.Load? ==>
      exists a :: a in accesses && i.buffer == a.buffer && !a.write
        && ValueOf(Now(sc, s), i.index).bits == AddressWord(sc, a)
    ensures var (s1, v) := Append(s, i).value;
      && Ready(sc, s1, vars, accesses)
      && Grown(sc, s, s1)
      && Now(sc, s1) == Step(i, sc.inv, Now(sc, s))
      && Holds(Now(sc, s1), v) && v.value == |Now(sc, s).vals|
      && v.ty == ResultType(i)
      && s1.types == s.types + [v.ty]
      && s1.globalIndex == s.globalIndex && s1.uniforms == s.uniforms
  {
    hide Operate, IntOperate, FloatOperate, MemAt, WellFormed, Matches;
    var s1 := Append(s, i).value.0;
    var m, m1 := Now(sc, s), Now(sc, s1);
    RunSnoc(s.code, i, sc.inv, sc.mem, sc.results);
    assert m1 == Step(i, sc.inv, m);
    var cell := m1.vals[|m.vals|];
    assert m1 == m.(vals := m.vals + [cell]) && cell.ty == ResultType(i);
    SimGrown(sc, s, m, cell, vars);
    SimIgnoresCode(sc, s.(types := s.types + [cell.ty]), s1, m1, vars);
    AddressedSnoc(sc, s.code, i, accesses);
  }

  // s1 extends s, and value v of s1 is the word w.
  ghost predicate Yields(
    sc: Scene, s: LowerState, s1: LowerState, v: LowerValue, w: Word, vars: Vars, accesses: seq<Access>)
  {
    && Ready(sc, s1, vars, accesses)
    && Grown(sc, s, s1)
    && Holds(Now(sc, s1), v)
    && Now(sc, s1).vals[v.value].bits == w
  }

  lemma SimWithUniform(sc: Scene, s: LowerState, m: Machine, scalar: nat, v: nat, vars: Vars)
    requires Sim(sc, s, m, vars)
    requires scalar < |sc.env.scalars| && scalar < |sc.inv.uniforms| && v < |m.vals|
    requires m.vals[v] == Cell(sc.env.scalars[scalar].ty, sc.inv.uniforms[scalar])
    ensures Sim(sc, s.(uniforms := s.uniforms[scalar := v]), m, vars)
  {
    var s1 := s.(uniforms := s.uniforms[scalar := v]);
    forall name ensures LocalTracked(sc, s1, m, vars, name) {
      assert LocalTracked(sc, s, m, vars, name);
    }
  }

  lemma UniformCached(sc: Scene, s: LowerState, scalar: nat, vars: Vars, accesses: seq<Access>)
    requires Ready(sc, s, vars, accesses) && scalar in s.uniforms
    ensures scalar < |sc.env.scalars| == |sc.inv.uniforms|
    ensures Yields(sc, s, s, LowerValue(s.uniforms[scalar], sc.env.scalars[scalar].ty), sc.inv.uniforms[scalar], vars, accesses)
  {
    hide Addressed, Run, LocalTracked, ResultTracked, WellFormed;
  }

  // A fresh uniform instruction is remembered.
  lemma UniformKept(sc: Scene, s: LowerState, s1: LowerState, scalar: nat, v: LowerValue, vars: Vars, accesses: seq<Access>)
    requires Ready(sc, s1, vars, accesses) && Grown(sc, s, s1) && scalar < |sc.env.scalars| && scalar < |sc.inv.uniforms|
    requires v.value < |Now(sc, s1).vals| && Now(sc, s1).vals[v.value] == Cell(v.ty, sc.inv.uniforms[scalar])
    requires v.ty == sc.env.scalars[scalar].ty
    ensures Yields(sc, s, s1.(uniforms := s1.uniforms[scalar := v.value]), v, sc.inv.uniforms[scalar], vars, accesses)
  {
    hide Sim, Addressed, Run, WellFormed, Matches;
    SimWithUniform(sc, s1, Now(sc, s1), scalar, v.value, vars);
  }

  lemma UniformMeaning(sc: Scene, s: LowerState, scalar: nat, vars: Vars, accesses: seq<Access>)
    requires Ready(sc, s, vars, accesses) && LowerUniform(s, sc.env, scalar).Success?
    ensures var (s1, v) := LowerUniform(s, sc.env, scalar).value;
      && scalar < |sc.env.scalars| == |sc.inv.uniforms|
      && v.ty == sc.env.scalars[scalar].ty
      && Yields(sc, s, s1, v, sc.inv.uniforms[scalar], vars, accesses)
  {
    hide Ready, Grown, Yields, Operate, Run;
    if scalar in s.uniforms {
      UniformCached(sc, s, scalar, vars, accesses);
    } else {
      var i := Uniform(sc.env.scalars[scalar].ty, scalar);
      UniformsMatch(sc, s, vars, accesses);
      AppendPure(sc, s, i, vars, accesses);
      var (s1, v) := Append(s, i).value;
      UniformKept(sc, s, s1, scalar, v, vars, accesses);
    }
  }

  lemma UniformsMatch(sc: Scene, s: LowerState, vars: Vars, accesses: seq<Access>)
    requires Ready(sc, s, vars, accesses)
    ensures |sc.env.scalars| == |sc.inv.uniforms|
    ensures forall i :: 0 <= i < |sc.env.scalars| ==> !sc.env.scalars[i].ty.VoidType?
  {
    hide Sim, Addressed, Run;
  }

  lemma SimWithLane(sc: Scene, s: LowerState, m: Machine, v: nat, vars: Vars)
    requires Sim(sc, s, m, vars)
    requires v < |m.vals| && m.vals[v] == Cell(IndexType, sc.inv.lane)
    ensures Sim(sc, s.(globalIndex := Some(v)), m, vars)
  {
    var s1 := s.(globalIndex := Some(v));
    forall name ensures LocalTracked(sc, s1, m, vars, name) {
      assert LocalTracked(sc, s, m, vars, name);
    }
  }

  lemma GlobalIndexMeaning(sc: Scene, s: LowerState, vars: Vars, accesses: seq<Access>)
    requires Ready(sc, s, vars, accesses) && LowerGlobalIndex(s).Success?
    ensures var (s1, v) := LowerGlobalIndex(s).value;
      v.ty.IndexType? && Yields(sc, s, s1, v, sc.inv.lane, vars, accesses)
  {
    hide Operate, MemAt, MemPut, Addressed, Run, LocalTracked, ResultTracked;
    if s.globalIndex.None? {
      AppendPure(sc, s, GlobalIndex, vars, accesses);
      var (s1, v) := Append(s, GlobalIndex).value;
      SimWithLane(sc, s1, Now(sc, s1), v.value, vars);
    }
  }

  // Two growth steps in a row keep earlier values.
  lemma YieldsAfter(
    sc: Scene, s: LowerState, s1: LowerState, v1: LowerValue, w1: Word,
    s2: LowerState, v2: LowerValue, w2: Word, vars: Vars, accesses: seq<Access>)
    requires Yields(sc, s, s1, v1, w1, vars, accesses)
    requires Yields(sc, s1, s2, v2, w2, vars, accesses)
    ensures Yields(sc, s, s2, v2, w2, vars, accesses)
    ensures Holds(Now(sc, s2), v1) && Now(sc, s2).vals[v1.value] == Now(sc, s1).vals[v1.value]
  {
    hide Ready, Run;
  }

  // ------------------------------------------------------------------
  // Index arithmetic
  // ------------------------------------------------------------------

  lemma AdjustIndexMeaning(
    sc: Scene, s: LowerState, base: LowerValue, adjustment: LowerValue, subtract: bool, vars: Vars, accesses: seq<Access>)
    requires Ready(sc, s, vars, accesses) && AdjustIndex(s, base, adjustment, subtract).Success?
    requires Holds(Now(sc, s), base) && Holds(Now(sc, s), adjustment)
    ensures var (s1, v) := AdjustIndex(s, base, adjustment, subtract).value;
      var a, b := Now(sc, s).vals[base.value].bits, Now(sc, s).vals[adjustment.value].bits;
      v.ty.IndexType? && Yields(sc, s, s1, v, if subtract then Sub(a, b) else Add(a, b), vars, accesses)
  {
    hide MemAt, MemPut, Addressed, BitWord, DivWord, ModWord;
    AppendPure(sc, s, BinaryInstr(if subtract then SubOp else AddOp, IndexType, base.value, adjustment.value), vars, accesses);
  }

  lemma AdjustConstantMeaning(sc: Scene, s: LowerState, base: LowerValue, constant: int, vars: Vars, accesses: seq<Access>)
    requires Ready(sc, s, vars, accesses) && AdjustConstant(s, base, constant).Success?
    requires Holds(Now(sc, s), base) && base.ty.IndexType?
    ensures var (s1, v) := AdjustConstant(s, base, constant).value;
      v.ty.IndexType?
      && Yields(sc, s, s1, v, Wrap(Now(sc, s).vals[base.value].bits + constant), vars, accesses)
  {
    hide Wrap, Ready, Operate, Run;
    var w := Now(sc, s).vals[base.value].bits;
    AddSubWord(w, constant, 0);
    if constant != 0 {
      AppendPure(sc, s, ConstI32(Wrap(constant)), vars, accesses);
      var (s1, c) := Append(s, ConstI32(Wrap(constant))).value;
      AdjustIndexMeaning(sc, s1, base, c, false, vars, accesses);
    }
  }

  lemma AdjustScalarMeaning(
    sc: Scene, s: LowerState, base: LowerValue, name: Option<string>, subtract: bool, vars: Vars, accesses: seq<Access>)
    requires Ready(sc, s, vars, accesses) && AdjustScalar(s, sc.env, base, name, subtract).Success?
    requires Holds(Now(sc, s), base) && base.ty.IndexType?
    ensures name.Some? && name.value in sc.frame.args && sc.frame.args[name.value].IntVal?
    ensures var (s1, v) := AdjustScalar(s, sc.env, base, name, subtract).value;
      var a, b := Now(sc, s).vals[base.value].bits, sc.frame.args[name.value].w;
      v.ty.IndexType? && Yields(sc, s, s1, v, if subtract then Sub(a, b) else Add(a, b), vars, accesses)
  {
    hide Operate, Run, Sim, Addressed, Add, Sub;
    var i := ScalarIndex(sc.env.scalars, name.value).value;
    UniformMeaning(sc, s, i, vars, accesses);
    var (s1, u) := LowerUniform(s, sc.env, i).value;
    AdjustIndexMeaning(sc, s1, base, u, subtract, vars, accesses);
  }

  lemma StartMeaning(sc: Scene, s: LowerState, lane: LowerValue, vars: Vars, accesses: seq<Access>)
    requires Ready(sc, s, vars, accesses) && LowerStart(s, sc.env, lane).Success?
    requires Holds(Now(sc, s), lane) && lane.ty.IndexType? && Now(sc, s).vals[lane.value].bits == sc.inv.lane
    ensures var (s1, v) := LowerStart(s, sc.env, lane).value;
      v.ty.IndexType? && Yields(sc, s, s1, v, sc.frame.counterValue, vars, accesses)
  {
    hide Operate, Run, Sim, Addressed, Wrap, Yields, FoldConstant;
    var g := sc.inv.lane;
    match FoldConstant(sc.env.start)
    case Some(c) =>
      AdjustConstantMeaning(sc, s, lane, c, vars, accesses);
      WrapOfSum(c, g);
    case None =>
      AdjustScalarMeaning(sc, s, lane, TermSymbol(StripPar(sc.env.start)), false, vars, accesses);
      AddSubWord(g, 0, StartWord(sc.env, sc.frame.args));
  }

  // The emitted dispatch index is, modulo 2^32, start + lane +/- invariant +
  // offset: the word the source index denotes.
  lemma IndexMeaning(sc: Scene, s: LowerState, e: Expr, vars: Vars, accesses: seq<Access>)
    requires Ready(sc, s, vars, accesses) && LowerIndex(s, sc.env, e).Success?
    ensures var (s1, v) := LowerIndex(s, sc.env, e).value;
      var affine := NormalizeIndex(e, sc.env.counter);
      && affine.kind.CounterOffset? && AffineBound(affine, sc.env.counter, sc.frame.args)
      && v.ty.IndexType?
      && Yields(sc, s, s1, v, AffineWord(affine, sc.frame.counterValue, sc.frame.args), vars, accesses)
  {
    hide Operate, Run, Sim, Addressed, Wrap, Ready, LowerStart, AdjustScalar, AdjustConstant, LowerGlobalIndex, Matches, WellFormed, NormalizeIndex;
    var affine := NormalizeIndex(e, sc.env.counter);
    GlobalIndexMeaning(sc, s, vars, accesses);
    var (s1, lane) := LowerGlobalIndex(s).value;
    StartMeaning(sc, s1, lane, vars, accesses);
    var (s2, counter) := LowerStart(s1, sc.env, lane).value;
    var c := sc.frame.counterValue;
    YieldsAfter(sc, s, s1, lane, sc.inv.lane, s2, counter, c, vars, accesses);
    if affine.symbol.Some? {
      NormalizedSymbol(e, sc.env.counter);
      AdjustScalarMeaning(sc, s2, counter, affine.symbol, affine.sign < 0, vars, accesses);
      var (s3, shifted) := AdjustScalar(s2, sc.env, counter, affine.symbol, affine.sign < 0).value;
      AdjustConstantMeaning(sc, s3, shifted, affine.offset, vars, accesses);
      var w := sc.frame.args[affine.symbol.value].w;
      AddSubWord(c, 0, w);
      var (base: int, shift: int) := (c, w);
      var sum := if affine.sign < 0 then base - shift else base + shift;
      WrapOfSum(sum, affine.offset);
    } else {
      AdjustConstantMeaning(sc, s2, counter, affine.offset, vars, accesses);
    }
  }

  lemma NormalizedSymbol(e: Expr, counter: string)
    ensures NormalizeIndex(e, counter).kind.CounterOffset? && NormalizeIndex(e, counter).symbol.Some? ==>
      NormalizeIndex(e, counter).symbol.value != counter
  {
  }

  // ------------------------------------------------------------------
  // Expressions
  // ------------------------------------------------------------------

  // A typed IR value stands for a source value of its own type; a Boolean is
  // an int 0 or 1.
  predicate Rep(t: IrType, bits: Word, v: Value) {
    match t
    case I32 => v == IntVal(bits)
    case F32 => v == FloatVal(bits)
    case BoolType => (bits == 0 || bits == 1) && v == IntVal(bits)
    case _ => false
  }

  // Value v of s1 stands for the source value x.
  ghost predicate YieldsValue(
    sc: Scene, s: LowerState, s1: LowerState, v: LowerValue, x: Value, vars: Vars, accesses: seq<Access>)
  {
    && Ready(sc, s1, vars, accesses)
    && Grown(sc, s, s1)
    && Holds(Now(sc, s1), v)
    && Rep(v.ty, Now(sc, s1).vals[v.value].bits, x)
  }

  lemma ValueAfter(
    sc: Scene, s: LowerState, s1: LowerState, v1: LowerValue, x1: Value,
    s2: LowerState, v2: LowerValue, x2: Value, vars: Vars, accesses: seq<Access>)
    requires YieldsValue(sc, s, s1, v1, x1, vars, accesses)
    requires YieldsValue(sc, s1, s2, v2, x2, vars, accesses)
    ensures YieldsValue(sc, s, s2, v2, x2, vars, accesses)
    ensures YieldsValue(sc, s, s2, v1, x1, vars, accesses)
  {
    hide Ready, Run;
  }

  lemma CoerceMeaning(
    sc: Scene, s0: LowerState, s: LowerState, v: LowerValue, x: Value, expected: IrType, vars: Vars, accesses: seq<Access>)
    requires YieldsValue(sc, s0, s, v, x, vars, accesses) && Coerce(s, v, expected).Success?
    ensures var (s1, v1) := Coerce(s, v, expected).value;
      YieldsValue(sc, s0, s1, v1, x, vars, accesses) && (expected.VoidType? || v1.ty == expected)
  {
    hide Ready, Run, Operate, MemAt;
    if !expected.VoidType? && expected != v.ty {
      AppendPure(sc, s, ConstI32(1), vars, accesses);
      var (s1, one) := Append(s, ConstI32(1)).value;
      AppendPure(sc, s1, ConstI32(0), vars, accesses);
      var (s2, zero) := Append(s1, ConstI32(0)).value;
      AppendPure(sc, s2, SelectInstr(I32, v.value, one.value, zero.value), vars, accesses);
    }
  }

  lemma ResultMeaning(sc: Scene, s: LowerState, entry: nat, vars: Vars, accesses: seq<Access>)
    requires Ready(sc, s, vars, accesses) && LowerResult(s, entry).Success?
    requires entry < |sc.env.results| && sc.env.results[entry].producer <= sc.env.kernelIndex
    ensures var (s1, v) := LowerResult(s, entry).value;
      sc.env.results[entry].name in vars
      && YieldsValue(sc, s, s1, v, vars[sc.env.results[entry].name], vars, accesses)
  {
    hide Operate, MemAt, Addressed, Run, LocalTracked, WellFormed, Matches;
    assert ResultTracked(sc, Now(sc, s), vars, entry);
    AppendPure(sc, s, LoadResult(entry), vars, accesses);
    var (s1, v) := Append(s, LoadResult(entry)).value;
    SimIgnoresCode(sc, s1, LowerResult(s, entry).value.0, Now(sc, s1), vars);
  }

  // A parameter's uniform is its argument.
  lemma ParameterMeaning(sc: Scene, s: LowerState, name: string, vars: Vars, accesses: seq<Access>)
    requires Ready(sc, s, vars, accesses) && name != sc.env.counter && ScalarIndex(sc.env.scalars, name).Some?
    requires LowerUniform(s, sc.env, ScalarIndex(sc.env.scalars, name).value).Success?
    ensures var (s1, v) := LowerUniform(s, sc.env, ScalarIndex(sc.env.scalars, name).value).value;
      var x := LookupName(name, sc.frame, vars);
      x.Some? && YieldsValue(sc, s, s1, v, x.value, vars, accesses)
  {
    hide Run, Sim, Addressed, LowerUniform;
    UniformMeaning(sc, s, ScalarIndex(sc.env.scalars, name).value, vars, accesses);
  }

  lemma NoArgument(sc: Scene, s: LowerState, name: string, vars: Vars, accesses: seq<Access>)
    requires Ready(sc, s, vars, accesses) && name != sc.env.counter && ScalarIndex(sc.env.scalars, name).None?
    ensures LookupName(name, sc.frame, vars) == if name in vars then Some(vars[name]) else None
  {
    hide Run, Sim, Addressed;
  }

  // A local's current value.
  lemma LocalMeaning(sc: Scene, s: LowerState, name: string, vars: Vars, accesses: seq<Access>)
    requires Ready(sc, s, vars, accesses)
    requires FindLocal(sc.env.locals, name).Some? && FindLocal(sc.env.locals, name).value.index in s.locals
    ensures name in vars
    ensures YieldsValue(sc, s, s, s.locals[FindLocal(sc.env.locals, name).value.index], vars[name], vars, accesses)
  {
    hide Run, Addressed, Wrap, ResultTracked, Matches, WellFormed;
    assert LocalTracked(sc, s, Now(sc, s), vars, name);
  }

  lemma SymbolMeaning(sc: Scene, s: LowerState, name: string, vars: Vars, accesses: seq<Access>)
    requires Ready(sc, s, vars, accesses) && LowerSymbol(s, sc.env, name).Success?
    ensures var (s1, v) := LowerSymbol(s, sc.env, name).value;
      var x := LookupName(name, sc.frame, vars);
      x.Some? && YieldsValue(sc, s, s1, v, x.value, vars, accesses)
  {
    hide Ready, YieldsValue, Run, LookupName, LowerUniform, LowerResult;
    if ScalarIndex(sc.env.scalars, name).Some? {
      ParameterMeaning(sc, s, name, vars, accesses);
    } else {
      NoArgument(sc, s, name, vars, accesses);
      match ResultIndex(sc.env, name, 0)
      case Some(entry) => ResultMeaning(sc, s, entry, vars, accesses);
      case None => LocalMeaning(sc, s, name, vars, accesses);
    }
  }

  lemma {:induction false} FrameBufferFinds(buffers: seq<Buffer>, symbol: string)
    requires CatalogBuffer(buffers, symbol).Some? && CatalogBuffer(buffers, symbol).value.binding >= 0
    ensures var b := CatalogBuffer(buffers, symbol).value;
      b in buffers
      && FindBuffer(FrameBuffers(buffers), symbol) == Some(BufferName(symbol, ElemOf(b.elem), b.binding))
  {
    if buffers[0].symbol != symbol {
      FrameBufferFinds(buffers[1..], symbol);
    }
  }

  lemma FitsSigned(sc: Scene, a: Access)
    requires Fits(sc, a)
    ensures Signed(AddressWord(sc, a)) == AddressWord(sc, a)
  {
    hide AffineWord;
  }

  // The source subscript reads the element at its address.
  lemma SubscriptReads(sc: Scene, base: Expr, index: Expr, vars: Vars, mem: Mem)
    requires Matches(sc) && SameShape(sc.mem, mem)
    requires TermSymbol(base).Some? && CatalogBuffer(sc.env.buffers, TermSymbol(base).value).Some?
    requires NormalizeIndex(index, sc.env.counter).kind.CounterOffset?
    requires AffineBound(NormalizeIndex(index, sc.env.counter), sc.env.counter, sc.frame.args)
    requires var b := CatalogBuffer(sc.env.buffers, TermSymbol(base).value).value;
      b.binding >= 0 && Fits(sc, Access(b.binding, false, NormalizeIndex(index, sc.env.counter)))
    ensures var b := CatalogBuffer(sc.env.buffers, TermSymbol(base).value).value;
      var a := Access(b.binding, false, NormalizeIndex(index, sc.env.counter));
      && b in sc.env.buffers
      && Eval(Subscript(base, index), sc.frame, vars, mem)
         == Some(ElemValue(ElemOf(b.elem), MemAt(mem, b.binding, AddressWord(sc, a))))
  {
    hide AffineWord, NormalizeIndex, AffineBound;
    var b := CatalogBuffer(sc.env.buffers, TermSymbol(base).value).value;
    FrameBufferFinds(sc.env.buffers, TermSymbol(base).value);
    NormalizeMeaning(index, sc.frame, vars, mem);
    FitsSigned(sc, Access(b.binding, false, NormalizeIndex(index, sc.env.counter)));
  }

  lemma SubscriptMeaning(sc: Scene, s: LowerState, base: Expr, index: Expr, vars: Vars, accesses: seq<Access>)
    requires Ready(sc, s, vars, accesses) && LowerSubscript(s, sc.env, base, index).Success?
    requires forall a :: a in SubscriptAccess(sc.env, base, index, false) ==> a in accesses && Fits(sc, a)
    ensures var (s1, v) := LowerSubscript(s, sc.env, base, index).value;
      var x := Eval(Subscript(base, index), sc.frame, vars, Now(sc, s).mem);
      x.Some? && YieldsValue(sc, s, s1, v, x.value, vars, accesses) && IsScalarType(v.ty)
  {
    hide Run, Addressed, NormalizeIndex, AffineWord, Operate, LowerIndex, LocalTracked, ResultTracked, Eval, Matches, Fits, MemAt;
    var symbol := TermSymbol(base).value;
    var b := CatalogBuffer(sc.env.buffers, symbol).value;
    var a := Access(b.binding, false, NormalizeIndex(index, sc.env.counter));
    assert SubscriptAccess(sc.env, base, index, false) == [a];
    IndexMeaning(sc, s, index, vars, accesses);
    SubscriptReads(sc, base, index, vars, Now(sc, s).mem);
    var (s1, at) := LowerIndex(s, sc.env, index).value;
    AppendPure(sc, s1, Load(b.elem, b.binding, at.value), vars, accesses);
  }

  ghost predicate AllFit(sc: Scene, some: seq<Access>, accesses: seq<Access>) {
    forall a :: a in some ==> a in accesses && Fits(sc, a)
  }

  lemma {:induction false} ExprMeaning(
    sc: Scene, s: LowerState, e: Expr, expected: IrType, vars: Vars, accesses: seq<Access>)
    requires Ready(sc, s, vars, accesses) && LowerExpr(s, sc.env, e, expected).Success?
    requires AllFit(sc, ExprAccesses(sc.env, e), accesses)
    ensures var (s1, v) := LowerExpr(s, sc.env, e, expected).value;
      var x := EvalTruncated(e, sc.frame, vars, Now(sc, s).mem);
      && x.Some? && YieldsValue(sc, s, s1, v, x.value, vars, accesses)
      && (expected.VoidType? || v.ty == expected)
    decreases e, 1
  {
    hide Ready, YieldsValue, Run, ApplyBinary, LookupName, ReadElement, LowerSymbol, LowerSubscript, LowerBinary, LowerComparison, Wrap;
    match e
    case TermExpr(_) => TermMeaning(sc, s, e, expected, vars, accesses);
    case Unary(Par, x) => ExprMeaning(sc, s, x, expected, vars, accesses);
    case Unary(Neg, x) => NegMeaning(sc, s, e, expected, vars, accesses);
    case Subscript(base, index) =>
      SubscriptMeaning(sc, s, base, index, vars, accesses);
      var (s1, v) := LowerSubscript(s, sc.env, base, index).value;
      CoerceMeaning(sc, s, s1, v, Eval(e, sc.frame, vars, Now(sc, s).mem).value, expected, vars, accesses);
    case Binary(kind, l, r) =>
      OperationMeaning(sc, s, e, expected, vars, accesses);
      var (s1, v) := (if CompareOpcode(kind).Some? then LowerComparison(s, sc.env, kind, l, r) else LowerBinary(s, sc.env, kind, l, r, expected)).value;
      CoerceMeaning(sc, s, s1, v, EvalTruncated(e, sc.frame, vars, Now(sc, s).mem).value, expected, vars, accesses);
  }

  // Literals and names.
  lemma TermMeaning(sc: Scene, s: LowerState, e: Expr, expected: IrType, vars: Vars, accesses: seq<Access>)
    requires Ready(sc, s, vars, accesses) && e.TermExpr? && LowerExpr(s, sc.env, e, expected).Success?
    ensures var (s1, v) := LowerExpr(s, sc.env, e, expected).value;
      var x := Eval(e, sc.frame, vars, Now(sc, s).mem);
      && x.Some? && YieldsValue(sc, s, s1, v, x.value, vars, accesses)
      && (expected.VoidType? || v.ty == expected)
  {
    hide Ready, Run, Operate, MemAt, ApplyBinary, LookupName, LowerSymbol, Coerce, Wrap;
    match e.term
    case IntTerm(i) =>
      AppendPure(sc, s, ConstI32(Wrap(i)), vars, accesses);
      var (s1, v) := Append(s, ConstI32(Wrap(i))).value;
      CoerceMeaning(sc, s, s1, v, IntVal(Wrap(i)), expected, vars, accesses);
    case FloatTerm(b) =>
      AppendPure(sc, s, ConstF32(b), vars, accesses);
      var (s1, v) := Append(s, ConstF32(b)).value;
      CoerceMeaning(sc, s, s1, v, FloatVal(b), expected, vars, accesses);
    case SymbolTerm(n) =>
      SymbolMeaning(sc, s, n, vars, accesses);
      var (s1, v) := LowerSymbol(s, sc.env, n).value;
      CoerceMeaning(sc, s, s1, v, LookupName(n, sc.frame, vars).value, expected, vars, accesses);
  }

  // Zero minus the operand.
  lemma NegateEmits(
    sc: Scene, s: LowerState, s1: LowerState, v: LowerValue, y: Value, vars: Vars, accesses: seq<Access>)
    requires YieldsValue(sc, s, s1, v, y, vars, accesses) && v.ty.I32?
    requires Append(s1, ConstI32(0)).Success?
    requires var (s2, zero) := Append(s1, ConstI32(0)).value; Append(s2, BinaryInstr(SubOp, I32, zero.value, v.value)).Success?
    ensures var (s2, zero) := Append(s1, ConstI32(0)).value;
      var (s3, r) := Append(s2, BinaryInstr(SubOp, I32, zero.value, v.value)).value;
      Negate(y).Some? && r.ty.I32? && YieldsValue(sc, s, s3, r, Negate(y).value, vars, accesses)
  {
    hide Ready, Run, MemAt, Wrap, BitWord, DivWord, ModWord;
    AppendPure(sc, s1, ConstI32(0), vars, accesses);
    var (s2, zero) := Append(s1, ConstI32(0)).value;
    AppendPure(sc, s2, BinaryInstr(SubOp, I32, zero.value, v.value), vars, accesses);
  }

  lemma {:induction false} NegMeaning(sc: Scene, s: LowerState, e: Expr, expected: IrType, vars: Vars, accesses: seq<Access>)
    requires e.Unary? && e.unary.Neg?
    requires Ready(sc, s, vars, accesses) && LowerExpr(s, sc.env, e, expected).Success?
    requires AllFit(sc, ExprAccesses(sc.env, e.operand), accesses)
    ensures var (s1, v) := LowerExpr(s, sc.env, e, expected).value;
      var n := EvalTruncated(e, sc.frame, vars, Now(sc, s).mem);
      && n.Some? && YieldsValue(sc, s, s1, v, n.value, vars, accesses)
      && (expected.VoidType? || v.ty == expected)
    decreases e, 0
  {
    hide Ready, YieldsValue, Run, Append, Coerce, Negate;
    ExprMeaning(sc, s, e.operand, VoidType, vars, accesses);
    var (s1, v) := LowerExpr(s, sc.env, e.operand, VoidType).value;
    var y := EvalTruncated(e.operand, sc.frame, vars, Now(sc, s).mem).value;
    NegateEmits(sc, s, s1, v, y, vars, accesses);
    var (s2, zero) := Append(s1, ConstI32(0)).value;
    var (s3, r) := Append(s2, BinaryInstr(SubOp, I32, zero.value, v.value)).value;
    CoerceMeaning(sc, s, s3, r, Negate(y).value, expected, vars, accesses);
  }

  lemma TruncatedBinary(e: Expr, frame: Frame, vars: Vars, mem: Mem)
    requires e.Binary? && ConstantOperand(e.kind).None?
    requires EvalTruncated(e.left, frame, vars, mem).Some? && EvalTruncated(e.right, frame, vars, mem).Some?
    ensures EvalTruncated(e, frame, vars, mem) ==
      ApplyBinary(e.kind, EvalTruncated(e.left, frame, vars, mem).value, EvalTruncated(e.right, frame, vars, mem).value, frame.alu)
  {
    hide ApplyBinary;
  }

  // The right operand is the folded number.
  lemma TruncatedByConstant(e: Expr, frame: Frame, vars: Vars, mem: Mem)
    requires e.Binary? && ConstantOperand(e.kind).Some? && FoldConstant(e.right).Some?
    requires ConstantAllowed(e.kind, FoldConstant(e.right).value) && EvalTruncated(e.left, frame, vars, mem).Some?
    ensures EvalTruncated(e, frame, vars, mem) ==
      ApplyBinary(e.kind, EvalTruncated(e.left, frame, vars, mem).value, IntVal(Wrap(FoldConstant(e.right).value)), frame.alu)
  {
    hide ApplyBinary, FoldConstant, Wrap;
    var c := FoldConstant(e.right).value;
    assert TruncatedConstant(e.right) == TermExpr(IntTerm(c));
    assert Eval(TermExpr(IntTerm(c)), frame, vars, mem) == Some(IntVal(Wrap(c)));
  }

  // A two-operand instruction applies its operation to its operands.
  lemma OperatorMeaning(
    sc: Scene, s0: LowerState, s: LowerState, op: Opcode, t: IrType, a: LowerValue, b: LowerValue,
    vars: Vars, accesses: seq<Access>)
    requires Ready(sc, s, vars, accesses) && Grown(sc, s0, s) && !t.VoidType?
    requires Append(s, BinaryInstr(op, t, a.value, b.value)).Success?
    requires Holds(Now(sc, s), a) && Holds(Now(sc, s), b)
    ensures var (s1, v) := Append(s, BinaryInstr(op, t, a.value, b.value)).value;
      && v.ty == t
      && Yields(sc, s0, s1, v,
           Operate(op, Now(sc, s).vals[a.value], Now(sc, s).vals[b.value], sc.frame.alu), vars, accesses)
  {
    hide Run, Operate, MemAt, Sim, Addressed;
    AppendPure(sc, s, BinaryInstr(op, t, a.value, b.value), vars, accesses);
  }

  lemma OperateCompares(kind: BinaryKind, t: IrType, a: Word, x: Value, b: Word, y: Value, alu: Alu)
    requires CompareOpcode(kind).Some? && IsScalarType(t) && Rep(t, a, x) && Rep(t, b, y)
    ensures ApplyBinary(kind, x, y, alu).Some?
    ensures Rep(BoolType, Operate(CompareOpcode(kind).value, Cell(t, a), Cell(t, b), alu), ApplyBinary(kind, x, y, alu).value)
  {
    hide BitWord, LongBinary, DivWord, ModWord, Wrap;
  }

  lemma OperateComputes(kind: BinaryKind, t: IrType, a: Word, x: Value, b: Word, y: Value, alu: Alu)
    requires ArithOpcode(kind).Some? && IsScalarType(t) && Rep(t, a, x) && Rep(t, b, y)
    requires BitOnly(ArithOpcode(kind).value) ==> t.I32?
    ensures ApplyBinary(kind, x, y, alu).Some?
    ensures Rep(t, Operate(ArithOpcode(kind).value, Cell(t, a), Cell(t, b), alu), ApplyBinary(kind, x, y, alu).value)
  {
    hide BitWord, LongBinary, DivWord, ModWord, Wrap;
  }

  // Two lowered operands of one type, compared by one instruction.
  lemma CompareMeaning(
    sc: Scene, s: LowerState, s1: LowerState, a: LowerValue, x: Value,
    s2: LowerState, b: LowerValue, y: Value, kind: BinaryKind, vars: Vars, accesses: seq<Access>)
    requires CompareOpcode(kind).Some? && a.ty == b.ty && IsScalarType(a.ty)
    requires YieldsValue(sc, s, s1, a, x, vars, accesses) && YieldsValue(sc, s1, s2, b, y, vars, accesses)
    requires Append(s2, BinaryInstr(CompareOpcode(kind).value, BoolType, a.value, b.value)).Success?
    ensures var (s3, v) := Append(s2, BinaryInstr(CompareOpcode(kind).value, BoolType, a.value, b.value)).value;
      var q := ApplyBinary(kind, x, y, sc.frame.alu);
      q.Some? && YieldsValue(sc, s, s3, v, q.value, vars, accesses)
  {
    hide Ready, Run, Operate, MemAt, ApplyBinary, Rep, Append, CompareOpcode;
    ValueAfter(sc, s, s1, a, x, s2, b, y, vars, accesses);
    OperatorMeaning(sc, s, s2, CompareOpcode(kind).value, BoolType, a, b, vars, accesses);
    OperateCompares(kind, a.ty, Now(sc, s2).vals[a.value].bits, x, Now(sc, s2).vals[b.value].bits, y, sc.frame.alu);
  }

  // Two lowered operands of one type, combined by one instruction.
  lemma TwoOperandMeaning(
    sc: Scene, s: LowerState, s1: LowerState, a: LowerValue, x: Value,
    s2: LowerState, b: LowerValue, y: Value, kind: BinaryKind, vars: Vars, accesses: seq<Access>)
    requires ArithOpcode(kind).Some? && a.ty == b.ty && IsScalarType(a.ty)
    requires BitOnly(ArithOpcode(kind).value) ==> a.ty.I32?
    requires YieldsValue(sc, s, s1, a, x, vars, accesses) && YieldsValue(sc, s1, s2, b, y, vars, accesses)
    requires Append(s2, BinaryInstr(ArithOpcode(kind).value, a.ty, a.value, b.value)).Success?
    ensures var (s3, v) := Append(s2, BinaryInstr(ArithOpcode(kind).value, a.ty, a.value, b.value)).value;
      var q := ApplyBinary(kind, x, y, sc.frame.alu);
      q.Some? && YieldsValue(sc, s, s3, v, q.value, vars, accesses)
  {
    hide Ready, Run, Operate, MemAt, ApplyBinary, Rep, Append, ArithOpcode, BitOnly;
    ValueAfter(sc, s, s1, a, x, s2, b, y, vars, accesses);
    OperatorMeaning(sc, s, s2, ArithOpcode(kind).value, a.ty, a, b, vars, accesses);
    OperateComputes(kind, a.ty, Now(sc, s2).vals[a.value].bits, x, Now(sc, s2).vals[b.value].bits, y, sc.frame.alu);
  }

  // The instruction for a constant right operand divides or shifts by the
  // folded number.
  lemma ConstantOperandMeaning(
    sc: Scene, s: LowerState, s1: LowerState, kind: BinaryKind, a: LowerValue, x: Value, r: Expr,
    vars: Vars, accesses: seq<Access>)
    requires ConstantOperand(kind).Some? && YieldsValue(sc, s, s1, a, x, vars, accesses)
    requires LowerByConstant(s1, kind, a, r).Success?
    ensures var (s2, v) := LowerByConstant(s1, kind, a, r).value;
      var q := ApplyBinary(kind, x, IntVal(Wrap(FoldConstant(r).value)), sc.frame.alu);
      q.Some? && YieldsValue(sc, s, s2, v, q.value, vars, accesses)
  {
    hide Ready, Run, IntOperate, MemAt, ApplyBinary, Wrap, FoldConstant, ConstantAllowed, ConstantOperand;
    var c, op := FoldConstant(r).value, ConstantOperand(kind).value;
    AppendPure(sc, s1, ConstI32(Wrap(c)), vars, accesses);
    var (s2, k) := Append(s1, ConstI32(Wrap(c))).value;
    OperatorMeaning(sc, s, s2, op, I32, a, k, vars, accesses);
    IntOperand(kind, x.w, c, sc.frame.alu);
  }

  lemma {:induction false} ComparisonMeaning(sc: Scene, s: LowerState, e: Expr, vars: Vars, accesses: seq<Access>)
    requires e.Binary? && CompareOpcode(e.kind).Some?
    requires Ready(sc, s, vars, accesses) && LowerComparison(s, sc.env, e.kind, e.left, e.right).Success?
    requires AllFit(sc, ExprAccesses(sc.env, e.left), accesses) && AllFit(sc, ExprAccesses(sc.env, e.right), accesses)
    ensures var (s1, v) := LowerComparison(s, sc.env, e.kind, e.left, e.right).value;
      var x := EvalTruncated(e, sc.frame, vars, Now(sc, s).mem);
      x.Some? && YieldsValue(sc, s, s1, v, x.value, vars, accesses)
    decreases e, 0, 0
  {
    hide YieldsValue, Ready, Append, AllFit, LowerExpr, ApplyBinary, Run, EvalTruncated;
    ExprMeaning(sc, s, e.left, VoidType, vars, accesses);
    var (s1, a) := LowerExpr(s, sc.env, e.left, VoidType).value;
    var x := EvalTruncated(e.left, sc.frame, vars, Now(sc, s).mem).value;
    YieldsReady(sc, s, s1, a, x, vars, accesses);
    ExprMeaning(sc, s1, e.right, VoidType, vars, accesses);
    var (s2, b) := LowerExpr(s1, sc.env, e.right, VoidType).value;
    var y := EvalTruncated(e.right, sc.frame, vars, Now(sc, s).mem).value;
    TruncatedBinary(e, sc.frame, vars, Now(sc, s).mem);
    CompareMeaning(sc, s, s1, a, x, s2, b, y, e.kind, vars, accesses);
  }

  lemma {:induction false} ArithmeticMeaning(
    sc: Scene, s: LowerState, e: Expr, expected: IrType, vars: Vars, accesses: seq<Access>)
    requires e.Binary? && ConstantOperand(e.kind).None?
    requires Ready(sc, s, vars, accesses) && LowerBinary(s, sc.env, e.kind, e.left, e.right, expected).Success?
    requires AllFit(sc, ExprAccesses(sc.env, e.left), accesses) && AllFit(sc, ExprAccesses(sc.env, e.right), accesses)
    ensures var (s1, v) := LowerBinary(s, sc.env, e.kind, e.left, e.right, expected).value;
      var x := EvalTruncated(e, sc.frame, vars, Now(sc, s).mem);
      x.Some? && YieldsValue(sc, s, s1, v, x.value, vars, accesses)
    decreases e, 0, 0
  {
    hide YieldsValue, Ready, Append, AllFit, LowerExpr, ApplyBinary, Coerce, Run, ArithOpcode, EvalTruncated, BitOnly;
    ExprMeaning(sc, s, e.left, VoidType, vars, accesses);
    var (s1, a) := LowerExpr(s, sc.env, e.left, VoidType).value;
    var x := EvalTruncated(e.left, sc.frame, vars, Now(sc, s).mem).value;
    YieldsReady(sc, s, s1, a, x, vars, accesses);
    ExprMeaning(sc, s1, e.right, VoidType, vars, accesses);
    var (s2, b) := LowerExpr(s1, sc.env, e.right, VoidType).value;
    var y := EvalTruncated(e.right, sc.frame, vars, Now(sc, s).mem).value;
    TruncatedBinary(e, sc.frame, vars, Now(sc, s).mem);
    TwoOperandMeaning(sc, s, s1, a, x, s2, b, y, e.kind, vars, accesses);
    var (s3, v) := Append(s2, BinaryInstr(ArithOpcode(e.kind).value, a.ty, a.value, b.value)).value;
    CoerceMeaning(sc, s, s3, v, EvalTruncated(e, sc.frame, vars, Now(sc, s).mem).value, expected, vars, accesses);
  }

  lemma {:induction false} ConstantBinaryMeaning(
    sc: Scene, s: LowerState, e: Expr, expected: IrType, vars: Vars, accesses: seq<Access>)
    requires e.Binary? && ConstantOperand(e.kind).Some?
    requires Ready(sc, s, vars, accesses) && LowerBinary(s, sc.env, e.kind, e.left, e.right, expected).Success?
    requires AllFit(sc, ExprAccesses(sc.env, e.left), accesses)
    ensures var (s1, v) := LowerBinary(s, sc.env, e.kind, e.left, e.right, expected).value;
      var x := EvalTruncated(e, sc.frame, vars, Now(sc, s).mem);
      x.Some? && YieldsValue(sc, s, s1, v, x.value, vars, accesses)
    decreases e, 0, 0
  {
    hide YieldsValue, Ready, Append, EvalTruncated, AllFit, LowerExpr, Coerce, ConstantOperand, ApplyBinary, FoldConstant, Wrap;
    ExprMeaning(sc, s, e.left, VoidType, vars, accesses);
    var (s1, a) := LowerExpr(s, sc.env, e.left, VoidType).value;
    var x := EvalTruncated(e.left, sc.frame, vars, Now(sc, s).mem).value;
    ConstantOperandMeaning(sc, s, s1, e.kind, a, x, e.right, vars, accesses);
    TruncatedByConstant(e, sc.frame, vars, Now(sc, s).mem);
    var (s2, v) := LowerByConstant(s1, e.kind, a, e.right).value;
    CoerceMeaning(sc, s, s2, v, EvalTruncated(e, sc.frame, vars, Now(sc, s).mem).value, expected, vars, accesses);
  }

  // Any operation with two operands, before the coercion to what is expected.
  lemma {:induction false} OperationMeaning(
    sc: Scene, s: LowerState, e: Expr, expected: IrType, vars: Vars, accesses: seq<Access>)
    requires Ready(sc, s, vars, accesses) && e.Binary? && LowerExpr(s, sc.env, e, expected).Success?
    requires AllFit(sc, ExprAccesses(sc.env, e), accesses)
    ensures var r := if CompareOpcode(e.kind).Some? then LowerComparison(s, sc.env, e.kind, e.left, e.right)
                     else LowerBinary(s, sc.env, e.kind, e.left, e.right, expected);
      var x := EvalTruncated(e, sc.frame, vars, Now(sc, s).mem);
      r.Success? && x.Some? && YieldsValue(sc, s, r.value.0, r.value.1, x.value, vars, accesses)
    decreases e, 0, 1
  {
    hide YieldsValue, Ready, EvalTruncated, LowerComparison, LowerBinary, Coerce;
    if CompareOpcode(e.kind).Some? {
      ComparisonMeaning(sc, s, e, vars, accesses);
    } else if ConstantOperand(e.kind).Some? {
      ConstantBinaryMeaning(sc, s, e, expected, vars, accesses);
    } else {
      ArithmeticMeaning(sc, s, e, expected, vars, accesses);
    }
  }

  lemma YieldsReady(sc: Scene, s: LowerState, s1: LowerState, v: LowerValue, x: Value, vars: Vars, accesses: seq<Access>)
    requires YieldsValue(sc, s, s1, v, x, vars, accesses)
    ensures Ready(sc, s1, vars, accesses) && Now(sc, s1).mem == Now(sc, s).mem
    ensures Holds(Now(sc, s1), v) && Rep(v.ty, Now(sc, s1).vals[v.value].bits, x)
  {
  }

  // ------------------------------------------------------------------
  // Statements
  // ------------------------------------------------------------------

  // The mapped operand of `acc = acc + mapped` or `acc = mapped + acc`.
  function MappedExpr(rhs: Expr, accumulator: string): Option<Expr> {
    var sum := StripPar(rhs);
    if !sum.Binary? || !sum.kind.Plus? then None
    else
      var l, r := StripPar(sum.left), StripPar(sum.right);
      if TermSymbol(l) == Some(accumulator) then
        if TermSymbol(r) == Some(accumulator) then None else Some(r)
      else if TermSymbol(r) == Some(accumulator) then Some(l)
      else None
  }

  // What the loop classifier established about the scalars a body assigns:
  // an accumulator is only updated by adding its mapped expression, and no
  // published reduction is assigned otherwise.
  ghost predicate ScalarVerdict(env: KernelEnv, stmt: Stmt) {
    && (UpdatesAccumulator(env, stmt.lhs) ==>
         MappedExpr(stmt.rhs, env.reduction.value.accumulator) == Some(env.reduction.value.mapped))
    && (!UpdatesAccumulator(env, stmt.lhs) && TermSymbol(stmt.lhs).Some? ==>
         forall j :: 0 <= j < |env.results| && env.results[j].producer <= env.kernelIndex ==>
           env.results[j].name != TermSymbol(stmt.lhs).value)
  }

  // The truncated statement succeeds, and its state is the lowered state's.
  ghost predicate Follows(
    sc: Scene, s: LowerState, s1: LowerState, stmt: Stmt, vars: Vars, accesses: seq<Access>)
  {
    var after := ExecStmt(TruncatedStmt(stmt), sc.frame, vars, Now(sc, s).mem);
    after.Some? && Ready(sc, s1, after.value.0, accesses) && Now(sc, s1).mem == after.value.1
  }

  lemma {:induction false} StripParAccesses(env: KernelEnv, e: Expr)
    ensures ExprAccesses(env, StripPar(e)) == ExprAccesses(env, e)
  {
    if e.Unary? && e.unary.Par? {
      StripParAccesses(env, e.operand);
    }
  }

  lemma MappedAccesses(env: KernelEnv, rhs: Expr, accumulator: string, a: Access)
    requires MappedExpr(rhs, accumulator).Some?
    requires a in ExprAccesses(env, MappedExpr(rhs, accumulator).value)
    ensures a in ExprAccesses(env, rhs)
  {
    var sum := StripPar(rhs);
    StripParAccesses(env, rhs);
    StripParAccesses(env, sum.left);
    StripParAccesses(env, sum.right);
  }

  lemma TruncatedMapped(rhs: Expr, accumulator: string)
    requires MappedExpr(rhs, accumulator).Some?
    ensures MappedExpr(Truncated(rhs), accumulator) == Some(Truncated(MappedExpr(rhs, accumulator).value))
  {
    var sum := StripPar(rhs);
    TruncatedStripPar(rhs);
    TruncatedStripPar(sum.left);
    TruncatedStripPar(sum.right);
    TruncatedSymbol(StripPar(sum.left));
    TruncatedSymbol(StripPar(sum.right));
  }

  lemma MappedMeaning(rhs: Expr, accumulator: string, a: Word, m: Word, frame: Frame, vars: Vars, mem: Mem)
    requires MappedExpr(rhs, accumulator).Some?
    requires LookupName(accumulator, frame, vars) == Some(IntVal(a))
    requires Eval(MappedExpr(rhs, accumulator).value, frame, vars, mem) == Some(IntVal(m))
    ensures Eval(rhs, frame, vars, mem) == Some(IntVal(Add(a, m)))
  {
    hide ApplyBinary, Wrap, LookupName;
    var sum := StripPar(rhs);
    StripParMeaning(rhs, frame, vars, mem);
    StripParMeaning(sum.left, frame, vars, mem);
    StripParMeaning(sum.right, frame, vars, mem);
    if TermSymbol(StripPar(sum.left)) == Some(accumulator) {
      EvalSum(Plus, sum.left, sum.right, a, m, frame, vars, mem);
    } else {
      EvalSum(Plus, sum.left, sum.right, m, a, frame, vars, mem);
      AddSubWord(a, 0, m);
    }
  }

  lemma SimAdded(sc: Scene, s: LowerState, m: Machine, entry: nat, w: Word, vars: Vars)
    requires WellFormed(sc.env) && Matches(sc) && Sim(sc, s, m, vars)
    requires sc.env.reduction.Some? && sc.env.reduction.value.entry == Some(entry) && entry < |sc.env.results|
    ensures Sim(sc, s, m.(results := PutWord(m.results, entry, w)),
                vars[sc.env.reduction.value.accumulator := IntVal(w)])
  {
    var m1 := m.(results := PutWord(m.results, entry, w));
    var vars1 := vars[sc.env.reduction.value.accumulator := IntVal(w)];
    forall name ensures LocalTracked(sc, s, m1, vars1, name) {
      assert LocalTracked(sc, s, m, vars, name);
    }
    forall j: nat ensures ResultTracked(sc, m1, vars1, j) {
      assert ResultTracked(sc, m, vars, j);
    }
  }

  // The emitted add changes the entry's word, and nothing else.
  lemma AtomicEmits(sc: Scene, s: LowerState, entry: nat, v: LowerValue, vars: Vars, accesses: seq<Access>)
    requires Ready(sc, s, vars, accesses) && Holds(Now(sc, s), v)
    requires sc.env.reduction.Some? && sc.env.reduction.value.entry == Some(entry) && entry < |sc.env.results|
    requires Append(s, AtomicAdd(entry, v.value)).Success?
    ensures entry < |Now(sc, s).results|
    ensures var s1 := Append(s, AtomicAdd(entry, v.value)).value.0;
      var sum := Add(Now(sc, s).results[entry], Now(sc, s).vals[v.value].bits);
      Ready(sc, s1, vars[sc.env.reduction.value.accumulator := IntVal(sum)], accesses) && Now(sc, s1).mem == Now(sc, s).mem
  {
    hide Run, MemAt, Operate, Addressed, Wrap, LocalTracked, ResultTracked, WellFormed;
    var i := AtomicAdd(entry, v.value);
    var s1 := Append(s, i).value.0;
    var sum := Add(Now(sc, s).results[entry], Now(sc, s).vals[v.value].bits);
    RunSnoc(s.code, i, sc.inv, sc.mem, sc.results);
    AddressedSnoc(sc, s.code, i, accesses);
    SimAdded(sc, s, Now(sc, s), entry, sum, vars);
    SimIgnoresCode(sc, s, s1, Now(sc, s1), vars[sc.env.reduction.value.accumulator := IntVal(sum)]);
  }

  // The accumulator's variable holds its entry's word.
  lemma AccumulatorWord(sc: Scene, s: LowerState, vars: Vars, accesses: seq<Access>)
    requires Ready(sc, s, vars, accesses) && sc.env.reduction.Some?
    requires sc.env.reduction.value.entry.Some? && sc.env.reduction.value.entry.value < |sc.env.results|
    ensures sc.env.reduction.value.entry.value < |Now(sc, s).results|
    ensures LookupName(sc.env.reduction.value.accumulator, sc.frame, vars)
      == Some(IntVal(Now(sc, s).results[sc.env.reduction.value.entry.value]))
  {
    hide Run, Addressed, LocalTracked;
    assert ResultTracked(sc, Now(sc, s), vars, sc.env.reduction.value.entry.value);
    assert sc.env.reduction.value.accumulator !in sc.frame.args;
  }

  lemma AtomicMeaning(sc: Scene, s: LowerState, stmt: Stmt, vars: Vars, accesses: seq<Access>)
    requires Ready(sc, s, vars, accesses) && UpdatesAccumulator(sc.env, stmt.lhs)
    requires LowerAtomic(s, sc.env, sc.env.reduction.value).Success?
    requires ScalarVerdict(sc.env, stmt)
    requires AllFit(sc, StmtAccesses(sc.env, stmt), accesses)
    ensures Follows(sc, s, LowerAtomic(s, sc.env, sc.env.reduction.value).value, stmt, vars, accesses)
  {
    hide Ready, Run, Wrap, Rep, LookupName, Append, Fits, LowerExpr;
    var reduction := sc.env.reduction.value;
    var a := reduction.accumulator;
    forall x | x in ExprAccesses(sc.env, reduction.mapped) ensures x in accesses && Fits(sc, x) {
      MappedAccesses(sc.env, stmt.rhs, a, x);
      assert x in StmtAccesses(sc.env, stmt);
    }
    ExprMeaning(sc, s, reduction.mapped, I32, vars, accesses);
    var (s1, v) := LowerExpr(s, sc.env, reduction.mapped, I32).value;
    var contribution := Now(sc, s1).vals[v.value].bits;
    RepInt(contribution, EvalTruncated(reduction.mapped, sc.frame, vars, Now(sc, s).mem).value);
    TruncatedMapped(stmt.rhs, a);
    AccumulatorWord(sc, s1, vars, accesses);
    MappedMeaning(Truncated(stmt.rhs), a, Now(sc, s1).results[reduction.entry.value], contribution, sc.frame, vars, Now(sc, s).mem);
    AtomicEmits(sc, s1, reduction.entry.value, v, vars, accesses);
  }

  lemma RepInt(bits: Word, v: Value)
    requires Rep(I32, bits, v)
    ensures v == IntVal(bits)
  {
  }

  lemma SimStored(sc: Scene, s: LowerState, m: Machine, mem: Mem, vars: Vars)
    requires Sim(sc, s, m, vars) && SameShape(m.mem, mem)
    ensures Sim(sc, s, m.(mem := mem), vars)
  {
    forall name ensures LocalTracked(sc, s, m.(mem := mem), vars, name) {
      assert LocalTracked(sc, s, m, vars, name);
    }
    forall j: nat ensures ResultTracked(sc, m.(mem := mem), vars, j) {
      assert ResultTracked(sc, m, vars, j);
    }
  }

  // The emitted store replaces the addressed element.
  lemma StoreEmits(sc: Scene, s: LowerState, a: Access, at: LowerValue, v: LowerValue, vars: Vars, accesses: seq<Access>)
    requires Ready(sc, s, vars, accesses) && a in accesses && a.write && Fits(sc, a)
    requires Holds(Now(sc, s), at) && Holds(Now(sc, s), v)
    requires Now(sc, s).vals[at.value].bits == AddressWord(sc, a)
    requires Append(s, Store(a.buffer, at.value, v.value)).Success?
    ensures var s1 := Append(s, Store(a.buffer, at.value, v.value)).value.0;
      && a.buffer < |Now(sc, s).mem| && AddressWord(sc, a) < |Now(sc, s).mem[a.buffer]|
      && Ready(sc, s1, vars, accesses)
      && Now(sc, s1).mem == Put(Now(sc, s).mem, a.buffer, AddressWord(sc, a), Now(sc, s).vals[v.value].bits)
  {
    hide Run, Operate, Addressed, AddressWord, WellFormed, Matches, LocalTracked, ResultTracked;
    var i := Store(a.buffer, at.value, v.value);
    var s1 := Append(s, i).value.0;
    var m := Now(sc, s);
    RunSnoc(s.code, i, sc.inv, sc.mem, sc.results);
    AddressedSnoc(sc, s.code, i, accesses);
    SimStored(sc, s, m, Put(m.mem, a.buffer, AddressWord(sc, a), m.vals[v.value].bits), vars);
    SimIgnoresCode(sc, s, s1, Now(sc, s1), vars);
  }

  // The source statement replaces the same element by the same word.
  lemma StoreExecutes(sc: Scene, base: Expr, index: Expr, rhs: Expr, bits: Word, vars: Vars, mem: Mem)
    requires Matches(sc) && SameShape(sc.mem, mem)
    requires TermSymbol(base).Some? && CatalogBuffer(sc.env.buffers, TermSymbol(base).value).Some?
    requires NormalizeIndex(index, sc.env.counter).kind.CounterOffset?
    requires AffineBound(NormalizeIndex(index, sc.env.counter), sc.env.counter, sc.frame.args)
    requires var b := CatalogBuffer(sc.env.buffers, TermSymbol(base).value).value;
      && b.binding >= 0
      && Fits(sc, Access(b.binding, true, NormalizeIndex(index, sc.env.counter)))
      && IsScalarType(b.elem)
      && Eval(rhs, sc.frame, vars, mem).Some? && Rep(b.elem, bits, Eval(rhs, sc.frame, vars, mem).value)
    ensures var b := CatalogBuffer(sc.env.buffers, TermSymbol(base).value).value;
      var a := Access(b.binding, true, NormalizeIndex(index, sc.env.counter));
      && b.binding < |mem| && AddressWord(sc, a) < |mem[b.binding]|
      && ExecStmt(Stmt(Subscript(base, index), rhs), sc.frame, vars, mem)
         == Some((vars, Put(mem, b.binding, AddressWord(sc, a), bits)))
  {
    hide AffineWord, NormalizeIndex, AffineBound;
    var b := CatalogBuffer(sc.env.buffers, TermSymbol(base).value).value;
    FrameBufferFinds(sc.env.buffers, TermSymbol(base).value);
    NormalizeMeaning(index, sc.frame, vars, mem);
    FitsSigned(sc, Access(b.binding, true, NormalizeIndex(index, sc.env.counter)));
  }

  lemma StoreMeaning(sc: Scene, s: LowerState, base: Expr, index: Expr, rhs: Expr, vars: Vars, accesses: seq<Access>)
    requires Ready(sc, s, vars, accesses) && LowerStore(s, sc.env, base, index, rhs).Success?
    requires AllFit(sc, StmtAccesses(sc.env, Stmt(Subscript(base, index), rhs)), accesses)
    ensures Follows(sc, s, LowerStore(s, sc.env, base, index, rhs).value, Stmt(Subscript(base, index), rhs), vars, accesses)
  {
    hide Run, Operate, Addressed, LocalTracked, ResultTracked, AddressWord, LowerIndex, NormalizeIndex, ExecStmt, Fits, Matches;
    var stmt := Stmt(Subscript(base, index), rhs);
    var symbol := TermSymbol(base).value;
    var b := CatalogBuffer(sc.env.buffers, symbol).value;
    var a := Access(b.binding, true, NormalizeIndex(index, sc.env.counter));
    assert SubscriptAccess(sc.env, base, index, true) == [a];
    assert a in StmtAccesses(sc.env, stmt);
    FrameBufferFinds(sc.env.buffers, symbol);
    var mem := Now(sc, s).mem;
    IndexMeaning(sc, s, index, vars, accesses);
    var (s1, at) := LowerIndex(s, sc.env, index).value;
    forall x | x in ExprAccesses(sc.env, rhs) ensures x in accesses && Fits(sc, x) {
      assert x in StmtAccesses(sc.env, stmt);
    }
    ExprMeaning(sc, s1, rhs, b.elem, vars, accesses);
    var (s2, v) := LowerExpr(s1, sc.env, rhs, b.elem).value;
    StoreExecutes(sc, base, index, Truncated(rhs), Now(sc, s2).vals[v.value].bits, vars, mem);
    AddressUnfold(sc, a);
    StoreEmits(sc, s2, a, at, v, vars, accesses);
  }

  lemma AddressUnfold(sc: Scene, a: Access)
    ensures AddressWord(sc, a) == AffineWord(a.index, sc.frame.counterValue, sc.frame.args)
  {
  }

  lemma SimAssigned(sc: Scene, s: LowerState, m: Machine, name: string, v: LowerValue, x: Value, vars: Vars)
    requires WellFormed(sc.env) && Sim(sc, s, m, vars)
    requires FindLocal(sc.env.locals, name).Some?
    requires Holds(m, v) && Rep(v.ty, m.vals[v.value].bits, x)
    requires !(sc.env.reduction.Some? && sc.env.reduction.value.accumulator == name)
    requires forall j :: 0 <= j < |sc.env.results| && sc.env.results[j].producer <= sc.env.kernelIndex ==>
      sc.env.results[j].name != name
    ensures Sim(sc, s.(locals := s.locals[FindLocal(sc.env.locals, name).value.index := v]), m, vars[name := x])
  {
    var local := FindLocal(sc.env.locals, name).value;
    var s1, vars1 := s.(locals := s.locals[local.index := v]), vars[name := x];
    forall n ensures LocalTracked(sc, s1, m, vars1, n) {
      assert LocalTracked(sc, s, m, vars, n);
    }
    forall j: nat ensures ResultTracked(sc, m, vars1, j) {
      assert ResultTracked(sc, m, vars, j);
    }
  }

  // The value becomes the local's current one.
  lemma ReadyAssigned(sc: Scene, s: LowerState, name: string, v: LowerValue, x: Value, vars: Vars, accesses: seq<Access>)
    requires Ready(sc, s, vars, accesses) && FindLocal(sc.env.locals, name).Some?
    requires Holds(Now(sc, s), v) && Rep(v.ty, Now(sc, s).vals[v.value].bits, x)
    requires !(sc.env.reduction.Some? && sc.env.reduction.value.accumulator == name)
    requires forall j :: 0 <= j < |sc.env.results| && sc.env.results[j].producer <= sc.env.kernelIndex ==>
      sc.env.results[j].name != name
    ensures Ready(sc, s.(locals := s.locals[FindLocal(sc.env.locals, name).value.index := v]), vars[name := x], accesses)
  {
    hide Run, Rep, Addressed, Sim, Matches;
    SimAssigned(sc, s, Now(sc, s), name, v, x, vars);
  }

  lemma AssignMeaning(sc: Scene, s: LowerState, name: string, rhs: Expr, vars: Vars, accesses: seq<Access>)
    requires Ready(sc, s, vars, accesses) && LowerAssign(s, sc.env, name, rhs).Success?
    requires var stmt := Stmt(TermExpr(SymbolTerm(name)), rhs);
      && !UpdatesAccumulator(sc.env, stmt.lhs) && ScalarVerdict(sc.env, stmt)
      && AllFit(sc, StmtAccesses(sc.env, stmt), accesses)
    ensures Follows(sc, s, LowerAssign(s, sc.env, name, rhs).value, Stmt(TermExpr(SymbolTerm(name)), rhs), vars, accesses)
  {
    hide Run, Rep, Ready, AllFit;
    var stmt := Stmt(TermExpr(SymbolTerm(name)), rhs);
    var local := FindLocal(sc.env.locals, name).value;
    assert StmtAccesses(sc.env, stmt) == ExprAccesses(sc.env, rhs);
    assert TermSymbol(stmt.lhs) == Some(name);
    ExprMeaning(sc, s, rhs, LocalType(local), vars, accesses);
    var (s1, v) := LowerExpr(s, sc.env, rhs, LocalType(local)).value;
    ReadyAssigned(sc, s1, name, v, EvalTruncated(rhs, sc.frame, vars, Now(sc, s).mem).value, vars, accesses);
  }

  lemma StatementMeaning(sc: Scene, s: LowerState, stmt: Stmt, vars: Vars, accesses: seq<Access>)
    requires Ready(sc, s, vars, accesses) && LowerStatement(s, sc.env, stmt).Success?
    requires ScalarVerdict(sc.env, stmt)
    requires AllFit(sc, StmtAccesses(sc.env, stmt), accesses)
    ensures Follows(sc, s, LowerStatement(s, sc.env, stmt).value, stmt, vars, accesses)
  {
    hide Ready, Follows, ExecStmt, LowerAtomic, LowerStore, LowerAssign, AllFit, StmtAccesses;
    if UpdatesAccumulator(sc.env, stmt.lhs) {
      AtomicMeaning(sc, s, stmt, vars, accesses);
    } else {
      match stmt.lhs
      case Subscript(base, index) => StoreMeaning(sc, s, base, index, stmt.rhs, vars, accesses);
      case TermExpr(SymbolTerm(name)) => AssignMeaning(sc, s, name, stmt.rhs, vars, accesses);
    }
  }

  // ------------------------------------------------------------------
  // Whole bodies
  // ------------------------------------------------------------------

  // What compilation established about a body it accepted.
  ghost predicate Accepted(env: KernelEnv, body: seq<Stmt>) {
    && WellFormed(env)
    && LowerBody(env, body).Success?
    && (forall stmt :: stmt in body ==> ScalarVerdict(env, stmt))
  }

  // Every reduction published so far is in its result word.
  ghost predicate Published(env: KernelEnv, vars: Vars, results: seq<Word>) {
    |results| == |env.results| &&
    forall j :: 0 <= j < |env.results| && env.results[j].producer <= env.kernelIndex ==>
      env.results[j].name in vars && vars[env.results[j].name] == IntVal(results[j])
  }

  lemma {:induction false} BodyMeaning(sc: Scene, body: seq<Stmt>, vars: Vars, accesses: seq<Access>)
    requires Accepted(sc.env, body) && Matches(sc) && Published(sc.env, vars, sc.results)
    requires AllFit(sc, BodyAccesses(sc.env, body), accesses)
    ensures var after := ExecBody(TruncatedBody(body), sc.frame, vars, sc.mem);
      var s := LowerBody(sc.env, body).value;
      after.Some? && Ready(sc, s, after.value.0, accesses) && Now(sc, s).mem == after.value.1
    decreases |body|
  {
    hide LowerStatement, ExecStmt, ScalarVerdict, StmtAccesses, WellFormed, Matches, Fits;
    if body == [] {
      var m := Now(sc, EMPTY);
      forall j: nat ensures ResultTracked(sc, m, vars, j) {
      }
      assert Sim(sc, EMPTY, m, vars);
    } else {
      var front, last := body[..|body| - 1], body[|body| - 1];
      assert last in body;
      TruncatedSnoc(body);
      BodyMeaning(sc, front, vars, accesses);
      var s := LowerBody(sc.env, front).value;
      var (vars1, mem1) := ExecBody(TruncatedBody(front), sc.frame, vars, sc.mem).value;
      StatementMeaning(sc, s, last, vars1, accesses);
    }
  }

  // One invocation of an accepted body does exactly what the matching
  // iteration of the truncated body does: the iteration cannot fail, the two leave the same memory,
  // and every accumulator equals its result word.  The variables the
  // iteration starts from are arbitrary but for the published reductions, so
  // no scalar of another iteration leaks in.
  lemma IterationMeaning(sc: Scene, body: seq<Stmt>, vars: Vars)
    requires Accepted(sc.env, body) && Matches(sc) && Published(sc.env, vars, sc.results)
    requires forall a :: a in BodyAccesses(sc.env, body) ==> Fits(sc, a)
    ensures var after := ExecBody(TruncatedBody(body), sc.frame, vars, sc.mem);
      var code := LowerBody(sc.env, body).value.code;
      var m := Run(code, |code|, sc.inv, sc.mem, sc.results);
      && after.Some? && m.mem == after.value.1 && Published(sc.env, after.value.0, m.results)
      && Addressed(sc, code, BodyAccesses(sc.env, body))
  {
    hide WellFormed, Matches, ExecBody, Run, LowerBody, BodyAccesses, Fits, Addressed, LocalTracked;
    BodyMeaning(sc, body, vars, BodyAccesses(sc.env, body));
    var s := LowerBody(sc.env, body).value;
    var vars1 := ExecBody(TruncatedBody(body), sc.frame, vars, sc.mem).value.0;
    forall j | 0 <= j < |sc.env.results| && sc.env.results[j].producer <= sc.env.kernelIndex
      ensures sc.env.results[j].name in vars1 && j < |Now(sc, s).results|
      ensures vars1[sc.env.results[j].name] == IntVal(Now(sc, s).results[j])
    {
      assert ResultTracked(sc, Now(sc, s), vars1, j);
    }
  }
}
