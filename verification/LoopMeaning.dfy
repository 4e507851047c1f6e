// One selected loop and the dispatch that replaces it: every complete
// schedule of the kernel leaves the memory and the reductions the sequential
// loop leaves.

module LoopMeaning {
  import opened Words
  import opened Hir
  import opened AccelIr
  import opened Lowering
  import opened Truncation
  import opened LoweringMeaning
  import D = Dispatch
  import KV = KernelValidation

  // ------------------------------------------------------------------
  // Independent iterations
  // ------------------------------------------------------------------

  // Two accesses of one body that some pair of distinct iterations could
  // make to the same element.
  predicate MayConflict(a: Access, b: Access) {
    (a.write || b.write) && a.buffer == b.buffer
    && !(a.index.kind.CounterOffset? && b.index.kind.CounterOffset? && a.index == b.index)
  }

  // No pair of accesses of a body may conflict between iterations.
  ghost predicate Independent(accesses: seq<Access>) {
    forall i, j :: 0 <= i < j < |accesses| ==> !MayConflict(accesses[i], accesses[j])
  }

  // ------------------------------------------------------------------
  // The loop and its launch
  // ------------------------------------------------------------------

  datatype Setting = Setting(env: KernelEnv, body: seq<Stmt>, args: map<string, Value>, uniforms: seq<Word>, alu: Alu)

  function Code(st: Setting): seq<Instr> {
    match LowerBody(st.env, st.body)
    case Success(s) => s.code
    case Failure(_) => []
  }

  // What iteration t of the loop sees.
  function FrameAt(st: Setting, t: nat): Frame {
    Frame(st.env.counter, Wrap(StartWord(st.env, st.args) + t), st.args, FrameBuffers(st.env.buffers), st.alu)
  }

  // The truncated loop after k iterations; None when one of them fails.
  function TruncatedLoop(st: Setting, k: nat, vars: Vars, mem: Mem): Option<(Vars, Mem)> {
    if k == 0 then Some((vars, mem))
    else
      var (vars', mem') :- TruncatedLoop(st, k - 1, vars, mem);
      ExecBody(TruncatedBody(st.body), FrameAt(st, k - 1), vars', mem')
  }

  function LaunchOf(st: Setting, count: nat, mem: Mem, results: seq<Word>): D.Launch {
    D.Launch(Code(st), st.uniforms, st.alu, count, mem, results)
  }

  function SceneAt(st: Setting, t: Word, mem: Mem, results: seq<Word>): Scene {
    Scene(st.env, FrameAt(st, t), Invocation(t, st.uniforms, st.alu), mem, results)
  }

  // The arguments are the uniforms.
  ghost predicate Bound(st: Setting) {
    && |st.uniforms| == |st.env.scalars|
    && (forall i :: 0 <= i < |st.env.scalars| ==>
         && st.env.scalars[i].name in st.args
         && st.args[st.env.scalars[i].name] == ArgumentValue(st.env.scalars[i].ty, st.uniforms[i]))
    && (forall name :: name in st.args ==> ScalarIndex(st.env.scalars, name).Some?)
  }

  function Accesses(st: Setting): seq<Access> { BodyAccesses(st.env, st.body) }

  function AddressAt(st: Setting, a: Access, t: nat): Word {
    AffineWord(a.index, Wrap(StartWord(st.env, st.args) + t), st.args)
  }

  // Every access of every iteration is inside its buffer.
  ghost predicate InBounds(st: Setting, count: nat, mem: Mem) {
    forall a :: a in Accesses(st) ==>
      && a.buffer < |mem| && |mem[a.buffer]| <= 0x8000_0000
      && forall t: nat :: t < count ==> AddressAt(st, a, t) < |mem[a.buffer]|
  }

  // Everything compilation, classification and the range checks establish
  // before the loop is dispatched.
  ghost predicate Launchable(st: Setting, shape: KV.Shape, count: nat, mem: Mem) {
    && Accepted(st.env, st.body) && KV.TablesFit(st.env, shape)
    && Bound(st) && Independent(Accesses(st)) && InBounds(st, count, mem)
    && count <= 0x1_0000_0000
  }

  lemma SceneMatches(st: Setting, t: Word, mem: Mem, results: seq<Word>)
    requires Bound(st) && |results| == |st.env.results|
    ensures Matches(SceneAt(st, t, mem, results))
  {
  }

  lemma SceneFits(st: Setting, count: nat, t: Word, mem0: Mem, mem: Mem, results: seq<Word>)
    requires InBounds(st, count, mem0) && t < count && SameShape(mem0, mem)
    ensures forall a :: a in Accesses(st) ==> Fits(SceneAt(st, t, mem, results), a)
  {
    hide AffineWord, BodyAccesses;
    forall a | a in Accesses(st) ensures Fits(SceneAt(st, t, mem, results), a) {
      assert AddressAt(st, a, t) < |mem0[a.buffer]|;
    }
  }

  // ------------------------------------------------------------------
  // The sequential loop is the lanes run one after another
  // ------------------------------------------------------------------

  lemma {:induction false} LoopIsSequential(
    st: Setting, shape: KV.Shape, count: nat, k: nat, vars: Vars, mem: Mem, results: seq<Word>)
    requires Launchable(st, shape, count, mem) && k <= count && Published(st.env, vars, results)
    ensures var after := TruncatedLoop(st, k, vars, mem);
      var m := D.Sequential(LaunchOf(st, count, mem, results), k);
      && after.Some? && after.value.1 == m.mem && SameShape(mem, m.mem)
      && Published(st.env, after.value.0, m.results)
  {
    hide Accepted, KV.TablesFit, Bound, Independent, InBounds, Run, ExecBody, Published;
    if k > 0 {
      LoopIsSequential(st, shape, count, k - 1, vars, mem, results);
      var before := D.Sequential(LaunchOf(st, count, mem, results), k - 1);
      var vars1 := TruncatedLoop(st, k - 1, vars, mem).value.0;
      IterationStep(st, shape, count, k - 1, vars1, mem, before.mem, before.results);
    }
  }

  lemma IterationStep(
    st: Setting, shape: KV.Shape, count: nat, t: nat, vars: Vars, mem0: Mem, mem: Mem, results: seq<Word>)
    requires Launchable(st, shape, count, mem0) && t < count && SameShape(mem0, mem)
    requires Published(st.env, vars, results)
    ensures var after := ExecBody(TruncatedBody(st.body), FrameAt(st, t), vars, mem);
      var m := Run(Code(st), |Code(st)|, Invocation(t, st.uniforms, st.alu), mem, results);
      && after.Some? && after.value.1 == m.mem && SameShape(mem0, m.mem)
      && Published(st.env, after.value.0, m.results)
  {
    hide Matches, Fits, Accepted, WellFormed, Run, ExecBody, BodyAccesses, Addressed;
    SceneMatches(st, t, mem, results);
    SceneFits(st, count, t, mem0, mem, results);
    AcceptedParts(st.env, st.body);
    IterationMeaning(SceneAt(st, t, mem, results), st.body, vars);
    RunShape(Code(st), |Code(st)|, Invocation(t, st.uniforms, st.alu), mem, results);
  }

  lemma AcceptedParts(env: KernelEnv, body: seq<Stmt>)
    requires Accepted(env, body)
    ensures LowerBody(env, body).Success?
  {
  }

  lemma {:induction false} RunShape(code: seq<Instr>, n: nat, inv: Invocation, mem: Mem, results: seq<Word>)
    requires n <= |code|
    ensures SameShape(mem, Run(code, n, inv, mem, results).mem)
  {
    hide Operate, MemAt;
    if n > 0 {
      RunShape(code, n - 1, inv, mem, results);
    }
  }

  // ------------------------------------------------------------------
  // The kernel is disciplined
  // ------------------------------------------------------------------

  // The element a lane touches in a written buffer.
  ghost function HomeAccess(st: Setting, b: nat): (a: Access)
    requires exists w :: w in Accesses(st) && w.write && w.buffer == b
    ensures a in Accesses(st) && a.write && a.buffer == b
  {
    var w :| w in Accesses(st) && w.write && w.buffer == b; w
  }

  function WrittenBuffers(accesses: seq<Access>): set<nat> {
    set a | a in accesses && a.write :: a.buffer
  }

  ghost function DisciplineOf(st: Setting): D.Discipline {
    D.Discipline(
      WrittenBuffers(Accesses(st)),
      (b: nat, t: nat) =>
        if exists w :: w in Accesses(st) && w.write && w.buffer == b then AddressAt(st, HomeAccess(st, b), t) else 0,
      if st.env.reduction.Some? then st.env.reduction.value.entry else None)
  }

  lemma SameIndex(st: Setting, a: Access, b: Access)
    requires Independent(Accesses(st)) && a in Accesses(st) && b in Accesses(st)
    requires a.buffer == b.buffer && a.write
    ensures a.index == b.index
  {
    var accesses := Accesses(st);
    var i :| 0 <= i < |accesses| && accesses[i] == a;
    var j :| 0 <= j < |accesses| && accesses[j] == b;
    if i < j {
      assert !MayConflict(accesses[i], accesses[j]);
    } else if j < i {
      assert !MayConflict(accesses[j], accesses[i]);
    }
  }

  // Distinct lanes reach distinct elements through one index.
  lemma AddressInjective(st: Setting, a: Access, t: nat, u: nat)
    requires t < 0x1_0000_0000 && u < 0x1_0000_0000
    requires AddressAt(st, a, t) == AddressAt(st, a, u)
    ensures t == u
  {
    hide Wrap;
    var start: int := StartWord(st.env, st.args);
    var inv: int := InvariantWord(a.index, st.args);
    var shift := (if a.index.sign < 0 then 0 - inv else inv) + a.index.offset;
    WrapOfSum(start + t, shift);
    WrapOfSum(start + u, shift);
    var k := WrapQuotient(start + t + shift);
    var m := WrapQuotient(start + u + shift);
  }

  lemma MemoryKeeps(st: Setting, count: nat, mem: Mem, results: seq<Word>, t: Word, n: nat)
    requires count <= 0x1_0000_0000 && t < count && n < |Code(st)| && IsMemoryInstr(Code(st)[n])
    requires Independent(Accesses(st))
    requires Addressed(SceneAt(st, t, mem, results), Code(st), Accesses(st))
    ensures D.Keeps(LaunchOf(st, count, mem, results), DisciplineOf(st), t, n)
  {
    hide Run, BodyAccesses, LowerBody, Step, AffineWord;
    var sc, code := SceneAt(st, t, mem, results), Code(st);
    var a :| a in Accesses(st) && AddressedBy(sc, code, n, a);
    if a.write || a.buffer in WrittenBuffers(Accesses(st)) {
      assert exists w :: w in Accesses(st) && w.write && w.buffer == a.buffer;
      SameIndex(st, HomeAccess(st, a.buffer), a);
    }
  }

  lemma EntryKeeps(st: Setting, count: nat, mem: Mem, results: seq<Word>, t: Word, n: nat, consumed: set<nat>)
    requires count <= 0x1_0000_0000 && t < count && n < |Code(st)| && !IsMemoryInstr(Code(st)[n])
    requires KV.Flow(st.env, Code(st), consumed) && WellFormed(st.env)
    ensures D.Keeps(LaunchOf(st, count, mem, results), DisciplineOf(st), t, n)
  {
    hide Run, LowerBody, Step;
    assert Code(st)[n] in Code(st);
  }

  lemma KernelKeeps(st: Setting, shape: KV.Shape, count: nat, vars: Vars, mem: Mem, results: seq<Word>, t: nat, n: nat)
    requires Launchable(st, shape, count, mem) && Published(st.env, vars, results)
    requires t < count && n < |Code(st)|
    ensures D.Keeps(LaunchOf(st, count, mem, results), DisciplineOf(st), t, n)
  {
    hide Matches, Fits, WellFormed, Run, ExecBody, BodyAccesses, LowerBody, Addressed, D.Keeps, KV.Flow;
    var sc := SceneAt(st, t, mem, results);
    SceneMatches(st, t, mem, results);
    SceneFits(st, count, t, mem, mem, results);
    IterationMeaning(sc, st.body, vars);
    KV.LoweredKernelIsValid(st.env, shape, st.body);
    if IsMemoryInstr(Code(st)[n]) {
      MemoryKeeps(st, count, mem, results, t, n);
    } else {
      EntryKeeps(st, count, mem, results, t, n, LowerBody(st.env, st.body).value.consumed);
    }
  }

  lemma KernelDisciplined(st: Setting, shape: KV.Shape, count: nat, vars: Vars, mem: Mem, results: seq<Word>)
    requires Launchable(st, shape, count, mem) && Published(st.env, vars, results)
    ensures D.Disciplined(LaunchOf(st, count, mem, results), DisciplineOf(st))
  {
    hide D.Keeps, AddressAt, BodyAccesses;
    var l, d := LaunchOf(st, count, mem, results), DisciplineOf(st);
    forall t, n | 0 <= t < l.count && 0 <= n < |l.code| ensures D.Keeps(l, d, t, n) {
      KernelKeeps(st, shape, count, vars, mem, results, t, n);
    }
    forall b, t, u | b in d.written && 0 <= t < u < l.count ensures d.home(b, t) != d.home(b, u) {
      if AddressAt(st, HomeAccess(st, b), t) == AddressAt(st, HomeAccess(st, b), u) {
        AddressInjective(st, HomeAccess(st, b), t, u);
      }
    }
  }

  // ------------------------------------------------------------------
  // The main result for one loop
  // ------------------------------------------------------------------

  // The sequential loop cannot fail, and any interleaving of the dispatched
  // lanes that runs to completion leaves the memory and the reductions the
  // loop leaves.
  lemma LoopSimulation(
    st: Setting, shape: KV.Shape, count: nat, vars: Vars, mem: Mem, results: seq<Word>, schedule: seq<nat>)
    requires Launchable(st, shape, count, mem) && Published(st.env, vars, results)
    requires D.Complete(LaunchOf(st, count, mem, results), D.Execute(LaunchOf(st, count, mem, results), schedule))
    ensures var after := TruncatedLoop(st, count, vars, mem);
      var grid := D.Execute(LaunchOf(st, count, mem, results), schedule);
      && after.Some? && grid.mem == after.value.1 && SameShape(mem, grid.mem)
      && Published(st.env, after.value.0, grid.results)
  {
    hide Launchable, Published, D.Disciplined, D.Execute, D.Sequential, TruncatedLoop;
    KernelDisciplined(st, shape, count, vars, mem, results);
    D.AnySchedule(LaunchOf(st, count, mem, results), DisciplineOf(st), schedule);
    LoopIsSequential(st, shape, count, count, vars, mem, results);
  }

  // The dispatch leaves alone every buffer the loop does not write and every
  // reduction of another loop.
  lemma LoopFrame(
    st: Setting, shape: KV.Shape, count: nat, vars: Vars, mem: Mem, results: seq<Word>, schedule: seq<nat>, b: nat, e: nat)
    requires Launchable(st, shape, count, mem) && Published(st.env, vars, results)
    ensures var grid := D.Execute(LaunchOf(st, count, mem, results), schedule);
      && |grid.results| == |results| && SameShape(mem, grid.mem)
      && (b < |mem| && b !in WrittenBuffers(Accesses(st)) ==> grid.mem[b] == mem[b])
      && (DisciplineOf(st).entry != Some(e) ==> WordAt(grid.results, e) == WordAt(results, e))
  {
    hide Launchable, Published, D.Disciplined, D.Execute;
    KernelDisciplined(st, shape, count, vars, mem, results);
    LaunchValid(st, shape, count, mem, results);
    D.UntouchedState(LaunchOf(st, count, mem, results), DisciplineOf(st), schedule, b, e);
  }

  lemma LaunchValid(st: Setting, shape: KV.Shape, count: nat, mem: Mem, results: seq<Word>)
    requires Launchable(st, shape, count, mem)
    ensures LaunchOf(st, count, mem, results).Valid()
  {
  }
}
