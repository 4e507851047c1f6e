// Which buffers live where: host transfers, and local buffers whose
// constructor is removed because the first kernel defines them completely.

module Residency {
  import opened Words
  import opened Hir
  import opened AccelIr
  import opened Lowering
  import opened LoweringMeaning
  import opened LoopMeaning
  import opened SizeDag
  import opened Ranges
  import opened Region
  import D = Dispatch
  import KV = KernelValidation
  import A = Admission
  import S = Slots
  import T = Typing

  // ------------------------------------------------------------------
  // Memories that differ in some buffers
  // ------------------------------------------------------------------

  ghost predicate AgreeOff(m1: Mem, m2: Mem, differ: set<nat>) {
    SameShape(m1, m2) && forall c: nat, y: nat :: c !in differ ==> MemAt(m1, c, y) == MemAt(m2, c, y)
  }

  ghost predicate NoLoad(code: seq<Instr>, differ: set<nat>) {
    forall i :: i in code && i.Load? ==> i.buffer !in differ
  }

  // Instruction n stores into element y of buffer c.
  predicate StoresAt(code: seq<Instr>, n: nat, inv: Invocation, mem: Mem, results: seq<Word>, c: nat, y: nat)
    requires n < |code|
  {
    code[n].Store? && code[n].buffer == c && ValueOf(Run(code, n, inv, mem, results), code[n].index).bits == y
  }

  ghost predicate Stored(code: seq<Instr>, n: nat, inv: Invocation, mem: Mem, results: seq<Word>, c: nat, y: nat)
    requires n <= |code|
  {
    exists i :: 0 <= i < n && StoresAt(code, i, inv, mem, results, c, y)
  }

  // An invocation that loads from no differing buffer computes the same
  // values and results, makes every element it stores equal, and lets no
  // equal element differ.
  lemma {:induction false} RunIgnores(
    code: seq<Instr>, n: nat, inv: Invocation, m1: Mem, m2: Mem, results: seq<Word>, differ: set<nat>)
    requires n <= |code| && AgreeOff(m1, m2, differ) && NoLoad(code, differ)
    ensures var (r1, r2) := (Run(code, n, inv, m1, results), Run(code, n, inv, m2, results));
      && r1.vals == r2.vals && r1.results == r2.results && AgreeOff(r1.mem, r2.mem, differ)
      && SameShape(m1, r1.mem)
      && (forall c: nat, y: nat :: MemAt(m1, c, y) == MemAt(m2, c, y) || Stored(code, n, inv, m1, results, c, y) ==>
           MemAt(r1.mem, c, y) == MemAt(r2.mem, c, y))
  {
    hide Operate, MemAt, MemPut;
    if n > 0 {
      RunIgnores(code, n - 1, inv, m1, m2, results, differ);
      StepIgnores(code[n - 1], inv, Run(code, n - 1, inv, m1, results), Run(code, n - 1, inv, m2, results), differ);
      StoredSnoc(code, n, inv, m1, results);
    }
  }

  lemma StepIgnores(i: Instr, inv: Invocation, r1: Machine, r2: Machine, differ: set<nat>)
    requires r1.vals == r2.vals && r1.results == r2.results && AgreeOff(r1.mem, r2.mem, differ)
    requires i.Load? ==> i.buffer !in differ
    ensures var (s1, s2) := (Step(i, inv, r1), Step(i, inv, r2));
      && s1.vals == s2.vals && s1.results == s2.results && AgreeOff(s1.mem, s2.mem, differ) && SameShape(r1.mem, s1.mem)
      && (forall c: nat, y: nat :: MemAt(r1.mem, c, y) == MemAt(r2.mem, c, y) ==> MemAt(s1.mem, c, y) == MemAt(s2.mem, c, y))
      && (i.Store? ==> MemAt(s1.mem, i.buffer, ValueOf(r1, i.index).bits) == MemAt(s2.mem, i.buffer, ValueOf(r1, i.index).bits))
  {
    hide Operate, MemAt, MemPut;
    match i
    case Store(b, at, v) =>
      var (x, w) := (ValueOf(r1, at).bits, ValueOf(r1, v).bits);
      D.MemPutAt(r1.mem, b, x, w);
      D.MemPutAt(r2.mem, b, x, w);
      ShapeAt(r1.mem, r2.mem, b, x);
    case _ =>
  }

  lemma ShapeAt(m1: Mem, m2: Mem, b: nat, x: nat)
    requires SameShape(m1, m2)
    ensures (b < |m1| && x < |m1[b]|) <==> (b < |m2| && x < |m2[b]|)
    ensures !(b < |m1| && x < |m1[b]|) ==> MemAt(m1, b, x) == MemAt(m2, b, x)
  {
  }

  lemma StoredSnoc(code: seq<Instr>, n: nat, inv: Invocation, mem: Mem, results: seq<Word>)
    requires 0 < n <= |code|
    ensures forall c: nat, y: nat :: Stored(code, n, inv, mem, results, c, y) <==>
      Stored(code, n - 1, inv, mem, results, c, y) || StoresAt(code, n - 1, inv, mem, results, c, y)
  {
    hide Run;
  }

  // ------------------------------------------------------------------
  // A dispatch over memories that differ
  // ------------------------------------------------------------------

  lemma {:induction false} SequentialIgnores(l: D.Launch, mem: Mem, k: nat, differ: set<nat>)
    requires l.Valid() && k <= l.count && AgreeOff(l.mem, mem, differ) && NoLoad(l.code, differ)
    ensures var (s1, s2) := (D.Sequential(l, k), D.Sequential(l.(mem := mem), k));
      && s1.results == s2.results && AgreeOff(s1.mem, s2.mem, differ)
      && (forall c: nat, y: nat :: MemAt(l.mem, c, y) == MemAt(mem, c, y) || LanesStored(l, k, c, y) ==>
           MemAt(s1.mem, c, y) == MemAt(s2.mem, c, y))
  {
    hide Run, MemAt, Stored;
    if k > 0 {
      SequentialIgnores(l, mem, k - 1, differ);
      var (b1, b2) := (D.Sequential(l, k - 1), D.Sequential(l.(mem := mem), k - 1));
      RunIgnores(l.code, |l.code|, D.Lane(l, k - 1), b1.mem, b2.mem, b1.results, differ);
    }
  }

  // One of the first k lanes, run in order, stores into the element.
  ghost predicate LanesStored(l: D.Launch, k: nat, c: nat, y: nat)
    requires l.Valid() && k <= l.count
  {
    exists t :: 0 <= t < k && LaneStored(l, t, c, y)
  }

  ghost predicate LaneStored(l: D.Launch, t: nat, c: nat, y: nat)
    requires l.Valid() && t < l.count
  {
    var before := D.Sequential(l, t);
    Stored(l.code, |l.code|, D.Lane(l, t), before.mem, before.results, c, y)
  }

  // ------------------------------------------------------------------
  // Accesses and instructions
  // ------------------------------------------------------------------

  lemma StoreEmits(s: LowerState, env: KernelEnv, base: Expr, index: Expr, rhs: Expr)
    requires LowerStore(s, env, base, index, rhs).Success?
    ensures TermSymbol(base).Some? && CatalogBuffer(env.buffers, TermSymbol(base).value).Some?
    ensures var code := LowerStore(s, env, base, index, rhs).value.code;
      |code| > 0 && code[|code| - 1].Store?
      && code[|code| - 1].buffer == CatalogBuffer(env.buffers, TermSymbol(base).value).value.binding
  {
    hide LowerIndex, LowerExpr;
  }

  lemma {:induction false} ExprReadsOnly(env: KernelEnv, e: Expr)
    ensures forall a :: a in ExprAccesses(env, e) ==> !a.write
  {
    match e
    case Unary(_, x) => ExprReadsOnly(env, x);
    case Binary(_, l, r) => ExprReadsOnly(env, l); ExprReadsOnly(env, r);
    case Subscript(base, index) => ExprReadsOnly(env, index);
    case _ =>
  }

  // Every write access of an accepted body is performed by a store.
  lemma {:induction false} WritesEmitted(env: KernelEnv, shape: KV.Shape, body: seq<Stmt>, a: Access)
    requires KV.TablesFit(env, shape) && LowerBody(env, body).Success?
    requires a in BodyAccesses(env, body) && a.write
    ensures exists i :: i in LowerBody(env, body).value.code && i.Store? && i.buffer == a.buffer
    decreases |body|
  {
    hide LowerStatement, KV.Sound, KV.TablesFit, LowerStore;
    var front, last := body[..|body| - 1], body[|body| - 1];
    KV.BodySound(env, shape, front);
    var s := LowerBody(env, front).value;
    KV.StatementSound(env, shape, s, last);
    var s1 := LowerBody(env, body).value;
    if a in BodyAccesses(env, front) {
      WritesEmitted(env, shape, front, a);
      var i :| i in s.code && i.Store? && i.buffer == a.buffer;
      assert i in s1.code;
    } else {
      StoreStatement(env, s, last, a);
    }
  }

  lemma StoreStatement(env: KernelEnv, s: LowerState, stmt: Stmt, a: Access)
    requires LowerStatement(s, env, stmt).Success? && a in StmtAccesses(env, stmt) && a.write
    ensures var code := LowerStatement(s, env, stmt).value.code;
      |code| > 0 && code[|code| - 1].Store? && code[|code| - 1].buffer == a.buffer
  {
    hide LowerStore, LowerAtomic, LowerAssign, ExprAccesses;
    ExprReadsOnly(env, stmt.rhs);
    match stmt.lhs
    case Subscript(base, index) =>
      ExprReadsOnly(env, index);
      StoreEmits(s, env, base, index, stmt.rhs);
    case _ =>
  }

  // Lane t stores into the element its write access addresses.
  lemma LaneStoresHome(
    st: Setting, shape: KV.Shape, count: nat, vars: Vars, mem: Mem, results: seq<Word>, t: nat, a: Access)
    requires Launchable(st, shape, count, mem) && Published(st.env, vars, results)
    requires a in Accesses(st) && a.write && t < count
    ensures LaneStored(LaunchOf(st, count, mem, results), t, a.buffer, AddressAt(st, a, t))
  {
    hide WellFormed, Matches, Run, BodyAccesses, LowerBody, Addressed, ExecBody, KV.TablesFit, AffineWord, D.Sequential, TruncatedLoop, Fits;
    var l := LaunchOf(st, count, mem, results);
    LoopIsSequential(st, shape, count, t, vars, mem, results);
    var before := D.Sequential(l, t);
    var sc := SceneAt(st, t, before.mem, before.results);
    SceneMatches(st, t, before.mem, before.results);
    SceneFits(st, count, t, mem, before.mem, before.results);
    IterationMeaning(sc, st.body, TruncatedLoop(st, t, vars, mem).value.0);
    WritesEmitted(st.env, shape, st.body, a);
    StoreAddress(sc, Code(st), Accesses(st), a, st);
  }

  lemma StoreAddress(sc: Scene, code: seq<Instr>, accesses: seq<Access>, a: Access, st: Setting)
    requires Addressed(sc, code, accesses) && accesses == Accesses(st) && Independent(accesses)
    requires a in accesses && a.write && exists i :: i in code && i.Store? && i.buffer == a.buffer
    ensures Stored(code, |code|, sc.inv, sc.mem, sc.results, a.buffer, AddressWord(sc, a))
  {
    hide Run, BodyAccesses, AffineWord, Independent;
    var i :| i in code && i.Store? && i.buffer == a.buffer;
    var n :| 0 <= n < |code| && code[n] == i;
    var w :| w in accesses && AddressedBy(sc, code, n, w);
    SameIndex(st, a, w);
    assert StoresAt(code, n, sc.inv, sc.mem, sc.results, a.buffer, AddressWord(sc, a));
  }

  ghost predicate ReadsNone(accesses: seq<Access>, differ: set<nat>) {
    forall a :: a in accesses && !a.write ==> a.buffer !in differ
  }

  lemma NoReadNoLoad(st: Setting, shape: KV.Shape, count: nat, vars: Vars, mem: Mem, results: seq<Word>, differ: set<nat>)
    requires Launchable(st, shape, count, mem) && Published(st.env, vars, results) && count > 0
    requires ReadsNone(Accesses(st), differ)
    ensures NoLoad(Code(st), differ)
  {
    hide WellFormed, Matches, Run, BodyAccesses, LowerBody, ExecBody, KV.TablesFit, Fits;
    var sc := SceneAt(st, 0, mem, results);
    SceneMatches(st, 0, mem, results);
    SceneFits(st, count, 0, mem, mem, results);
    IterationMeaning(sc, st.body, vars);
    var code := Code(st);
    forall i | i in code && i.Load? ensures i.buffer !in differ {
      var n :| 0 <= n < |code| && code[n] == i;
      var a :| a in Accesses(st) && AddressedBy(sc, code, n, a);
    }
  }

  // One kernel over two memories that differ only in buffers it does not
  // read: the results agree, no equal element comes to differ, and every
  // element a lane writes becomes equal.
  lemma KernelAgree(
    st: Setting, shape: KV.Shape, count: nat, vars: Vars, m1: Mem, m2: Mem, results: seq<Word>, schedule: seq<nat>, differ: set<nat>)
    requires Launchable(st, shape, count, m1) && Launchable(st, shape, count, m2) && Published(st.env, vars, results)
    requires AgreeOff(m1, m2, differ) && (count > 0 ==> ReadsNone(Accesses(st), differ))
    requires var (l1, l2) := (LaunchOf(st, count, m1, results), LaunchOf(st, count, m2, results));
      D.Complete(l1, D.Execute(l1, schedule)) && D.Complete(l2, D.Execute(l2, schedule))
    ensures var g1 := D.Execute(LaunchOf(st, count, m1, results), schedule);
      var g2 := D.Execute(LaunchOf(st, count, m2, results), schedule);
      && g1.results == g2.results && AgreeOff(g1.mem, g2.mem, differ)
      && (forall a, t :: a in Accesses(st) && a.write && 0 <= t < count ==>
           MemAt(g1.mem, a.buffer, AddressAt(st, a, t)) == MemAt(g2.mem, a.buffer, AddressAt(st, a, t)))
  {
    hide Launchable, Published, D.Disciplined, D.Execute, MemAt, LaneStored, AddressAt, D.Complete, BodyAccesses;
    var (l1, l2) := (LaunchOf(st, count, m1, results), LaunchOf(st, count, m2, results));
    assert l2 == l1.(mem := m2);
    KernelDisciplined(st, shape, count, vars, m1, results);
    KernelDisciplined(st, shape, count, vars, m2, results);
    D.AnySchedule(l1, DisciplineOf(st), schedule);
    D.AnySchedule(l2, DisciplineOf(st), schedule);
    if count == 0 {
      assert D.Sequential(l1, 0).mem == m1 && D.Sequential(l1, 0).results == results;
      assert D.Sequential(l2, 0).mem == m2 && D.Sequential(l2, 0).results == results;
      return;
    }
    NoReadNoLoad(st, shape, count, vars, m1, results, differ);
    LaunchValid(st, shape, count, m1, results);
    SequentialIgnores(l1, m2, count, differ);
    forall a, t | a in Accesses(st) && a.write && 0 <= t < count
      ensures LanesStored(l1, count, a.buffer, AddressAt(st, a, t))
    {
      LaneStoresHome(st, shape, count, vars, m1, results, t, a);
    }
  }

  // ------------------------------------------------------------------
  // Completion does not depend on the memory
  // ------------------------------------------------------------------

  ghost predicate SameProgress(l: D.Launch, g1: D.Grid, g2: D.Grid) {
    |g1.threads| == |g2.threads| == l.count && forall t :: 0 <= t < l.count ==> g1.threads[t].pc == g2.threads[t].pc
  }

  lemma StepProgress(l: D.Launch, mem: Mem, g1: D.Grid, g2: D.Grid, t: nat)
    requires D.Fitting(l, g1) && D.Fitting(l, g2) && SameProgress(l, g1, g2)
    ensures D.Fitting(l.(mem := mem), g2) && SameProgress(l, D.GridStep(l, g1, t), D.GridStep(l.(mem := mem), g2, t))
  {
    hide Step;
  }

  lemma {:induction false} ProgressIgnoresMemory(l: D.Launch, mem: Mem, schedule: seq<nat>)
    requires l.Valid()
    ensures SameProgress(l, D.Execute(l, schedule), D.Execute(l.(mem := mem), schedule))
    decreases |schedule|
  {
    hide D.GridStep;
    if schedule != [] {
      var (front, t) := (schedule[..|schedule| - 1], schedule[|schedule| - 1]);
      ProgressIgnoresMemory(l, mem, front);
      StepProgress(l, mem, D.Execute(l, front), D.Execute(l.(mem := mem), front), t);
    }
  }

  lemma CompleteAlike(l: D.Launch, mem: Mem, schedule: seq<nat>)
    requires l.Valid() && D.Complete(l, D.Execute(l, schedule))
    ensures D.Complete(l.(mem := mem), D.Execute(l.(mem := mem), schedule))
  {
    hide D.Execute;
    ProgressIgnoresMemory(l, mem, schedule);
  }

  // ------------------------------------------------------------------
  // Host transfers
  // ------------------------------------------------------------------

  // An active kernel accesses the buffer: it is uploaded.
  ghost predicate Uploaded(r: Region, act: Actuals, b: nat) {
    exists k, a :: 0 <= k < |r.loops| && TripCount(r, act, k) != 0 && a in BoundsAt(r, k).accesses && a.buffer == b
  }

  // An active kernel writes the buffer: it is downloaded.
  ghost predicate Downloaded(r: Region, act: Actuals, b: nat) {
    exists k, a :: 0 <= k < |r.loops| && TripCount(r, act, k) != 0 && a in BoundsAt(r, k).accesses && a.buffer == b && a.write
  }

  // Whole-buffer copies of the downloaded buffers into the host's memory.
  ghost function HostAfter(r: Region, act: Actuals, host: Mem, device: Mem): Mem
    requires |host| == |device|
  {
    seq(|host|, (b: nat) requires b < |host| => if Downloaded(r, act, b) then device[b] else host[b])
  }

  ghost function NotUploaded(r: Region, act: Actuals): set<nat> {
    set b: nat | b < r.buffers && !Uploaded(r, act, b)
  }

  lemma ActiveReadsNone(r: Region, act: Actuals, k: nat)
    requires k < |r.loops|
    ensures TripCount(r, act, k) > 0 ==> ReadsNone(Accesses(SettingAt(r, act, k)), NotUploaded(r, act))
  {
    hide BodyAccesses, TripCount;
    assert Accesses(SettingAt(r, act, k)) == BoundsAt(r, k).accesses;
  }

  lemma DeviceStep(
    r: Region, act: Actuals, lengths: seq<nat>, k: nat, vars0: Vars, vars: Vars, m1: Mem, m2: Mem,
    results: seq<Word>, schedule: seq<nat>, differ: set<nat>)
    requires Runnable(r, act, lengths) && k < |r.loops|
    requires Holding(m1, lengths) && Holding(m2, lengths) && AgreeOff(m1, m2, differ)
    requires ResultsReady(r, k, vars, results) && (k == 0 ==> vars == vars0 && EntryReady(r, vars0))
    requires TripCount(r, act, k) > 0 ==> ReadsNone(Accesses(SettingAt(r, act, k)), differ)
    requires var l := LaunchOf(SettingAt(r, act, k), TripCount(r, act, k), m1, results);
      D.Complete(l, D.Execute(l, schedule))
    ensures var l1 := LaunchOf(SettingAt(r, act, k), TripCount(r, act, k), m1, results);
      var l2 := LaunchOf(SettingAt(r, act, k), TripCount(r, act, k), m2, results);
      && D.Complete(l2, D.Execute(l2, schedule))
      && AgreeOff(D.Execute(l1, schedule).mem, D.Execute(l2, schedule).mem, differ)
      && D.Execute(l1, schedule).results == D.Execute(l2, schedule).results
      && (forall a, t :: a in Accesses(SettingAt(r, act, k)) && a.write && 0 <= t < TripCount(r, act, k) ==>
           MemAt(D.Execute(l1, schedule).mem, a.buffer, AddressAt(SettingAt(r, act, k), a, t)) ==
           MemAt(D.Execute(l2, schedule).mem, a.buffer, AddressAt(SettingAt(r, act, k), a, t)))
  {
    hide Compiled, ArgumentsBound, RuntimeAccepts, TripCount, D.Execute, D.Complete, Launchable, Published, ReadsNone, AgreeOff, ResultsReady, Initialised, AddressAt, MemAt;
    var st, count := SettingAt(r, act, k), TripCount(r, act, k);
    KernelLaunchable(r, act, lengths, m1, k);
    KernelLaunchable(r, act, lengths, m2, k);
    ReadyPublished(r, k, vars0, vars, results);
    CompleteAlike(LaunchOf(st, count, m1, results), m2, schedule);
    KernelAgree(st, r.shape, count, Initialised(r, k, vars), m1, m2, results, schedule, differ);
  }

  // The variables after k source loops.
  function SourceAt(r: Region, act: Actuals, k: nat, vars: Vars, mem: Mem): Vars
    requires k <= |r.loops|
  {
    if TruncatedRegion(r, act, k, vars, mem).Some? then TruncatedRegion(r, act, k, vars, mem).value.0 else vars
  }

  // What the simulation says about the device between kernels k - 1 and k.
  lemma StateBefore(
    r: Region, act: Actuals, lengths: seq<nat>, schedules: seq<seq<nat>>, k: nat, vars: Vars, mem: Mem, results: seq<Word>)
    requires Runnable(r, act, lengths) && k <= |r.loops| == |schedules|
    requires Holding(mem, lengths) && EntryReady(r, vars)
    requires |results| == |ResultsOf(r.loops)| && forall j :: 0 <= j < |results| ==> results[j] == 0
    requires AllComplete(r, act, schedules, k, Device(mem, results))
    ensures var dev := Dispatched(r, act, schedules, k, Device(mem, results));
      && Holding(dev.mem, lengths) && ResultsReady(r, k, SourceAt(r, act, k, vars, mem), dev.results)
      && (k == 0 ==> SourceAt(r, act, k, vars, mem) == vars)
  {
    hide Compiled, ArgumentsBound, RuntimeAccepts, TripCount, AllComplete, ResultsOf, ResultsReady, Dispatched;
    RegionUpTo(r, act, lengths, schedules, k, vars, mem, results);
  }

  function LaunchAt(r: Region, act: Actuals, k: nat, dev: Device): D.Launch
    requires k < |r.loops|
  {
    LaunchOf(SettingAt(r, act, k), TripCount(r, act, k), dev.mem, dev.results)
  }

  lemma DispatchedNext(r: Region, act: Actuals, schedules: seq<seq<nat>>, k: nat, dev: Device)
    requires k < |r.loops| == |schedules|
    requires forall j :: 0 <= j < |r.loops| ==> TripCount(r, act, j) <= 0x1_0000_0000
    ensures var grid := D.Execute(LaunchAt(r, act, k, Dispatched(r, act, schedules, k, dev)), schedules[k]);
      Dispatched(r, act, schedules, k + 1, dev) == Device(grid.mem, grid.results)
    ensures var l := LaunchAt(r, act, k, Dispatched(r, act, schedules, k, dev));
      AllComplete(r, act, schedules, k + 1, dev) <==>
      AllComplete(r, act, schedules, k, dev) && D.Complete(l, D.Execute(l, schedules[k]))
  {
    hide TripCount, D.Execute, D.Complete;
  }

  ghost predicate Alike(r: Region, act: Actuals, schedules: seq<seq<nat>>, k: nat, dev1: Device, dev2: Device, differ: set<nat>)
    requires k <= |r.loops| == |schedules|
    requires forall j :: 0 <= j < |r.loops| ==> TripCount(r, act, j) <= 0x1_0000_0000
  {
    var (d1, d2) := (Dispatched(r, act, schedules, k, dev1), Dispatched(r, act, schedules, k, dev2));
    AllComplete(r, act, schedules, k, dev2) && AgreeOff(d1.mem, d2.mem, differ) && d1.results == d2.results
  }

  lemma AlikeNext(
    r: Region, act: Actuals, lengths: seq<nat>, schedules: seq<seq<nat>>, k: nat, vars: Vars, m1: Mem, m2: Mem,
    results: seq<Word>, differ: set<nat>)
    requires Runnable(r, act, lengths) && k < |r.loops| == |schedules|
    requires Holding(m1, lengths) && Holding(m2, lengths) && EntryReady(r, vars)
    requires |results| == |ResultsOf(r.loops)| && forall j :: 0 <= j < |results| ==> results[j] == 0
    requires AllComplete(r, act, schedules, k + 1, Device(m1, results))
    requires TripCount(r, act, k) > 0 ==> ReadsNone(Accesses(SettingAt(r, act, k)), differ)
    requires Alike(r, act, schedules, k, Device(m1, results), Device(m2, results), differ)
    ensures Alike(r, act, schedules, k + 1, Device(m1, results), Device(m2, results), differ)
  {
    hide Compiled, ArgumentsBound, RuntimeAccepts, TripCount, D.Execute, D.Complete, ResultsOf, ReadsNone, AgreeOff, ResultsReady, SourceAt, Holding, EntryReady, Accesses, SettingAt, AllComplete, Dispatched;
    DispatchedNext(r, act, schedules, k, Device(m1, results));
    DispatchedNext(r, act, schedules, k, Device(m2, results));
    StateBefore(r, act, lengths, schedules, k, vars, m1, results);
    StateBefore(r, act, lengths, schedules, k, vars, m2, results);
    var d1 := Dispatched(r, act, schedules, k, Device(m1, results));
    var d2 := Dispatched(r, act, schedules, k, Device(m2, results));
    DeviceStep(r, act, lengths, k, vars, SourceAt(r, act, k, vars, m1), d1.mem, d2.mem, d1.results, schedules[k], differ);
  }

  // Two devices that differ only in buffers no kernel reads stay so, with
  // equal results.
  lemma {:induction false} DevicesAgree(
    r: Region, act: Actuals, lengths: seq<nat>, schedules: seq<seq<nat>>, k: nat, vars: Vars, m1: Mem, m2: Mem,
    results: seq<Word>, differ: set<nat>)
    requires Runnable(r, act, lengths) && k <= |r.loops| == |schedules|
    requires Holding(m1, lengths) && Holding(m2, lengths) && EntryReady(r, vars) && AgreeOff(m1, m2, differ)
    requires |results| == |ResultsOf(r.loops)| && forall j :: 0 <= j < |results| ==> results[j] == 0
    requires AllComplete(r, act, schedules, k, Device(m1, results))
    requires forall j :: 0 <= j < |r.loops| && TripCount(r, act, j) > 0 ==> ReadsNone(Accesses(SettingAt(r, act, j)), differ)
    ensures Alike(r, act, schedules, k, Device(m1, results), Device(m2, results), differ)
  {
    hide Compiled, ArgumentsBound, RuntimeAccepts, TripCount, ResultsOf, ReadsNone, AgreeOff, Holding, EntryReady, Accesses, SettingAt, Alike, AllComplete, Dispatched, D.Execute, D.Complete, LaunchAt;
    if k == 0 {
      AlikeAtStart(r, act, schedules, Device(m1, results), Device(m2, results), differ);
    } else {
      DispatchedNext(r, act, schedules, k - 1, Device(m1, results));
      DevicesAgree(r, act, lengths, schedules, k - 1, vars, m1, m2, results, differ);
      AlikeNext(r, act, lengths, schedules, k - 1, vars, m1, m2, results, differ);
    }
  }

  lemma AlikeAtStart(r: Region, act: Actuals, schedules: seq<seq<nat>>, dev1: Device, dev2: Device, differ: set<nat>)
    requires |r.loops| == |schedules| && AgreeOff(dev1.mem, dev2.mem, differ) && dev1.results == dev2.results
    requires forall j :: 0 <= j < |r.loops| ==> TripCount(r, act, j) <= 0x1_0000_0000
    ensures Alike(r, act, schedules, 0, dev1, dev2, differ)
  {
    hide TripCount, AgreeOff;
  }

  // A buffer no active kernel writes keeps its contents on the device.
  lemma {:induction false} NotDownloadedKept(
    r: Region, act: Actuals, lengths: seq<nat>, schedules: seq<seq<nat>>, k: nat, vars: Vars, mem: Mem, results: seq<Word>, b: nat)
    requires Runnable(r, act, lengths) && k <= |r.loops| == |schedules|
    requires Holding(mem, lengths) && EntryReady(r, vars)
    requires |results| == |ResultsOf(r.loops)| && forall j :: 0 <= j < |results| ==> results[j] == 0
    requires AllComplete(r, act, schedules, k, Device(mem, results))
    requires b < |mem| && !Downloaded(r, act, b)
    ensures var d := Dispatched(r, act, schedules, k, Device(mem, results)); b < |d.mem| && d.mem[b] == mem[b]
  {
    hide Compiled, ArgumentsBound, RuntimeAccepts, TripCount, D.Execute, D.Complete, TruncatedLoop, ResultsOf, Launchable, Published, BodyAccesses;
    if k > 0 {
      NotDownloadedKept(r, act, lengths, schedules, k - 1, vars, mem, results, b);
      RegionUpTo(r, act, lengths, schedules, k - 1, vars, mem, results);
      var d := Dispatched(r, act, schedules, k - 1, Device(mem, results));
      var vars1 := TruncatedRegion(r, act, k - 1, vars, mem).value.0;
      KernelLaunchable(r, act, lengths, d.mem, k - 1);
      ReadyPublished(r, k - 1, vars, vars1, d.results);
      var st := SettingAt(r, act, k - 1);
      if TripCount(r, act, k - 1) == 0 {
        EmptyDispatch(st, r.shape, Initialised(r, k - 1, vars1), d.mem, d.results, schedules[k - 1]);
      } else {
        LoopFrame(st, r.shape, TripCount(r, act, k - 1), Initialised(r, k - 1, vars1), d.mem, d.results, schedules[k - 1], b, 0);
        assert Accesses(st) == BoundsAt(r, k - 1).accesses;
        assert b !in WrittenBuffers(Accesses(st));
      }
    }
  }

  lemma EmptyDispatch(st: Setting, shape: KV.Shape, vars: Vars, mem: Mem, results: seq<Word>, schedule: seq<nat>)
    requires Launchable(st, shape, 0, mem) && Published(st.env, vars, results)
    requires D.Complete(LaunchOf(st, 0, mem, results), D.Execute(LaunchOf(st, 0, mem, results), schedule))
    ensures D.Execute(LaunchOf(st, 0, mem, results), schedule).mem == mem
  {
    hide Launchable, Published, D.Disciplined, D.Execute;
    KernelDisciplined(st, shape, 0, vars, mem, results);
    D.AnySchedule(LaunchOf(st, 0, mem, results), DisciplineOf(st), schedule);
  }

  // Uploading the buffers active kernels use, dispatching, and downloading
  // the ones they write leaves every host buffer as the sequential loops do,
  // whatever the other device buffers held.
  lemma HostTransfer(
    r: Region, act: Actuals, lengths: seq<nat>, schedules: seq<seq<nat>>, vars: Vars, host: Mem, device: Mem, results: seq<Word>)
    requires Runnable(r, act, lengths) && |r.loops| == |schedules|
    requires Holding(host, lengths) && Holding(device, lengths) && EntryReady(r, vars)
    requires forall b :: 0 <= b < |host| && Uploaded(r, act, b) ==> device[b] == host[b]
    requires |results| == |ResultsOf(r.loops)| && forall j :: 0 <= j < |results| ==> results[j] == 0
    requires AllComplete(r, act, schedules, |r.loops|, Device(device, results))
    ensures var source := TruncatedRegion(r, act, |r.loops|, vars, host);
      var after := Dispatched(r, act, schedules, |r.loops|, Device(device, results));
      && source.Some? && |after.mem| == |host| && |after.results| == |results|
      && HostAfter(r, act, host, after.mem) == source.value.1
      && (forall j :: 0 <= j < |results| ==>
           ResultsOf(r.loops)[j].name in source.value.0
           && source.value.0[ResultsOf(r.loops)[j].name] == IntVal(after.results[j]))
  {
    hide ArgumentsBound, RuntimeAccepts, TripCount, D.Execute, D.Complete, TruncatedRegion, ResultsOf, Dispatched, BodyAccesses, LoopCompiled;
    var differ := NotUploaded(r, act);
    assert |lengths| == r.buffers by { LengthsMatch(r, act, lengths); }
    DevicesStart(r, act, host, device);
    forall j | 0 <= j < |r.loops| && TripCount(r, act, j) > 0 ensures ReadsNone(Accesses(SettingAt(r, act, j)), differ) {
      ActiveReadsNone(r, act, j);
    }
    var n := |r.loops|;
    DevicesAgree(r, act, lengths, schedules, n, vars, device, host, results, differ);
    RegionSimulation(r, act, lengths, schedules, vars, host, results);
    var (d1, d2) := (Dispatched(r, act, schedules, n, Device(host, results)), Dispatched(r, act, schedules, n, Device(device, results)));
    assert |d1.mem| == |host| by { RegionUpTo(r, act, lengths, schedules, n, vars, host, results); }
    forall b | 0 <= b < |host| ensures (if Downloaded(r, act, b) then d2.mem[b] else host[b]) == d1.mem[b] {
      if Downloaded(r, act, b) {
        assert Uploaded(r, act, b);
        RowsAgree(d2.mem, d1.mem, differ, b);
      } else {
        NotDownloadedKept(r, act, lengths, schedules, n, vars, host, results, b);
      }
    }
    assert HostAfter(r, act, host, d2.mem) == d1.mem;
  }

  lemma LengthsMatch(r: Region, act: Actuals, lengths: seq<nat>)
    requires Runnable(r, act, lengths)
    ensures |lengths| == r.buffers
  {
  }

  lemma DevicesStart(r: Region, act: Actuals, host: Mem, device: Mem)
    requires SameShape(host, device) && |host| == r.buffers
    requires forall b :: 0 <= b < |host| && Uploaded(r, act, b) ==> device[b] == host[b]
    ensures AgreeOff(device, host, NotUploaded(r, act))
  {
    hide Uploaded;
  }

  lemma RowsAgree(m1: Mem, m2: Mem, differ: set<nat>, b: nat)
    requires AgreeOff(m1, m2, differ) && b < |m1| && b !in differ
    ensures m1[b] == m2[b]
  {
    forall y | 0 <= y < |m1[b]| ensures m1[b][y] == m2[b][y] {
      assert MemAt(m1, b, y) == MemAt(m2, b, y);
    }
  }

  // ------------------------------------------------------------------
  // Device-local buffers
  // ------------------------------------------------------------------

  // An optionally parenthesised int literal.
  function IntegerLiteral(e: Expr): Option<Int32> { TermInt(StripPar(e)) }

  predicate ExtentEqual(first: Expr, second: Expr) {
    match IntegerLiteral(first)
    case Some(c) => IntegerLiteral(second) == Some(c)
    case None => TermSymbol(StripPar(first)).Some? && TermSymbol(StripPar(first)) == TermSymbol(StripPar(second))
  }

  predicate ExtentSupported(scalars: seq<Scalar>, extent: Expr) {
    match IntegerLiteral(extent)
    case Some(c) => c > 0
    case None => TermSymbol(StripPar(extent)).Some? && IntScalar(scalars, TermSymbol(StripPar(extent)).value).Success?
  }

  datatype FirstKernel = FirstKernel(readsIt: bool, writesIt: bool, fullOverwrite: bool, exactExtent: bool)

  predicate ReadsBuffer(accesses: seq<Access>, b: nat) { exists a :: a in accesses && a.buffer == b && !a.write }

  predicate WritesBuffer(accesses: seq<Access>, b: nat) { exists a :: a in accesses && a.buffer == b && a.write }

  // A write through the bare counter.
  predicate ExactWrite(a: Access, b: nat) {
    a.buffer == b && a.write && a.index.kind.CounterOffset? && a.index.offset == 0 && a.index.symbol.None?
  }

  predicate WritesExactly(accesses: seq<Access>, b: nat) { exists a :: a in accesses && ExactWrite(a, b) }

  predicate ReadLater(loops: seq<LoopBounds>, b: nat) {
    exists k :: 1 <= k < |loops| && ReadsBuffer(loops[k].accesses, b)
  }

  function FirstKernelOf(loops: seq<LoopBounds>, b: nat, extent: Expr): FirstKernel {
    if |loops| < 2 then FirstKernel(false, false, false, false)
    else
      var (readsIt, writesIt) := (ReadsBuffer(loops[0].accesses, b), WritesBuffer(loops[0].accesses, b));
      if IntegerLiteral(loops[0].start) != Some(0) || !ExtentEqual(loops[0].stop, extent)
      then FirstKernel(readsIt, writesIt, false, false)
      else
        FirstKernel(readsIt, writesIt,
          WriteCount(loops[0].accesses, b) == 1 && WritesExactly(loops[0].accesses, b) && ReadLater(loops, b), true)
  }

  // Looks for a read of the buffer by a later kernel.
  method FindLaterRead(loops: seq<LoopBounds>, b: nat) returns (later: bool)
    requires |loops| > 0
    ensures later <==> ReadLater(loops, b)
  {
    hide ReadLater;
    later := false;
    ReadLaterNone(loops, b);
    for k := 1 to |loops|
      invariant later <==> ReadLater(loops[..k], b)
    {
      var accesses := loops[k].accesses;
      for j := 0 to |accesses|
        invariant later <==> ReadLater(loops[..k], b) || ReadsBuffer(accesses[..j], b)
      {
        assert accesses[..j + 1] == accesses[..j] + [accesses[j]];
        if accesses[j].buffer == b && !accesses[j].write { later := true; }
      }
      assert accesses[..|accesses|] == accesses;
      ReadLaterNext(loops, k, b);
    }
    assert loops[..|loops|] == loops;
  }

  // Collects the first kernel's accesses to the buffer.
  method CollectFirstKernel(loops: seq<LoopBounds>, b: nat, extent: Expr) returns (facts: FirstKernel)
    ensures facts == FirstKernelOf(loops, b, extent)
  {
    hide ReadLater, IntegerLiteral, ExtentEqual, ReadsBuffer, WritesBuffer, WritesExactly, WriteCount, ExactWrite;
    if |loops| < 2 { return FirstKernel(false, false, false, false); }
    var first := loops[0].accesses;
    var (readsIt, writesIt, exact) := (false, false, false);
    var count := 0;
    NoAccesses(first, b);
    for i := 0 to |first|
      invariant readsIt <==> ReadsBuffer(first[..i], b)
      invariant writesIt <==> WritesBuffer(first[..i], b)
      invariant exact <==> WritesExactly(first[..i], b)
      invariant count == WriteCount(first[..i], b)
    {
      NextAccess(first, i, b);
      if first[i].buffer == b {
        if !first[i].write {
          readsIt := true;
        } else {
          writesIt, count := true, count + 1;
          if ExactWrite(first[i], b) { exact := true; }
        }
      }
    }
    assert first[..|first|] == first;
    var later := FindLaterRead(loops, b);
    if IntegerLiteral(loops[0].start) != Some(0) || !ExtentEqual(loops[0].stop, extent) {
      return FirstKernel(readsIt, writesIt, false, false);
    }
    return FirstKernel(readsIt, writesIt, count == 1 && exact && later, true);
  }

  lemma NoAccesses(accesses: seq<Access>, b: nat)
    ensures !ReadsBuffer(accesses[..0], b) && !WritesBuffer(accesses[..0], b) && !WritesExactly(accesses[..0], b)
    ensures WriteCount(accesses[..0], b) == 0
  {
  }

  lemma NextAccess(accesses: seq<Access>, i: nat, b: nat)
    requires i < |accesses|
    ensures var (before, a) := (accesses[..i], accesses[i]);
      && (ReadsBuffer(accesses[..i + 1], b) <==> ReadsBuffer(before, b) || (a.buffer == b && !a.write))
      && (WritesBuffer(accesses[..i + 1], b) <==> WritesBuffer(before, b) || (a.buffer == b && a.write))
      && (WritesExactly(accesses[..i + 1], b) <==> WritesExactly(before, b) || ExactWrite(a, b))
      && (ExactWrite(a, b) ==> a.buffer == b && a.write)
      && WriteCount(accesses[..i + 1], b) == WriteCount(before, b) + if a.buffer == b && a.write then 1 else 0
  {
    assert accesses[..i + 1] == accesses[..i] + [accesses[i]];
  }

  lemma ReadLaterNone(loops: seq<LoopBounds>, b: nat)
    ensures |loops| > 0 ==> !ReadLater(loops[..1], b)
  {
  }

  lemma ReadLaterNext(loops: seq<LoopBounds>, k: nat, b: nat)
    requires 1 <= k < |loops|
    ensures ReadLater(loops[..k + 1], b) <==> ReadLater(loops[..k], b) || ReadsBuffer(loops[k].accesses, b)
  {
    hide ReadsBuffer;
    if ReadLater(loops[..k], b) {
      var j :| 1 <= j < k && ReadsBuffer(loops[..k][j].accesses, b);
      assert ReadsBuffer(loops[..k + 1][j].accesses, b);
    }
    if ReadsBuffer(loops[k].accesses, b) {
      assert ReadsBuffer(loops[..k + 1][k].accesses, b);
    }
    if ReadLater(loops[..k + 1], b) {
      var j :| 1 <= j < k + 1 && ReadsBuffer(loops[..k + 1][j].accesses, b);
      if j < k {
        assert ReadsBuffer(loops[..k][j].accesses, b);
      }
    }
  }

  datatype Storage = ParameterStorage | LocalStorage | OtherStorage

  datatype Facts = Facts(
    exactConstructor: bool, declarationAdjacent: bool, uniqueRegion: bool, immutableExtent: bool,
    cpuRead: bool, cpuWrite: bool, returned: bool, escaped: bool, unknownCall: bool, reassigned: bool,
    firstKernel: FirstKernel)

  function ClassifyBuffer(storage: Storage, reassigned: bool): S.Class {
    if reassigned then S.Unsupported
    else match storage
      case ParameterStorage => S.ParameterHost
      case LocalStorage => S.LocalHost
      case OtherStorage => S.Unsupported
  }

  function ClassifyDeviceLocal(storage: Storage, facts: Option<Facts>): S.Class {
    var class_ := ClassifyBuffer(storage, facts.Some? && facts.value.reassigned);
    if !class_.LocalHost? || facts.None? then class_
    else
      var f := facts.value;
      if !f.exactConstructor || !f.declarationAdjacent || !f.uniqueRegion || !f.immutableExtent then class_
      else if f.cpuRead || f.cpuWrite || f.returned || f.escaped || f.unknownCall || f.reassigned then class_
      else if f.firstKernel.readsIt || !f.firstKernel.writesIt || !f.firstKernel.fullOverwrite || !f.firstKernel.exactExtent then class_
      else S.LocalDevice
  }

  // What the effect scan recorded about a buffer.
  datatype Effects = Effects(
    cpuRead: bool, cpuWrite: bool, returned: bool, escaped: bool, unknownCall: bool, reassigned: bool)

  predicate Unseen(e: Effects) {
    !e.cpuRead && !e.cpuWrite && !e.returned && !e.escaped && !e.unknownCall && !e.reassigned
  }

  const NO_FIRST_KERNEL := FirstKernel(false, false, false, false)

  // declared: the size of the constructor declared right before the region.
  method CollectFacts(
    scalars: seq<Scalar>, loops: seq<LoopBounds>, b: nat, constructorValid: bool, declared: Option<Expr>, e: Effects)
    returns (facts: Facts)
    ensures facts.exactConstructor == constructorValid && facts.declarationAdjacent == declared.Some? && facts.uniqueRegion
    ensures facts.immutableExtent <==> declared.Some? && ExtentSupported(scalars, declared.value)
    ensures Effects(facts.cpuRead, facts.cpuWrite, facts.returned, facts.escaped, facts.unknownCall, facts.reassigned) == e
    ensures facts.firstKernel == if facts.immutableExtent then FirstKernelOf(loops, b, declared.value) else NO_FIRST_KERNEL
  {
    facts := Facts(constructorValid, declared.Some?, true, false,
      e.cpuRead, e.cpuWrite, e.returned, e.escaped, e.unknownCall, e.reassigned, NO_FIRST_KERNEL);
    if declared.None? || !ExtentSupported(scalars, declared.value) { return; }
    var first := CollectFirstKernel(loops, b, declared.value);
    facts := facts.(immutableExtent := true, firstKernel := first);
  }

  // The size is a positive int literal, or an int parameter the function
  // never assigns, in any parentheses.
  ghost predicate SizeAllowed(scalars: seq<Scalar>, size: Expr) {
    match StripPar(size)
    case TermExpr(IntTerm(c)) => c > 0
    case TermExpr(SymbolTerm(name)) => T.IntParameter(scalars, name)
    case _ => false
  }

  // The first of several loops runs from 0 to the buffer's size, reads
  // nothing of it and writes it in one place, at the counter; a later loop
  // reads it.
  ghost predicate DefinedFirst(loops: seq<LoopBounds>, b: nat, size: Expr) {
    && |loops| >= 2
    && StripPar(loops[0].start) == TermExpr(IntTerm(0)) && StripPar(loops[0].stop) == StripPar(size)
    && (forall i :: 0 <= i < |loops[0].accesses| ==> !ReadOf(loops[0].accesses[i], b))
    && (exists i: nat :: A.OnlyWrite(loops[0].accesses, b, i) && BareIndex(loops[0].accesses[i].index))
    && (exists k, i :: 1 <= k < |loops| && 0 <= i < |loops[k].accesses| && ReadOf(loops[k].accesses[i], b))
  }

  predicate ReadOf(a: Access, b: nat) { a.buffer == b && !a.write }

  predicate BareIndex(index: Affine) { index.kind == CounterOffset && index.offset == 0 && index.symbol == None }

  lemma SizeMeans(scalars: seq<Scalar>, size: Expr)
    ensures ExtentSupported(scalars, size) <==> SizeAllowed(scalars, size)
  {
    hide T.IntParameter, IntScalar;
    if TermSymbol(StripPar(size)).Some? {
      A.ScalarBuilds(scalars, [], TermSymbol(StripPar(size)).value);
    }
  }

  lemma ReadsMean(accesses: seq<Access>, b: nat)
    ensures ReadsBuffer(accesses, b) <==> exists i :: 0 <= i < |accesses| && ReadOf(accesses[i], b)
  {
  }

  lemma LaterMeans(loops: seq<LoopBounds>, b: nat)
    ensures ReadLater(loops, b) <==>
      exists k, i :: 1 <= k < |loops| && 0 <= i < |loops[k].accesses| && ReadOf(loops[k].accesses[i], b)
  {
    hide ReadsBuffer, ReadOf;
    if ReadLater(loops, b) {
      var k :| 1 <= k < |loops| && ReadsBuffer(loops[k].accesses, b);
      ReadsMean(loops[k].accesses, b);
      var i :| 0 <= i < |loops[k].accesses| && ReadOf(loops[k].accesses[i], b);
    }
    if k, i :| 1 <= k < |loops| && 0 <= i < |loops[k].accesses| && ReadOf(loops[k].accesses[i], b) {
      ReadsMean(loops[k].accesses, b);
    }
  }

  lemma WritesMean(accesses: seq<Access>, b: nat)
    ensures WritesBuffer(accesses, b) && WriteCount(accesses, b) == 1 && WritesExactly(accesses, b) <==>
      exists i: nat :: A.OnlyWrite(accesses, b, i) && BareIndex(accesses[i].index)
  {
    A.SingleWrite(accesses, b);
    if WriteCount(accesses, b) == 1 && WritesExactly(accesses, b) {
      var i: nat :| A.OnlyWrite(accesses, b, i);
      var a :| a in accesses && ExactWrite(a, b);
      var j :| 0 <= j < |accesses| && accesses[j] == a;
      assert A.WriteTo(accesses[j], b);
    }
    if i: nat :| A.OnlyWrite(accesses, b, i) && BareIndex(accesses[i].index) {
      assert accesses[i] in accesses && ExactWrite(accesses[i], b);
    }
  }

  lemma FirstKernelMeans(scalars: seq<Scalar>, loops: seq<LoopBounds>, b: nat, size: Expr)
    requires ExtentSupported(scalars, size)
    ensures FirstKernelOf(loops, b, size) == FirstKernel(false, true, true, true) <==> DefinedFirst(loops, b, size)
  {
    hide IntScalar, ReadsBuffer, WritesBuffer, WritesExactly, WriteCount, ReadLater, ReadOf, BareIndex, A.OnlyWrite;
    if |loops| >= 2 {
      ReadsMean(loops[0].accesses, b);
      WritesMean(loops[0].accesses, b);
      LaterMeans(loops, b);
    }
  }

  // The buffer goes to the device exactly when it is a local with a valid
  // constructor right before the region, of a supported size, that nothing
  // on the CPU uses, and the first kernel defines it for a later one.
  method ClassifyLocal(
    scalars: seq<Scalar>, loops: seq<LoopBounds>, b: nat, storage: Storage, constructorValid: bool, declared: Option<Expr>, e: Effects)
    returns (class_: S.Class, facts: Facts)
    ensures class_ == S.LocalDevice <==>
      && storage == LocalStorage && constructorValid
      && !e.cpuRead && !e.cpuWrite && !e.returned && !e.escaped && !e.unknownCall && !e.reassigned
      && declared.Some? && SizeAllowed(scalars, declared.value) && DefinedFirst(loops, b, declared.value)
    ensures class_ == S.Unsupported <==> e.reassigned || storage == OtherStorage
    ensures class_ == S.ParameterHost <==> !e.reassigned && storage == ParameterStorage
    ensures class_.LocalDevice? ==>
      ClassifyDeviceLocal(LocalStorage, Some(facts)).LocalDevice? && facts.firstKernel == FirstKernelOf(loops, b, declared.value)
  {
    hide FirstKernelOf, ExtentSupported, SizeAllowed, DefinedFirst;
    if declared.Some? {
      SizeMeans(scalars, declared.value);
      if ExtentSupported(scalars, declared.value) { FirstKernelMeans(scalars, loops, b, declared.value); }
    }
    facts := CollectFacts(scalars, loops, b, constructorValid, declared, e);
    class_ := ClassifyBuffer(storage, e.reassigned);
    if class_.LocalHost? { class_ := ClassifyDeviceLocal(storage, Some(facts)); }
  }

  // A parenthesised literal folds to itself, a parenthesised name never folds.
  lemma {:induction false} FoldOfLeaf(e: Expr, depth: nat)
    requires Fold(e, depth).Some?
    ensures TermSymbol(StripPar(e)).None?
    ensures TermInt(StripPar(e)).Some? ==> Fold(e, depth).value == TermInt(StripPar(e)).value
  {
    if e.Unary? && e.unary.Par? {
      FoldOfLeaf(e.operand, depth + 1);
    }
  }

  lemma LeafBound(r: Region, act: Actuals, e: Expr)
    requires ArgumentsBound(r, act) && BoundAccepted(r.scalars, e)
    requires TermInt(StripPar(e)).Some? || TermSymbol(StripPar(e)).Some?
    ensures INT_MIN <= BoundExact(e, r.scalars, ScalarValues(r, act)) <= INT_MAX
    ensures TermInt(StripPar(e)).Some? ==> BoundExact(e, r.scalars, ScalarValues(r, act)) == TermInt(StripPar(e)).value
  {
    hide ArgumentsBound, Fold;
    FoldUnfold(e);
    if FoldConstant(e).Some? {
      FoldOfLeaf(e, 0);
    } else {
      ScalarWord(r, act, TermSymbol(StripPar(e)).value);
    }
  }

  // The device allocates exactly the elements the removed constructor would
  // have created.
  lemma DeviceLengthMatches(r: Region, act: Actuals, extent: Expr)
    requires Compiled(r) && ArgumentsBound(r, act) && |r.loops| > 0 && ExtentEqual(r.loops[0].stop, extent)
    ensures SourceBound(extent, act).Some? && SourceBound(extent, act).value.IntVal?
    ensures Signed(SourceBound(extent, act).value.w) == BoundExact(r.loops[0].stop, r.scalars, ScalarValues(r, act))
  {
    hide ArgumentsBound, Eval, BoundExact, AddKernels, ScalarValues, Wrap, Accepted, BodyAccesses;
    var stop := r.loops[0].stop;
    RegionTables(r, act, 0);
    assert LoopCompiled(r, 0);
    StripParMeaning(stop, BoundFrame(act.args, act.alu), map[], []);
    StripParMeaning(extent, BoundFrame(act.args, act.alu), map[], []);
    LeafBound(r, act, stop);
    StripParLongFree(stop);
    SourceBoundIs(r, act, stop);
    SignedOfWrap(BoundExact(stop, r.scalars, ScalarValues(r, act)));
  }

  // What the classifier proved about a device-local buffer.
  ghost predicate DeviceLocal(r: Region, b: nat, extent: Expr, facts: Facts) {
    && ClassifyDeviceLocal(LocalStorage, Some(facts)).LocalDevice?
    && facts.firstKernel == FirstKernelOf(AllBounds(r), b, extent)
    && b < r.buffers
  }

  // A write access through which lane t reaches element t.
  ghost predicate DefinesThrough(st: Setting, a: Access, b: nat, length: nat) {
    && a in Accesses(st) && a.write && a.buffer == b
    && forall t: nat :: t < length ==> AddressAt(st, a, t) == t
  }

  // The first kernel does not read the buffer and its lanes write all of it.
  lemma FirstKernelDefines(r: Region, act: Actuals, lengths: seq<nat>, b: nat, extent: Expr, facts: Facts)
    requires Runnable(r, act, lengths) && DeviceLocal(r, b, extent, facts) && |lengths| == r.buffers && |r.loops| > 0
    requires lengths[b] == Max(BoundExact(r.loops[0].stop, r.scalars, ScalarValues(r, act)), 0) <= 0x8000_0000
    ensures |r.loops| >= 2 && ReadsNone(Accesses(SettingAt(r, act, 0)), {b})
    ensures TripCount(r, act, 0) == lengths[b]
    ensures exists a :: DefinesThrough(SettingAt(r, act, 0), a, b, lengths[b])
  {
    hide ArgumentsBound, BoundExact, AddKernels, ScalarValues, BodyAccesses, RuntimeAccepts, AddressAt, ReadLater, WriteCount, LoopCompiled, AffineExact;
    var loops := AllBounds(r);
    assert loops[0] == BoundsAt(r, 0);
    RegionTables(r, act, 0);
    LeafBound(r, act, r.loops[0].env.start);
    var a :| a in loops[0].accesses && ExactWrite(a, b);
    forall t: nat | t < lengths[b] ensures AddressAt(SettingAt(r, act, 0), a, t) == t {
      AccessAddressed(r, act, lengths, 0, a, t);
      BareCounter(a.index, t, r.scalars, ScalarValues(r, act));
    }
    assert DefinesThrough(SettingAt(r, act, 0), a, b, lengths[b]);
  }

  lemma BareCounter(index: Affine, c: int, scalars: seq<Scalar>, vals: seq<int>)
    requires index.offset == 0 && index.symbol.None?
    ensures AffineExact(index, c, scalars, vals) == c
  {
  }

  lemma {:induction false} SameOnwards(r: Region, act: Actuals, schedules: seq<seq<nat>>, k: nat, dev1: Device, dev2: Device)
    requires 1 <= k <= |r.loops| == |schedules|
    requires forall j :: 0 <= j < |r.loops| ==> TripCount(r, act, j) <= 0x1_0000_0000
    requires AllComplete(r, act, schedules, k, dev1) && AllComplete(r, act, schedules, 1, dev2)
    requires Dispatched(r, act, schedules, 1, dev1) == Dispatched(r, act, schedules, 1, dev2)
    ensures AllComplete(r, act, schedules, k, dev2)
    ensures Dispatched(r, act, schedules, k, dev1) == Dispatched(r, act, schedules, k, dev2)
  {
    hide TripCount, Dispatched, AllComplete, D.Execute, D.Complete, LaunchAt;
    if k > 1 {
      DispatchedNext(r, act, schedules, k - 1, dev1);
      DispatchedNext(r, act, schedules, k - 1, dev2);
      SameOnwards(r, act, schedules, k - 1, dev1, dev2);
    }
  }

  lemma DefinedEverywhere(m1: Mem, m2: Mem, b: nat)
    requires AgreeOff(m1, m2, {b}) && b < |m1|
    requires forall y: nat :: y < |m1[b]| ==> MemAt(m1, b, y) == MemAt(m2, b, y)
    ensures m1 == m2
  {
    forall c: nat, y: nat ensures MemAt(m1, c, y) == MemAt(m2, c, y) {
    }
    D.MemExtensional(m1, m2);
  }

  // After the first kernel two devices that differed only in the
  // device-local buffer are equal.
  lemma FirstKernelErases(
    r: Region, act: Actuals, lengths: seq<nat>, vars: Vars, m1: Mem, m2: Mem, results: seq<Word>, schedule: seq<nat>,
    b: nat, extent: Expr, facts: Facts)
    requires Runnable(r, act, lengths) && DeviceLocal(r, b, extent, facts) && |lengths| == r.buffers && |r.loops| > 0
    requires Holding(m1, lengths) && Holding(m2, lengths) && EntryReady(r, vars) && AgreeOff(m1, m2, {b})
    requires lengths[b] == Max(BoundExact(r.loops[0].stop, r.scalars, ScalarValues(r, act)), 0)
    requires ResultsReady(r, 0, vars, results)
    requires D.Complete(LaunchAt(r, act, 0, Device(m1, results)), D.Execute(LaunchAt(r, act, 0, Device(m1, results)), schedule))
    ensures var (l1, l2) := (LaunchAt(r, act, 0, Device(m1, results)), LaunchAt(r, act, 0, Device(m2, results)));
      && D.Complete(l2, D.Execute(l2, schedule))
      && D.Execute(l1, schedule).mem == D.Execute(l2, schedule).mem
      && D.Execute(l1, schedule).results == D.Execute(l2, schedule).results
  {
    hide Runnable, D.Execute, D.Complete, ReadsNone, DeviceLocal, Accesses, SettingAt, BoundExact, AddressAt, MemAt, ResultsReady, EntryReady, AgreeOff, LaunchOf;
    assert |m1[b]| == lengths[b] by { DeviceLocalIndex(r, b, extent, facts); }
    FirstKernelDefines(r, act, lengths, b, extent, facts);
    var st := SettingAt(r, act, 0);
    DeviceStep(r, act, lengths, 0, vars, vars, m1, m2, results, schedule, {b});
    var (g1, g2) := (D.Execute(LaunchAt(r, act, 0, Device(m1, results)), schedule), D.Execute(LaunchAt(r, act, 0, Device(m2, results)), schedule));
    var a :| DefinesThrough(st, a, b, lengths[b]);
    FirstKernelShape(r, act, lengths, vars, m1, results, schedule);
    forall y: nat | y < |g1.mem[b]| ensures MemAt(g1.mem, b, y) == MemAt(g2.mem, b, y) {
      assert AddressAt(st, a, y) == y;
    }
    DefinedEverywhere(g1.mem, g2.mem, b);
  }

  lemma DeviceLocalIndex(r: Region, b: nat, extent: Expr, facts: Facts)
    requires DeviceLocal(r, b, extent, facts)
    ensures b < r.buffers
  {
  }

  lemma FirstKernelShape(
    r: Region, act: Actuals, lengths: seq<nat>, vars: Vars, mem: Mem, results: seq<Word>, schedule: seq<nat>)
    requires Runnable(r, act, lengths) && |r.loops| > 0 && Holding(mem, lengths) && EntryReady(r, vars)
    requires ResultsReady(r, 0, vars, results)
    ensures LaunchAt(r, act, 0, Device(mem, results)).Valid()
    ensures SameShape(mem, D.Execute(LaunchAt(r, act, 0, Device(mem, results)), schedule).mem)
  {
    hide Compiled, ArgumentsBound, RuntimeAccepts, TripCount, D.Execute, ResultsReady, EntryReady, Launchable, Published, Initialised, Holding;
    ReadyPublished(r, 0, vars, vars, results);
    KernelLaunchable(r, act, lengths, mem, 0);
    LoopFrame(SettingAt(r, act, 0), r.shape, TripCount(r, act, 0), Initialised(r, 0, vars), mem, results, schedule, 0, 0);
  }

  // The whole region runs the same whatever a device-local buffer held
  // before it: dropping the constructor that zeroed it cannot be observed.
  lemma DeviceElision(
    r: Region, act: Actuals, lengths: seq<nat>, schedules: seq<seq<nat>>, vars: Vars, zeroed: Mem, raw: Mem,
    results: seq<Word>, b: nat, extent: Expr, facts: Facts)
    requires Runnable(r, act, lengths) && |r.loops| == |schedules| && DeviceLocal(r, b, extent, facts)
    requires Holding(zeroed, lengths) && Holding(raw, lengths) && EntryReady(r, vars) && AgreeOff(zeroed, raw, {b})
    requires |r.loops| > 0 && |lengths| == r.buffers
    requires lengths[b] == Max(BoundExact(r.loops[0].stop, r.scalars, ScalarValues(r, act)), 0)
    requires |results| == |ResultsOf(r.loops)| && forall j :: 0 <= j < |results| ==> results[j] == 0
    requires AllComplete(r, act, schedules, |r.loops|, Device(zeroed, results))
    ensures AllComplete(r, act, schedules, |r.loops|, Device(raw, results))
    ensures Dispatched(r, act, schedules, |r.loops|, Device(raw, results)) == Dispatched(r, act, schedules, |r.loops|, Device(zeroed, results))
  {
    hide Compiled, ArgumentsBound, RuntimeAccepts, TripCount, ResultsOf, AgreeOff, DeviceLocal, BoundExact, EntryReady, Holding, LaunchAt, D.Execute, D.Complete;
    AllCompleteEarlier(r, act, schedules, Device(zeroed, results));
    DispatchedNext(r, act, schedules, 0, Device(zeroed, results));
    DispatchedNext(r, act, schedules, 0, Device(raw, results));
    FirstKernelErases(r, act, lengths, vars, zeroed, raw, results, schedules[0], b, extent, facts);
    SameOnwards(r, act, schedules, |r.loops|, Device(zeroed, results), Device(raw, results));
  }

  lemma AllCompleteEarlier(r: Region, act: Actuals, schedules: seq<seq<nat>>, dev: Device)
    requires 1 <= |r.loops| == |schedules| && forall j :: 0 <= j < |r.loops| ==> TripCount(r, act, j) <= 0x1_0000_0000
    requires AllComplete(r, act, schedules, |r.loops|, dev)
    ensures AllComplete(r, act, schedules, 1, dev)
  {
    hide TripCount, Dispatched, D.Execute, D.Complete;
  }
}
