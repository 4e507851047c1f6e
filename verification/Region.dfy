// A region: consecutive loops dispatched as kernels, in source order, over
// one set of device buffers and result words.

module Region {
  import opened Words
  import opened Hir
  import opened AccelIr
  import opened Lowering
  import opened LoweringMeaning
  import opened LoopMeaning
  import opened LongArithmetic
  import opened ConstantOperands
  import opened CountedLoop
  import opened SizeDag
  import opened Ranges
  import D = Dispatch
  import KV = KernelValidation

  // One loop of a region.  zeroFirst: a transparent `accumulator = 0` block
  // stands between the previous loop and this one.
  datatype RegionLoop = RegionLoop(env: KernelEnv, body: seq<Stmt>, stop: Expr, zeroFirst: bool)

  datatype Region = Region(loops: seq<RegionLoop>, scalars: seq<Scalar>, buffers: nat, shape: KV.Shape)

  datatype Actuals = Actuals(args: map<string, Value>, uniforms: seq<Word>, alu: Alu)

  // ------------------------------------------------------------------
  // Scalar results, in producer order
  // ------------------------------------------------------------------

  function ResultsOf(loops: seq<RegionLoop>): seq<ScalarResult> {
    if loops == [] then []
    else
      var last := loops[|loops| - 1];
      ResultsOf(loops[..|loops| - 1]) +
      (if last.env.reduction.Some? then [ScalarResult(last.env.reduction.value.accumulator, |loops| - 1)] else [])
  }

  lemma {:induction false} ResultProducer(loops: seq<RegionLoop>, j: nat)
    requires j < |ResultsOf(loops)|
    ensures var p := ResultsOf(loops)[j].producer;
      && p < |loops| && loops[p].env.reduction.Some?
      && ResultsOf(loops)[j].name == loops[p].env.reduction.value.accumulator
      && j == |ResultsOf(loops[..p])|
  {
    var front := loops[..|loops| - 1];
    if j < |ResultsOf(front)| {
      ResultProducer(front, j);
      var p := ResultsOf(front)[j].producer;
      assert front[..p] == loops[..p];
    }
  }

  // ------------------------------------------------------------------
  // What compilation established
  // ------------------------------------------------------------------

  function BoundsAt(r: Region, k: nat): LoopBounds
    requires k < |r.loops|
  {
    LoopBounds(r.loops[k].env.start, r.loops[k].stop, BodyAccesses(r.loops[k].env, r.loops[k].body))
  }

  function AllBounds(r: Region): seq<LoopBounds> { seq(|r.loops|, (k: nat) requires k < |r.loops| => BoundsAt(r, k)) }

  function EmptyRows(r: Region): seq<Row> { seq(r.buffers, _ => EMPTY_ROW) }

  ghost predicate LoopCompiled(r: Region, k: nat)
    requires k < |r.loops|
  {
    var loop := r.loops[k];
    && Accepted(loop.env, loop.body) && KV.TablesFit(loop.env, r.shape)
    && loop.env.scalars == r.scalars && loop.env.kernelIndex == k && loop.env.results == ResultsOf(r.loops)
    && Independent(BodyAccesses(loop.env, loop.body))
    && (forall a :: a in BodyAccesses(loop.env, loop.body) ==> a.buffer < r.buffers)
    && (loop.env.reduction.Some? ==>
         && loop.env.reduction.value.entry == Some(|ResultsOf(r.loops[..k])|)
         && (k == 0 || loop.zeroFirst))
    && (loop.zeroFirst ==> loop.env.reduction.Some?)
  }

  ghost predicate Compiled(r: Region) {
    && |r.loops| <= MAX_KERNELS
    && (forall k :: 0 <= k < |r.loops| ==> LoopCompiled(r, k))
    && AddKernels([], EmptyRows(r), r.scalars, AllBounds(r)).Success?
  }

  // ------------------------------------------------------------------
  // Bounds and counts in the program
  // ------------------------------------------------------------------

  // Bounds are evaluated where no counter is in scope.
  const NO_COUNTER := "$outside"

  function BoundFrame(args: map<string, Value>, alu: Alu): Frame { Frame(NO_COUNTER, 0, args, [], alu) }

  function SourceBound(e: Expr, act: Actuals): Option<Value> { Eval(e, BoundFrame(act.args, act.alu), map[], []) }

  // How often `for counter in start..stop` runs.
  function SourceCount(r: Region, act: Actuals, k: nat): Option<nat>
    requires k < |r.loops|
  {
    var start :- SourceBound(r.loops[k].env.start, act);
    var stop :- SourceBound(r.loops[k].stop, act);
    Turns(start, stop)
  }

  function SettingAt(r: Region, act: Actuals, k: nat): Setting
    requires k < |r.loops|
  {
    Setting(r.loops[k].env, r.loops[k].body, act.args, act.uniforms, act.alu)
  }

  function Initialised(r: Region, k: nat, vars: Vars): Vars
    requires k < |r.loops|
  {
    var env := r.loops[k].env;
    if r.loops[k].zeroFirst && env.reduction.Some? then vars[env.reduction.value.accumulator := IntVal(0)] else vars
  }

  // ------------------------------------------------------------------
  // Running the accelerator program
  // ------------------------------------------------------------------

  function ScalarValues(r: Region, act: Actuals): seq<int> {
    seq(|act.uniforms|, (i: nat) requires i < |act.uniforms| => Signed(act.uniforms[i]))
  }

  function TripCount(r: Region, act: Actuals, k: nat): nat
    requires k < |r.loops|
  {
    var vals := ScalarValues(r, act);
    Max(BoundExact(r.loops[k].stop, r.scalars, vals) - BoundExact(r.loops[k].env.start, r.scalars, vals), 0)
  }

  // What the kernels are to compute: the first k loops of the region, one
  // after another, truncated and run as often as the trip counts say.
  function TruncatedRegion(r: Region, act: Actuals, k: nat, vars: Vars, mem: Mem): Option<(Vars, Mem)>
    requires k <= |r.loops|
  {
    if k == 0 then Some((vars, mem))
    else
      var (vars', mem') :- TruncatedRegion(r, act, k - 1, vars, mem);
      TruncatedLoop(SettingAt(r, act, k - 1), TripCount(r, act, k - 1), Initialised(r, k - 1, vars'), mem')
  }

  datatype Device = Device(mem: Mem, results: seq<Word>)

  // The first k dispatches; schedules[k] interleaves the lanes of kernel k.
  function Dispatched(r: Region, act: Actuals, schedules: seq<seq<nat>>, k: nat, dev: Device): Device
    requires k <= |r.loops| == |schedules|
    requires forall j :: 0 <= j < |r.loops| ==> TripCount(r, act, j) <= 0x1_0000_0000
  {
    if k == 0 then dev
    else
      var before := Dispatched(r, act, schedules, k - 1, dev);
      var launch := LaunchOf(SettingAt(r, act, k - 1), TripCount(r, act, k - 1), before.mem, before.results);
      var grid := D.Execute(launch, schedules[k - 1]);
      Device(grid.mem, grid.results)
  }

  ghost predicate AllComplete(r: Region, act: Actuals, schedules: seq<seq<nat>>, k: nat, dev: Device)
    requires k <= |r.loops| == |schedules|
    requires forall j :: 0 <= j < |r.loops| ==> TripCount(r, act, j) <= 0x1_0000_0000
  {
    forall j :: 0 <= j < k ==>
      var before := Dispatched(r, act, schedules, j, dev);
      var launch := LaunchOf(SettingAt(r, act, j), TripCount(r, act, j), before.mem, before.results);
      D.Complete(launch, D.Execute(launch, schedules[j]))
  }

  // ------------------------------------------------------------------
  // What the runtime checks before it dispatches
  // ------------------------------------------------------------------

  predicate RangeChecked(nodes: Table, span: Span, length: nat, vals: seq<int>) {
    && span.first.Some? && span.end.Some?
    && ValueAt(nodes, span.first.value, vals).Some? && ValueAt(nodes, span.end.value, vals).Some?
    && 0 <= ValueAt(nodes, span.first.value, vals).value <= ValueAt(nodes, span.end.value, vals).value <= length
  }

  // The start and the trip count of kernel k evaluate into the dispatch
  // range and, when the kernel is active, every range it uses evaluates to an
  // interval inside its buffer.
  ghost predicate KernelChecked(
    nodes: Table, rows: seq<Row>, plan: Plan, k: nat, lengths: seq<nat>, vals: seq<int>)
    requires Shaped(rows) && k < MAX_KERNELS && |lengths| == |rows|
  {
    var (start, trip) := (ValueAt(nodes, plan.start, vals), ValueAt(nodes, plan.trip, vals));
    && start.Some? && 0 <= start.value <= INT_MAX
    && trip.Some? && trip.value <= 0xFFFF_FFFF
    && (trip.value != 0 ==>
         forall b :: 0 <= b < |rows| && (rows[b].effect[k].read || rows[b].effect[k].write) ==>
           RangeChecked(nodes, rows[b].kernel[k], lengths[b], vals))
  }

  ghost predicate RuntimeAccepts(r: Region, act: Actuals, lengths: seq<nat>)
    requires |r.loops| <= MAX_KERNELS
    requires AddKernels([], EmptyRows(r), r.scalars, AllBounds(r)).Success?
  {
    var (nodes, rows, plans) := AddKernels([], EmptyRows(r), r.scalars, AllBounds(r)).value;
    && |lengths| == r.buffers
    && forall k :: 0 <= k < |r.loops| ==> KernelChecked(nodes, rows, plans[k], k, lengths, ScalarValues(r, act))
  }

  // Host buffers are distinct blocks of at most 2^31 elements.
  predicate Holding(mem: Mem, lengths: seq<nat>) {
    |mem| == |lengths| && forall b :: 0 <= b < |mem| ==> |mem[b]| == lengths[b] <= 0x8000_0000
  }

  // The scalar arguments are the uniforms, and no other name is an argument.
  ghost predicate ArgumentsBound(r: Region, act: Actuals) {
    && |act.uniforms| == |r.scalars|
    && (forall i :: 0 <= i < |r.scalars| ==>
         && r.scalars[i].name in act.args
         && act.args[r.scalars[i].name] == ArgumentValue(r.scalars[i].ty, act.uniforms[i]))
    && (forall name :: name in act.args ==> ScalarIndex(r.scalars, name).Some?)
    && NO_COUNTER !in act.args
  }

  // ------------------------------------------------------------------
  // Bounds and indices: exact integers against 32-bit words
  // ------------------------------------------------------------------

  lemma ScalarWord(r: Region, act: Actuals, name: string)
    requires ArgumentsBound(r, act) && IntScalar(r.scalars, name).Success?
    ensures name in act.args && act.args[name].IntVal? && name != NO_COUNTER
    ensures ScalarIndex(r.scalars, name).Some? && ScalarIndex(r.scalars, name).value < |ScalarValues(r, act)|
    ensures Wrap(ScalarValues(r, act)[ScalarIndex(r.scalars, name).value]) == act.args[name].w
  {
    hide Wrap;
    WrapOfWord(act.uniforms[ScalarIndex(r.scalars, name).value]);
  }

  lemma {:induction false} BoundWordExact(r: Region, act: Actuals, e: Expr)
    requires ArgumentsBound(r, act) && BoundAccepted(r.scalars, e)
    ensures BoundWord(e, act.args) == Wrap(BoundExact(e, r.scalars, ScalarValues(r, act)))
    decreases e
  {
    hide Wrap, FoldConstant, ArgumentsBound, ScalarValues;
    if FoldConstant(e).None? {
      var x := StripPar(e);
      if TermSymbol(x).Some? {
        ScalarWord(r, act, TermSymbol(x).value);
      } else {
        StripParDecreases(e);
        BoundWordExact(r, act, x.left);
        BoundWordExact(r, act, x.right);
        WrapBoth(BoundExact(x.left, r.scalars, ScalarValues(r, act)), BoundExact(x.right, r.scalars, ScalarValues(r, act)));
      }
    }
  }

  lemma {:induction false} StripParLongFree(e: Expr)
    ensures LongFree(StripPar(e)) <==> LongFree(e)
  {
    if e.Unary? && e.unary.Par? {
      StripParLongFree(e.operand);
    }
  }

  // A bound's value: its kind is decided by its literals, and its low word by
  // the wrapping sum of its parts.
  ghost predicate BoundIs(v: Option<Value>, w: Word, long: bool) {
    v.Some? && !v.value.FloatVal? && WordOf(v.value) == w && (v.value.LongVal? <==> long)
  }

  lemma SumIs(kind: BinaryKind, l: Expr, r: Expr, a: Word, b: Word, longs: (bool, bool), frame: Frame)
    requires kind.Plus? || kind.Minus?
    requires BoundIs(Eval(l, frame, map[], []), a, longs.0) && BoundIs(Eval(r, frame, map[], []), b, longs.1)
    ensures BoundIs(Eval(Binary(kind, l, r), frame, map[], []), if kind.Plus? then Add(a, b) else Sub(a, b), longs.0 || longs.1)
  {
    hide ApplyBinary, WordOf;
    var (x, y) := (Eval(l, frame, map[], []).value, Eval(r, frame, map[], []).value);
    SumKind(kind, x, y, frame.alu);
    ArithWord(kind, x, y, frame.alu);
  }

  lemma {:induction false} BoundEvaluates(r: Region, act: Actuals, e: Expr)
    requires ArgumentsBound(r, act) && BoundAccepted(r.scalars, e)
    ensures BoundIs(SourceBound(e, act), BoundWord(e, act.args), !LongFree(e))
    decreases e
  {
    hide Wrap, ArgumentsBound, FoldConstant, ApplyBinary, WordOf, Eval, SourceConstant;
    var frame := BoundFrame(act.args, act.alu);
    if FoldConstant(e).Some? {
      FoldUnfold(e);
      ClosedMeaning(e, 0, frame, map[], []);
      FoldWord(e, 0);
    } else {
      var x := StripPar(e);
      StripParMeaning(e, frame, map[], []);
      StripParLongFree(e);
      if TermSymbol(x).Some? {
        ScalarWord(r, act, TermSymbol(x).value);
        EvalName(x, frame, map[], []);
        IntWord(act.args[TermSymbol(x).value]);
      } else {
        StripParDecreases(e);
        BoundEvaluates(r, act, x.left);
        BoundEvaluates(r, act, x.right);
        SumIs(x.kind, x.left, x.right, BoundWord(x.left, act.args), BoundWord(x.right, act.args),
              (!LongFree(x.left), !LongFree(x.right)), frame);
      }
    }
  }

  lemma IntWord(v: Value)
    requires v.IntVal?
    ensures WordOf(v) == v.w
  {
  }

  // The program computes a bound as its exact integer modulo 2^32, in an int
  // exactly when no literal of it is 64-bit.
  lemma SourceBoundIs(r: Region, act: Actuals, e: Expr)
    requires ArgumentsBound(r, act) && BoundAccepted(r.scalars, e)
    ensures BoundIs(SourceBound(e, act), Wrap(BoundExact(e, r.scalars, ScalarValues(r, act))), !LongFree(e))
    ensures LongFree(e) ==> SourceBound(e, act) == Some(IntVal(Wrap(BoundExact(e, r.scalars, ScalarValues(r, act)))))
  {
    hide Wrap, ArgumentsBound, BoundAccepted, SourceBound;
    BoundEvaluates(r, act, e);
    BoundWordExact(r, act, e);
  }

  // The word an index computes is its exact value modulo 2^32.
  lemma AddressExact(r: Region, act: Actuals, k: nat, a: Access, t: nat)
    requires ArgumentsBound(r, act) && k < |r.loops| && r.loops[k].env.scalars == r.scalars
    requires BoundAccepted(r.scalars, r.loops[k].env.start) && IndexAccepted(r.scalars, a.index)
    ensures var vals := ScalarValues(r, act);
      AddressAt(SettingAt(r, act, k), a, t) ==
      Wrap(AffineExact(a.index, BoundExact(r.loops[k].env.start, r.scalars, vals) + t, r.scalars, vals))
  {
    hide Wrap, ArgumentsBound, IntScalar, BoundAccepted, BoundExact, BoundWord;
    var vals := ScalarValues(r, act);
    var start := BoundExact(r.loops[k].env.start, r.scalars, vals);
    BoundWordExact(r, act, r.loops[k].env.start);
    WrapOfSum(start, t);
    var inv: int := InvariantWord(a.index, act.args);
    var exact := 0;
    if a.index.symbol.Some? {
      ScalarWord(r, act, a.index.symbol.value);
      exact := vals[ScalarIndex(r.scalars, a.index.symbol.value).value];
    } else {
      WrapOfWord(0);
    }
    assert inv == Wrap(exact);
    ShiftedWord(start + t, exact, a.index.sign < 0, a.index.offset);
  }

  lemma ShiftedWord(c: int, exact: int, minus: bool, offset: int)
    ensures Wrap(Wrap(c) + (if minus then 0 - Wrap(exact) else Wrap(exact)) + offset) ==
            Wrap(c + (if minus then 0 - exact else exact) + offset)
  {
    hide Wrap;
    var x: int := Wrap(exact);
    var shift := (if minus then 0 - x else x) + offset;
    WrapOfSum(c, shift);
    WrapOfSum(exact, c + offset);
  }

  // ------------------------------------------------------------------
  // The runtime checks keep every access inside its buffer
  // ------------------------------------------------------------------

  lemma SpanChecked(nodes: Table, span: Span, length: nat, vals: seq<int>)
    requires Ordered(nodes, |vals|) && SpanBuilt(nodes, span) && RangeChecked(nodes, span, length, vals)
    ensures SpanValue(nodes, span, vals).Some?
    ensures 0 <= SpanValue(nodes, span, vals).value.0 && SpanValue(nodes, span, vals).value.1 <= length
  {
    hide Exact, ValueAt;
    ValueExact(nodes, span.first.value, vals);
    ValueExact(nodes, span.end.value, vals);
  }

  lemma AccessInside(
    r: Region, act: Actuals, lengths: seq<nat>, nodes: Table, rows: seq<Row>, plans: seq<Plan>, k: nat, a: Access, c: int)
    requires Described(nodes, rows, plans, AllBounds(r), r.scalars, ScalarValues(r, act))
    requires EffectsDescribed(rows, AllBounds(r)) && |lengths| == |rows| && k < |r.loops|
    requires KernelChecked(nodes, rows, plans[k], k, lengths, ScalarValues(r, act))
    requires a in BoundsAt(r, k).accesses && a.buffer < |rows|
    requires var vals := ScalarValues(r, act);
      BoundExact(r.loops[k].env.start, r.scalars, vals) <= c < BoundExact(r.loops[k].stop, r.scalars, vals)
    ensures 0 <= AffineExact(a.index, c, r.scalars, ScalarValues(r, act)) < lengths[a.buffer]
  {
    hide Exact, ValueAt, SpanValue, AffineExact, RangeChecked, JoinKernels, BoundExact, ScalarValues, ReadsFirst;
    var vals := ScalarValues(r, act);
    assert AllBounds(r)[k] == BoundsAt(r, k);
    RangeSound(nodes, rows, plans, AllBounds(r), r.scalars, vals, k, a, c);
    assert PlanBuilt(nodes, plans[k], BoundsAt(r, k), r.scalars, vals);
    ValueExact(nodes, plans[k].trip, vals);
    assert EffectDescribes(rows[a.buffer].effect[k], BoundsAt(r, k).accesses, a.buffer);
    SpanChecked(nodes, rows[a.buffer].kernel[k], lengths[a.buffer], vals);
  }

  lemma RegionTables(r: Region, act: Actuals, k: nat)
    requires Compiled(r) && ArgumentsBound(r, act) && k < |r.loops|
    ensures var (nodes, rows, plans) := AddKernels([], EmptyRows(r), r.scalars, AllBounds(r)).value;
      && Described(nodes, rows, plans, AllBounds(r), r.scalars, ScalarValues(r, act))
      && EffectsDescribed(rows, AllBounds(r)) && |rows| == r.buffers
      && LoopAccepted(r.scalars, r.buffers, BoundsAt(r, k))
  {
    hide Described, EffectsDescribed, LoopAccepted, LoopCompiled, BodyAccesses, AddKernels;
    AddKernelsDescribe(r.buffers, r.scalars, AllBounds(r), ScalarValues(r, act));
    AddKernelsEffects(r.buffers, r.scalars, AllBounds(r));
    AddKernelsAccepted([], EmptyRows(r), r.scalars, AllBounds(r), k);
    assert AllBounds(r)[k] == BoundsAt(r, k);
  }

  lemma AccessAddressed(r: Region, act: Actuals, lengths: seq<nat>, k: nat, a: Access, t: nat)
    requires Compiled(r) && ArgumentsBound(r, act) && RuntimeAccepts(r, act, lengths)
    requires k < |r.loops| && a in BoundsAt(r, k).accesses && t < TripCount(r, act, k)
    requires a.buffer < r.buffers ==> lengths[a.buffer] <= 0x8000_0000
    ensures a.buffer < r.buffers && AddressAt(SettingAt(r, act, k), a, t) < lengths[a.buffer]
    ensures AddressAt(SettingAt(r, act, k), a, t) ==
      AffineExact(a.index, BoundExact(r.loops[k].env.start, r.scalars, ScalarValues(r, act)) + t, r.scalars, ScalarValues(r, act))
  {
    hide Described, EffectsDescribed, LoopCompiled, AddKernels, KernelChecked, AffineExact, BoundExact, ArgumentsBound, ScalarValues, AddressAt, Wrap, BodyAccesses;
    var vals := ScalarValues(r, act);
    var (nodes, rows, plans) := AddKernels([], EmptyRows(r), r.scalars, AllBounds(r)).value;
    RegionTables(r, act, k);
    var c := BoundExact(r.loops[k].env.start, r.scalars, vals) + t;
    AccessInside(r, act, lengths, nodes, rows, plans, k, a, c);
    assert r.loops[k].env.scalars == r.scalars by { LoopScalars(r, k); }
    AddressExact(r, act, k, a, t);
    WrapUnique(AffineExact(a.index, c, r.scalars, vals), AffineExact(a.index, c, r.scalars, vals), 0);
  }

  lemma LoopScalars(r: Region, k: nat)
    requires Compiled(r) && k < |r.loops|
    ensures r.loops[k].env.scalars == r.scalars
  {
    assert LoopCompiled(r, k);
  }

  lemma KernelInBounds(r: Region, act: Actuals, lengths: seq<nat>, mem: Mem, k: nat)
    requires Compiled(r) && ArgumentsBound(r, act) && RuntimeAccepts(r, act, lengths)
    requires k < |r.loops| && Holding(mem, lengths)
    ensures InBounds(SettingAt(r, act, k), TripCount(r, act, k), mem)
  {
    hide LoopCompiled, ArgumentsBound, AddressAt, KernelChecked, BodyAccesses, AffineExact, BoundExact, AddKernels, TripCount;
    var st, count := SettingAt(r, act, k), TripCount(r, act, k);
    RegionTables(r, act, k);
    forall a | a in Accesses(st)
      ensures a.buffer < |mem| && |mem[a.buffer]| <= 0x8000_0000
      ensures forall t: nat :: t < count ==> AddressAt(st, a, t) < |mem[a.buffer]|
    {
      assert a in BoundsAt(r, k).accesses;
      forall t: nat | t < count ensures AddressAt(st, a, t) < |mem[a.buffer]| {
        AccessAddressed(r, act, lengths, k, a, t);
      }
    }
  }

  lemma TripFits(r: Region, act: Actuals, lengths: seq<nat>, k: nat)
    requires Compiled(r) && ArgumentsBound(r, act) && RuntimeAccepts(r, act, lengths) && k < |r.loops|
    ensures TripCount(r, act, k) <= 0xFFFF_FFFF
    ensures 0 <= BoundExact(r.loops[k].env.start, r.scalars, ScalarValues(r, act)) <= INT_MAX
  {
    hide Exact, ValueAt, AddKernels, BoundExact, EffectsDescribed, LoopAccepted, LoopCompiled, ArgumentsBound, RowsBuilt;
    var vals := ScalarValues(r, act);
    var (nodes, rows, plans) := AddKernels([], EmptyRows(r), r.scalars, AllBounds(r)).value;
    RegionTables(r, act, k);
    assert AllBounds(r)[k] == BoundsAt(r, k);
    assert PlanBuilt(nodes, plans[k], BoundsAt(r, k), r.scalars, vals);
    ValueExact(nodes, plans[k].trip, vals);
    ValueExact(nodes, plans[k].start, vals);
  }

  lemma KernelLaunchable(r: Region, act: Actuals, lengths: seq<nat>, mem: Mem, k: nat)
    requires Compiled(r) && ArgumentsBound(r, act) && RuntimeAccepts(r, act, lengths)
    requires k < |r.loops| && Holding(mem, lengths)
    ensures Launchable(SettingAt(r, act, k), r.shape, TripCount(r, act, k), mem)
  {
    hide RuntimeAccepts, InBounds, Accepted, KV.TablesFit, Independent, TripCount, AddKernels, Holding, BodyAccesses;
    KernelInBounds(r, act, lengths, mem, k);
    TripFits(r, act, lengths, k);
    assert LoopCompiled(r, k);
  }

  // ------------------------------------------------------------------
  // Reductions between kernels
  // ------------------------------------------------------------------

  // Results of the kernels before k are in their variables; later ones are
  // still zero.
  ghost predicate ResultsReady(r: Region, k: nat, vars: Vars, results: seq<Word>) {
    && |results| == |ResultsOf(r.loops)|
    && (forall j :: 0 <= j < |results| && ResultsOf(r.loops)[j].producer < k ==>
         ResultsOf(r.loops)[j].name in vars && vars[ResultsOf(r.loops)[j].name] == IntVal(results[j]))
    && (forall j :: 0 <= j < |results| && ResultsOf(r.loops)[j].producer >= k ==> results[j] == 0)
  }

  // The first loop's accumulator was declared zero right before the region.
  ghost predicate EntryReady(r: Region, vars: Vars) {
    |r.loops| > 0 && r.loops[0].env.reduction.Some? && !r.loops[0].zeroFirst ==>
      r.loops[0].env.reduction.value.accumulator in vars
      && vars[r.loops[0].env.reduction.value.accumulator] == IntVal(0)
  }

  // The entry kernel k produces, if any.
  lemma OwnEntryUnique(r: Region, k: nat, j: nat)
    requires Compiled(r) && k < |r.loops| && j < |ResultsOf(r.loops)|
    ensures ResultsOf(r.loops)[j].producer == k <==> r.loops[k].env.reduction.Some? && r.loops[k].env.reduction.value.entry == Some(j)
    ensures ResultsOf(r.loops)[j].producer == k ==> ResultsOf(r.loops)[j].name == r.loops[k].env.reduction.value.accumulator
  {
    hide Accepted, KV.TablesFit, Independent, AddKernels, ResultsOf;
    assert LoopCompiled(r, k);
    ResultProducer(r.loops, j);
    var p := ResultsOf(r.loops)[j].producer;
    assert LoopCompiled(r, p);
    if r.loops[k].env.reduction.Some? && r.loops[k].env.reduction.value.entry == Some(j) && p != k {
      if p < k {
        ResultsGrow(r.loops, p, k);
      } else {
        ResultsGrow(r.loops, k, p);
      }
    }
  }

  lemma {:induction false} ResultsGrow(loops: seq<RegionLoop>, p: nat, k: nat)
    requires p < k <= |loops| && loops[p].env.reduction.Some?
    ensures |ResultsOf(loops[..p])| < |ResultsOf(loops[..k])|
  {
    assert loops[..k][..k - 1] == loops[..k - 1];
    if p < k - 1 {
      ResultsGrow(loops, p, k - 1);
    }
  }

  lemma NamesDistinct(r: Region, i: nat, j: nat)
    requires Compiled(r) && |r.loops| > 0 && i < |ResultsOf(r.loops)| && j < |ResultsOf(r.loops)| && i != j
    ensures ResultsOf(r.loops)[i].name != ResultsOf(r.loops)[j].name
  {
    hide KV.TablesFit, Independent, AddKernels, ResultsOf, LowerBody, ScalarVerdict;
    assert LoopCompiled(r, 0);
  }

  // Before kernel k, with its accumulator initialised, every result up to
  // and including its own is published.
  lemma ReadyPublished(r: Region, k: nat, vars0: Vars, vars: Vars, results: seq<Word>)
    requires Compiled(r) && k < |r.loops| && ResultsReady(r, k, vars, results)
    requires k == 0 ==> vars == vars0 && EntryReady(r, vars0)
    ensures Published(r.loops[k].env, Initialised(r, k, vars), results)
  {
    hide Accepted, KV.TablesFit, Independent, AddKernels, ResultsOf, WellFormed;
    var env := r.loops[k].env;
    assert LoopCompiled(r, k);
    forall j | 0 <= j < |env.results| && env.results[j].producer <= k
      ensures env.results[j].name in Initialised(r, k, vars)
      ensures Initialised(r, k, vars)[env.results[j].name] == IntVal(results[j])
    {
      OwnEntryUnique(r, k, j);
      if env.results[j].producer < k && env.reduction.Some? {
        var own := |ResultsOf(r.loops[..k])|;
        OwnEntryExists(r, k);
        NamesDistinct(r, j, own);
        OwnEntryUnique(r, k, own);
      }
    }
  }

  lemma OwnEntryExists(r: Region, k: nat)
    requires k < |r.loops| && r.loops[k].env.reduction.Some?
    ensures |ResultsOf(r.loops[..k])| < |ResultsOf(r.loops)|
  {
    ResultsGrow(r.loops, k, |r.loops|);
    assert r.loops[..|r.loops|] == r.loops;
  }

  // After kernel k the results before it are as they were, its own is
  // published, and later ones are still zero.
  lemma PublishedReady(r: Region, k: nat, vars: Vars, before: seq<Word>, results: seq<Word>)
    requires Compiled(r) && k < |r.loops| && Published(r.loops[k].env, vars, results)
    requires |before| == |results| == |ResultsOf(r.loops)|
    requires forall j :: 0 <= j < |results| && ResultsOf(r.loops)[j].producer > k ==> before[j] == 0
    requires forall e :: 0 <= e < |results| && ResultsOf(r.loops)[e].producer != k ==> results[e] == before[e]
    ensures ResultsReady(r, k + 1, vars, results)
  {
    hide Accepted, KV.TablesFit, Independent, AddKernels, ResultsOf;
    assert LoopCompiled(r, k);
  }

  // ------------------------------------------------------------------
  // Region simulation
  // ------------------------------------------------------------------

  // Everything known when a region is dispatched.
  ghost predicate Runnable(r: Region, act: Actuals, lengths: seq<nat>) {
    && Compiled(r) && ArgumentsBound(r, act) && RuntimeAccepts(r, act, lengths)
    && (forall k :: 0 <= k < |r.loops| ==> TripCount(r, act, k) <= 0x1_0000_0000)
  }

  lemma AcceptedRuns(r: Region, act: Actuals, lengths: seq<nat>)
    requires Compiled(r) && ArgumentsBound(r, act) && RuntimeAccepts(r, act, lengths)
    ensures Runnable(r, act, lengths)
  {
    hide Compiled, ArgumentsBound, RuntimeAccepts, TripCount;
    forall k | 0 <= k < |r.loops| ensures TripCount(r, act, k) <= 0x1_0000_0000 {
      TripFits(r, act, lengths, k);
    }
  }

  // The source and the device stand at the same point after k loops.
  ghost predicate InStep(
    r: Region, act: Actuals, lengths: seq<nat>, schedules: seq<seq<nat>>, k: nat, vars: Vars, mem: Mem, results: seq<Word>)
    requires Runnable(r, act, lengths) && k <= |r.loops| == |schedules|
  {
    var source := TruncatedRegion(r, act, k, vars, mem);
    var dev := Dispatched(r, act, schedules, k, Device(mem, results));
    && source.Some? && source.value.1 == dev.mem && Holding(dev.mem, lengths)
    && ResultsReady(r, k, source.value.0, dev.results)
  }

  // One loop further.
  lemma KernelStep(
    r: Region, act: Actuals, lengths: seq<nat>, k: nat, vars0: Vars, vars: Vars, mem: Mem, results: seq<Word>, schedule: seq<nat>)
    requires Runnable(r, act, lengths) && k < |r.loops|
    requires Holding(mem, lengths) && ResultsReady(r, k, vars, results)
    requires k == 0 ==> vars == vars0 && EntryReady(r, vars0)
    requires var launch := LaunchOf(SettingAt(r, act, k), TripCount(r, act, k), mem, results);
      D.Complete(launch, D.Execute(launch, schedule))
    ensures var launch := LaunchOf(SettingAt(r, act, k), TripCount(r, act, k), mem, results);
      var grid := D.Execute(launch, schedule);
      var after := TruncatedLoop(SettingAt(r, act, k), TripCount(r, act, k), Initialised(r, k, vars), mem);
      && after.Some? && after.value.1 == grid.mem && Holding(grid.mem, lengths)
      && ResultsReady(r, k + 1, after.value.0, grid.results)
  {
    hide Compiled, ArgumentsBound, RuntimeAccepts, TripCount, D.Execute, D.Complete, TruncatedLoop, Launchable, Published, LoopCompiled;
    var st, count := SettingAt(r, act, k), TripCount(r, act, k);
    KernelLaunchable(r, act, lengths, mem, k);
    ReadyPublished(r, k, vars0, vars, results);
    LoopSimulation(st, r.shape, count, Initialised(r, k, vars), mem, results, schedule);
    var grid := D.Execute(LaunchOf(st, count, mem, results), schedule);
    LoopFrame(st, r.shape, count, Initialised(r, k, vars), mem, results, schedule, 0, 0);
    forall e | 0 <= e < |results| && ResultsOf(r.loops)[e].producer != k ensures grid.results[e] == results[e] {
      LoopFrame(st, r.shape, count, Initialised(r, k, vars), mem, results, schedule, 0, e);
      OwnEntryUnique(r, k, e);
    }
    PublishedReady(r, k, TruncatedLoop(st, count, Initialised(r, k, vars), mem).value.0, results, grid.results);
  }

  lemma StartsInStep(
    r: Region, act: Actuals, lengths: seq<nat>, schedules: seq<seq<nat>>, vars: Vars, mem: Mem, results: seq<Word>)
    requires Runnable(r, act, lengths) && |r.loops| == |schedules|
    requires Holding(mem, lengths) && EntryReady(r, vars)
    requires |results| == |ResultsOf(r.loops)| && forall j :: 0 <= j < |results| ==> results[j] == 0
    ensures InStep(r, act, lengths, schedules, 0, vars, mem, results)
  {
    hide Compiled, ArgumentsBound, RuntimeAccepts, TripCount, ResultsOf;
  }

  lemma StaysInStep(
    r: Region, act: Actuals, lengths: seq<nat>, schedules: seq<seq<nat>>, k: nat, vars: Vars, mem: Mem, results: seq<Word>)
    requires Runnable(r, act, lengths) && k < |r.loops| == |schedules|
    requires EntryReady(r, vars) && InStep(r, act, lengths, schedules, k, vars, mem, results)
    requires AllComplete(r, act, schedules, k + 1, Device(mem, results))
    ensures InStep(r, act, lengths, schedules, k + 1, vars, mem, results)
  {
    hide Compiled, ArgumentsBound, RuntimeAccepts, TripCount, D.Execute, D.Complete, TruncatedLoop, Initialised, ResultsReady, Holding, EntryReady, LaunchOf, SettingAt;
    var (vars1, mem1) := TruncatedRegion(r, act, k, vars, mem).value;
    var dev := Dispatched(r, act, schedules, k, Device(mem, results));
    KernelStep(r, act, lengths, k, vars, vars1, mem1, dev.results, schedules[k]);
  }

  lemma {:induction false} RegionUpTo(
    r: Region, act: Actuals, lengths: seq<nat>, schedules: seq<seq<nat>>, k: nat, vars: Vars, mem: Mem, results: seq<Word>)
    requires Runnable(r, act, lengths) && k <= |r.loops| == |schedules|
    requires Holding(mem, lengths) && EntryReady(r, vars)
    requires |results| == |ResultsOf(r.loops)| && forall j :: 0 <= j < |results| ==> results[j] == 0
    requires AllComplete(r, act, schedules, k, Device(mem, results))
    ensures InStep(r, act, lengths, schedules, k, vars, mem, results)
  {
    hide Compiled, ArgumentsBound, RuntimeAccepts, TripCount, D.Execute, D.Complete, ResultsOf, InStep, Dispatched, EntryReady, Holding, LaunchOf, SettingAt;
    if k > 0 {
      RegionUpTo(r, act, lengths, schedules, k - 1, vars, mem, results);
      StaysInStep(r, act, lengths, schedules, k - 1, vars, mem, results);
    } else {
      StartsInStep(r, act, lengths, schedules, vars, mem, results);
    }
  }

  // The truncated region cannot fail, and whatever the interleaving of each
  // kernel's lanes, the device ends with the memory its sequential loops
  // leave, untouched elements included, and every result word is the value of
  // its accumulator.
  lemma RegionSimulation(
    r: Region, act: Actuals, lengths: seq<nat>, schedules: seq<seq<nat>>, vars: Vars, mem: Mem, results: seq<Word>)
    requires Runnable(r, act, lengths) && |r.loops| == |schedules|
    requires Holding(mem, lengths) && EntryReady(r, vars)
    requires |results| == |ResultsOf(r.loops)| && forall j :: 0 <= j < |results| ==> results[j] == 0
    requires AllComplete(r, act, schedules, |r.loops|, Device(mem, results))
    ensures var source := TruncatedRegion(r, act, |r.loops|, vars, mem);
      var dev := Dispatched(r, act, schedules, |r.loops|, Device(mem, results));
      && source.Some? && dev.mem == source.value.1 && |dev.results| == |results|
      && (forall j :: 0 <= j < |results| ==>
           ResultsOf(r.loops)[j].name in source.value.0
           && source.value.0[ResultsOf(r.loops)[j].name] == IntVal(dev.results[j]))
  {
    hide Compiled, ArgumentsBound, RuntimeAccepts, TruncatedRegion, Dispatched, TripCount, ResultsOf;
    RegionUpTo(r, act, lengths, schedules, |r.loops|, vars, mem, results);
    forall j | 0 <= j < |results| ensures ResultsOf(r.loops)[j].producer < |r.loops| {
      ResultProducer(r.loops, j);
    }
  }

  // ------------------------------------------------------------------
  // Trip counts: checked 64-bit bounds against wrapping 32-bit ones
  // ------------------------------------------------------------------

  function BoundValueAt(r: Region, act: Actuals, e: Expr): int { BoundExact(e, r.scalars, ScalarValues(r, act)) }

  // The stop of loop k, as the program sees it, against its exact integer:
  // not past the start in both, or reached by the int counter and equal.
  predicate StopGuard(r: Region, act: Actuals, k: nat)
    requires k < |r.loops|
  {
    var (s, t) := (SourceBound(r.loops[k].env.start, act), SourceBound(r.loops[k].stop, act));
    var (start, stop) := (BoundValueAt(r, act, r.loops[k].env.start), BoundValueAt(r, act, r.loops[k].stop));
    && s.Some? && t.Some?
    && if NumberOf(s.value) >= NumberOf(t.value) then stop <= start
       else s.value.IntVal? && Target(t.value).Some? && NumberOf(t.value) == stop
  }

  ghost predicate BoundsAccepted(r: Region, act: Actuals, k: nat)
    requires k < |r.loops|
  {
    && ArgumentsBound(r, act)
    && BoundAccepted(r.scalars, r.loops[k].env.start) && BoundAccepted(r.scalars, r.loops[k].stop)
    && 0 <= BoundValueAt(r, act, r.loops[k].env.start) <= INT_MAX
  }

  // With a start in the dispatch range, the loop and the dispatch agree on
  // the count exactly under the guard.
  lemma CountAgreesIff(r: Region, act: Actuals, k: nat)
    requires k < |r.loops| && BoundsAccepted(r, act, k)
    ensures SourceCount(r, act, k) == Some(TripCount(r, act, k)) <==> StopGuard(r, act, k)
  {
    hide Wrap, SourceBound, BoundExact, ArgumentsBound, ScalarValues, BoundAccepted, Turns;
    SourceBoundIs(r, act, r.loops[k].env.start);
    SourceBoundIs(r, act, r.loops[k].stop);
    var start := BoundValueAt(r, act, r.loops[k].env.start);
    var (s, t) := (SourceBound(r.loops[k].env.start, act).value, SourceBound(r.loops[k].stop, act).value);
    SignedOfWrap(start);
    TurnsOf(s, t);
  }

  // The three ways a loop runs from a non-negative int or a 64-bit start.
  lemma TurnsOf(s: Value, t: Value)
    requires !s.FloatVal? && !t.FloatVal? && (s.IntVal? ==> NumberOf(s) >= 0)
    ensures NumberOf(s) >= NumberOf(t) ==> Turns(s, t) == Some(0)
    ensures NumberOf(s) < NumberOf(t) && s.LongVal? ==> Turns(s, t) == None
    ensures NumberOf(s) < NumberOf(t) && s.IntVal? ==>
            Turns(s, t) == if Target(t).Some? then Some(NumberOf(t) - NumberOf(s)) else None
  {
    if NumberOf(s) < NumberOf(t) && s.IntVal? {
      TurnsDifference(s, t);
    }
  }

  // Between int bounds the guard speaks of the exact stop alone: it does not
  // exceed the largest int and, if it is below the smallest one, still wraps
  // to a value at or below the start.
  lemma IntGuardIff(r: Region, act: Actuals, k: nat)
    requires k < |r.loops| && BoundsAccepted(r, act, k)
    requires LongFree(r.loops[k].env.start) && LongFree(r.loops[k].stop)
    ensures var (start, stop) := (BoundValueAt(r, act, r.loops[k].env.start), BoundValueAt(r, act, r.loops[k].stop));
      StopGuard(r, act, k) <==> stop <= INT_MAX && (stop < INT_MIN ==> Signed(Wrap(stop)) <= start)
  {
    hide Wrap, SourceBound, BoundExact, ArgumentsBound, ScalarValues, BoundAccepted;
    var (start, stop) := (BoundValueAt(r, act, r.loops[k].env.start), BoundValueAt(r, act, r.loops[k].stop));
    SourceBoundIs(r, act, r.loops[k].env.start);
    SourceBoundIs(r, act, r.loops[k].stop);
    SignedOfWrap(start);
    var q := WrapQuotient(stop);
    if INT_MIN <= stop <= INT_MAX {
      SignedOfWrap(stop);
    }
  }

  // A constant stop that the program computes exactly always satisfies it,
  // whether the constant is an int or 64-bit.
  lemma ConstantStopAgrees(r: Region, act: Actuals, k: nat)
    requires k < |r.loops| && BoundsAccepted(r, act, k)
    requires LongFree(r.loops[k].env.start) && FoldConstant(r.loops[k].stop).Some? && ConstantExact(r.loops[k].stop)
    ensures StopGuard(r, act, k)
  {
    hide Wrap, SourceBound, ArgumentsBound, ScalarValues;
    var stop := r.loops[k].stop;
    SourceBoundIs(r, act, r.loops[k].env.start);
    SourceBoundIs(r, act, stop);
    BoundOfClosed(stop, act);
    SignedOfWrap(BoundValueAt(r, act, r.loops[k].env.start));
    SignedOfWrap(FoldConstant(stop).value);
  }

  lemma BoundOfClosed(e: Expr, act: Actuals)
    requires FoldConstant(e).Some?
    ensures SourceBound(e, act) == SourceConstant(e)
  {
    ClosedMeaning(e, 0, BoundFrame(act.args, act.alu), map[], []);
  }

  // The source loop and the dispatch agree on how often loop k runs.
  ghost predicate CountsAgree(r: Region, act: Actuals) {
    forall k :: 0 <= k < |r.loops| ==> SourceCount(r, act, k) == Some(TripCount(r, act, k))
  }

  // What compilation and the runtime's checks leave open: the program makes
  // the dispatched trips exactly when every loop's stop meets its guard.
  lemma CountsAgreeIff(r: Region, act: Actuals, lengths: seq<nat>)
    requires Runnable(r, act, lengths)
    ensures CountsAgree(r, act) <==> forall k :: 0 <= k < |r.loops| ==> StopGuard(r, act, k)
  {
    hide Compiled, ArgumentsBound, RuntimeAccepts, TripCount, SourceCount, StopGuard, BoundExact, BoundAccepted;
    forall k | 0 <= k < |r.loops|
      ensures SourceCount(r, act, k) == Some(TripCount(r, act, k)) <==> StopGuard(r, act, k)
    {
      TripFits(r, act, lengths, k);
      RegionBounds(r, k);
      CountAgreesIff(r, act, k);
    }
  }

  lemma RegionBounds(r: Region, k: nat)
    requires Compiled(r) && k < |r.loops|
    ensures BoundAccepted(r.scalars, r.loops[k].env.start) && BoundAccepted(r.scalars, r.loops[k].stop)
  {
    hide AddKernels, LoopCompiled, BoundAccepted;
    AddKernelsAccepted([], EmptyRows(r), r.scalars, AllBounds(r), k);
    assert AllBounds(r)[k] == BoundsAt(r, k);
  }
}
