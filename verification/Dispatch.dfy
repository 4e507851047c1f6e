// A dispatch: `count` invocations of one kernel run concurrently over shared
// buffers and result words.  Every interleaving of their instructions leaves
// the memory and the results that running the lanes one after another leaves,
// as long as each lane keeps to its own element of every written buffer and
// reduces only into the kernel's own result entry.

module Dispatch {
  import opened Words
  import opened AccelIr
  import Hir

  datatype Launch = Launch(
    code: seq<Instr>, uniforms: seq<Word>, alu: Hir.Alu, count: nat, mem: Hir.Mem, results: seq<Word>)
  {
    predicate Valid() { count <= 0x1_0000_0000 }
  }

  function Lane(l: Launch, t: nat): Invocation
    requires l.Valid() && t < l.count
  {
    Invocation(t, l.uniforms, l.alu)
  }

  datatype Thread = Thread(pc: nat, vals: seq<Cell>)

  datatype Grid = Grid(threads: seq<Thread>, mem: Hir.Mem, results: seq<Word>)

  function Begin(l: Launch): Grid {
    Grid(seq(l.count, _ => Thread(0, [])), l.mem, l.results)
  }

  predicate Fitting(l: Launch, g: Grid) {
    l.Valid() && |g.threads| == l.count && forall t :: 0 <= t < l.count ==> g.threads[t].pc <= |l.code|
  }

  // Lane t performs its next instruction, if it has one.
  function GridStep(l: Launch, g: Grid, t: nat): (r: Grid)
    requires Fitting(l, g)
    ensures Fitting(l, r)
  {
    if t < l.count && g.threads[t].pc < |l.code| then
      var thread := g.threads[t];
      var m := Step(l.code[thread.pc], Lane(l, t), Machine(thread.vals, g.mem, g.results));
      Grid(g.threads[t := Thread(thread.pc + 1, m.vals)], m.mem, m.results)
    else g
  }

  function Execute(l: Launch, schedule: seq<nat>): (r: Grid)
    requires l.Valid()
    ensures Fitting(l, r)
    decreases |schedule|
  {
    if schedule == [] then Begin(l)
    else GridStep(l, Execute(l, schedule[..|schedule| - 1]), schedule[|schedule| - 1])
  }

  predicate Complete(l: Launch, g: Grid)
    requires Fitting(l, g)
  {
    forall t :: 0 <= t < l.count ==> g.threads[t].pc == |l.code|
  }

  // The lanes one after another.
  function Sequential(l: Launch, k: nat): Machine
    requires l.Valid() && k <= l.count
  {
    if k == 0 then Machine([], l.mem, l.results)
    else
      var before := Sequential(l, k - 1);
      Run(l.code, |l.code|, Lane(l, k - 1), before.mem, before.results)
  }

  // Lane t alone, from the memory the dispatch starts with.
  function Solo(l: Launch, t: nat, n: nat): Machine
    requires l.Valid() && t < l.count && n <= |l.code|
  {
    Run(l.code, n, Lane(l, t), l.mem, l.results)
  }

  // ------------------------------------------------------------------
  // The discipline of an accepted kernel
  // ------------------------------------------------------------------

  // home(b, t) is the one element of written buffer b that lane t may touch.
  datatype Discipline = Discipline(written: set<nat>, home: (nat, nat) -> nat, entry: Option<nat>)

  predicate Keeps(l: Launch, d: Discipline, t: nat, n: nat)
    requires l.Valid() && t < l.count && n < |l.code|
  {
    var m := Solo(l, t, n);
    match l.code[n]
    case Load(_, b, i) => b in d.written ==> ValueOf(m, i).bits == d.home(b, t)
    case Store(b, i, _) => b in d.written && ValueOf(m, i).bits == d.home(b, t)
    case AtomicAdd(e, _) => d.entry == Some(e)
    case LoadResult(e) => d.entry != Some(e)
    case _ => true
  }

  ghost predicate Disciplined(l: Launch, d: Discipline) {
    && l.Valid()
    && (forall t, n :: 0 <= t < l.count && 0 <= n < |l.code| ==> Keeps(l, d, t, n))
    && (forall b, t, u :: b in d.written && 0 <= t < u < l.count ==> d.home(b, t) != d.home(b, u))
  }

  predicate Owned(d: Discipline, t: nat, b: nat, x: nat) { b in d.written && d.home(b, t) == x }

  function AfterPut(mem: Hir.Mem, b: nat, x: nat, w: Word, c: nat, y: nat): Word {
    if c == b && y == x && b < |mem| && x < |mem[b]| then w else MemAt(mem, c, y)
  }

  lemma MemPutAt(mem: Hir.Mem, b: nat, x: nat, w: Word)
    ensures Hir.SameShape(mem, MemPut(mem, b, x, w))
    ensures forall c: nat, y: nat :: MemAt(MemPut(mem, b, x, w), c, y) == AfterPut(mem, b, x, w, c, y)
  {
  }

  lemma MemExtensional(a: Hir.Mem, b: Hir.Mem)
    requires Hir.SameShape(a, b)
    requires forall c: nat, y: nat :: MemAt(a, c, y) == MemAt(b, c, y)
    ensures a == b
  {
    forall c | 0 <= c < |a| ensures a[c] == b[c] {
      forall y | 0 <= y < |a[c]| ensures a[c][y] == b[c][y] {
        assert MemAt(a, c, y) == MemAt(b, c, y);
      }
    }
  }

  // A lane alone changes only its own elements and the own result entry.
  ghost predicate Framed(l: Launch, d: Discipline, t: nat, m: Machine) {
    && Hir.SameShape(l.mem, m.mem)
    && |m.results| == |l.results|
    && (forall b: nat, x: nat :: !Owned(d, t, b, x) ==> MemAt(m.mem, b, x) == MemAt(l.mem, b, x))
    && (forall e: nat :: d.entry != Some(e) ==> WordAt(m.results, e) == WordAt(l.results, e))
  }

  lemma PutFramed(l: Launch, d: Discipline, t: nat, m: Machine, b: nat, x: nat, w: Word)
    requires Framed(l, d, t, m) && Owned(d, t, b, x)
    ensures Framed(l, d, t, m.(mem := MemPut(m.mem, b, x, w)))
  {
    hide MemAt, MemPut;
    MemPutAt(m.mem, b, x, w);
  }

  lemma SameFrame(l: Launch, d: Discipline, t: nat, a: Machine, b: Machine)
    requires Framed(l, d, t, a) && a.mem == b.mem && a.results == b.results
    ensures Framed(l, d, t, b)
  {
  }

  lemma {:induction false} SoloFramed(l: Launch, d: Discipline, t: nat, n: nat)
    requires Disciplined(l, d) && t < l.count && n <= |l.code|
    ensures Framed(l, d, t, Solo(l, t, n))
  {
    hide Operate, MemAt, MemPut;
    if n > 0 {
      SoloFramed(l, d, t, n - 1);
      assert Keeps(l, d, t, n - 1);
      var m := Solo(l, t, n - 1);
      match l.code[n - 1]
      case Store(b, i, v) =>
        hide Framed;
        PutFramed(l, d, t, m, b, ValueOf(m, i).bits, ValueOf(m, v).bits);
        SameFrame(l, d, t, m.(mem := MemPut(m.mem, b, ValueOf(m, i).bits, ValueOf(m, v).bits)), Solo(l, t, n));
      case _ =>
    }
  }

  // ------------------------------------------------------------------
  // Coherence of every reachable grid
  // ------------------------------------------------------------------

  // What lane t has added to entry e after n instructions.
  function Contribution(l: Launch, e: nat, t: nat, n: nat): int
    requires l.Valid() && t < l.count && n <= |l.code|
  {
    WordAt(Solo(l, t, n).results, e) - WordAt(l.results, e)
  }

  function Contributions(l: Launch, e: nat, threads: seq<Thread>, k: nat): int
    requires l.Valid() && k <= |threads| == l.count
    requires forall t :: 0 <= t < l.count ==> threads[t].pc <= |l.code|
  {
    if k == 0 then 0
    else Contributions(l, e, threads, k - 1) + Contribution(l, e, k - 1, threads[k - 1].pc)
  }

  // Every lane holds the values it would compute alone, every element is its
  // owner's or untouched, and the own entry holds the initial word plus what
  // the lanes have added so far.
  ghost predicate Coherent(l: Launch, d: Discipline, g: Grid)
    requires Fitting(l, g)
  {
    && Hir.SameShape(l.mem, g.mem)
    && |g.results| == |l.results|
    && (forall t :: 0 <= t < l.count ==> g.threads[t].vals == Solo(l, t, g.threads[t].pc).vals)
    && (forall t, b: nat, x: nat :: 0 <= t < l.count && Owned(d, t, b, x) ==>
         MemAt(g.mem, b, x) == MemAt(Solo(l, t, g.threads[t].pc).mem, b, x))
    && (forall b: nat, x: nat :: (forall t :: 0 <= t < l.count ==> !Owned(d, t, b, x)) ==>
         MemAt(g.mem, b, x) == MemAt(l.mem, b, x))
    && (forall e: nat :: d.entry != Some(e) ==> WordAt(g.results, e) == WordAt(l.results, e))
    && (d.entry.Some? && d.entry.value < |l.results| ==>
         WordAt(g.results, d.entry.value) ==
         Wrap(WordAt(l.results, d.entry.value) + Contributions(l, d.entry.value, g.threads, l.count)))
  }

  lemma {:induction false} ContributionsAtStart(l: Launch, e: nat, k: nat)
    requires l.Valid() && k <= l.count
    ensures Contributions(l, e, Begin(l).threads, k) == 0
  {
    if k > 0 {
      ContributionsAtStart(l, e, k - 1);
    }
  }

  lemma {:induction false} ContributionsUpdate(l: Launch, e: nat, threads: seq<Thread>, t: nat, next: Thread, k: nat)
    requires l.Valid() && k <= |threads| == l.count && t < l.count && next.pc <= |l.code|
    requires forall u :: 0 <= u < l.count ==> threads[u].pc <= |l.code|
    ensures Contributions(l, e, threads[t := next], k) ==
      Contributions(l, e, threads, k)
      + (if t < k then Contribution(l, e, t, next.pc) - Contribution(l, e, t, threads[t].pc) else 0)
  {
    hide Contribution;
    if k > 0 {
      ContributionsUpdate(l, e, threads, t, next, k - 1);
    }
  }

  lemma BeginCoherent(l: Launch, d: Discipline)
    requires Disciplined(l, d)
    ensures Coherent(l, d, Begin(l))
  {
    if d.entry.Some? && d.entry.value < |l.results| {
      ContributionsAtStart(l, d.entry.value, l.count);
      WrapOfWord(WordAt(l.results, d.entry.value));
    }
  }

  // A lane reads from the shared memory what it would read alone.
  lemma SharedReads(l: Launch, d: Discipline, g: Grid, t: nat, b: nat, x: nat)
    requires Disciplined(l, d) && Fitting(l, g) && Coherent(l, d, g) && t < l.count
    requires b in d.written ==> x == d.home(b, t)
    ensures MemAt(g.mem, b, x) == MemAt(Solo(l, t, g.threads[t].pc).mem, b, x)
  {
    hide MemAt, Solo;
    SoloFramed(l, d, t, g.threads[t].pc);
    if b in d.written {
      assert Owned(d, t, b, x);
    }
  }

  // The instruction only defines a value, the same one as alone.
  lemma PureStep(l: Launch, d: Discipline, g: Grid, t: nat)
    requires Disciplined(l, d) && Fitting(l, g) && Coherent(l, d, g)
    requires t < l.count && g.threads[t].pc < |l.code|
    requires !l.code[g.threads[t].pc].Store? && !l.code[g.threads[t].pc].AtomicAdd?
    ensures var n := g.threads[t].pc;
      var next := GridStep(l, g, t);
      && next.mem == g.mem && next.results == g.results
      && Solo(l, t, n + 1).mem == Solo(l, t, n).mem
      && Solo(l, t, n + 1).results == Solo(l, t, n).results
      && next.threads == g.threads[t := Thread(n + 1, Solo(l, t, n + 1).vals)]
  {
    hide MemAt, Operate, Disciplined;
    var n := g.threads[t].pc;
    assert Keeps(l, d, t, n) by { DisciplineAt(l, d, t, n); }
    var m := Solo(l, t, n);
    SoloFramed(l, d, t, n);
    match l.code[n]
    case Load(_, b, i) => SharedReads(l, d, g, t, b, ValueOf(m, i).bits);
    case _ =>
  }

  lemma DisciplineAt(l: Launch, d: Discipline, t: nat, n: nat)
    requires Disciplined(l, d) && t < l.count && n < |l.code|
    ensures Keeps(l, d, t, n)
  {
  }

  // Replacing a lane's state by one with the same memory and results keeps
  // coherence.
  lemma AdvanceCoherent(l: Launch, d: Discipline, g: Grid, t: nat, n: nat)
    requires l.Valid() && Fitting(l, g) && Coherent(l, d, g) && t < l.count && n <= |l.code|
    requires Solo(l, t, n).mem == Solo(l, t, g.threads[t].pc).mem
    requires Solo(l, t, n).results == Solo(l, t, g.threads[t].pc).results
    ensures Coherent(l, d, g.(threads := g.threads[t := Thread(n, Solo(l, t, n).vals)]))
  {
    hide MemAt, Solo, Wrap, Owned, Run, WordAt;
    var next := Thread(n, Solo(l, t, n).vals);
    if d.entry.Some? && d.entry.value < |l.results| {
      var e := d.entry.value;
      assert Contribution(l, e, t, n) == Contribution(l, e, t, g.threads[t].pc);
      ContributionsUpdate(l, e, g.threads, t, next, l.count);
    }
    hide Contributions, Contribution;
  }

  lemma PureCoherent(l: Launch, d: Discipline, g: Grid, t: nat)
    requires Disciplined(l, d) && Fitting(l, g) && Coherent(l, d, g)
    requires t < l.count && g.threads[t].pc < |l.code|
    requires !l.code[g.threads[t].pc].Store? && !l.code[g.threads[t].pc].AtomicAdd?
    ensures Coherent(l, d, GridStep(l, g, t))
  {
    hide Solo, GridStep, Coherent;
    PureStep(l, d, g, t);
    AdvanceCoherent(l, d, g, t, g.threads[t].pc + 1);
  }

  lemma StoreCoherent(l: Launch, d: Discipline, g: Grid, t: nat)
    requires Disciplined(l, d) && Fitting(l, g) && Coherent(l, d, g)
    requires t < l.count && g.threads[t].pc < |l.code| && l.code[g.threads[t].pc].Store?
    ensures Coherent(l, d, GridStep(l, g, t))
  {
    hide MemAt, MemPut, Run, Disciplined, Wrap;
    var n := g.threads[t].pc;
    DisciplineAt(l, d, t, n);
    var m := Solo(l, t, n);
    var i := l.code[n];
    var x, w := ValueOf(m, i.index).bits, ValueOf(m, i.stored).bits;
    var next := GridStep(l, g, t);
    assert Solo(l, t, n + 1) == Step(i, Lane(l, t), m) by { RunUnfold(l, t, n); }
    assert next.mem == MemPut(g.mem, i.buffer, x, w);
    MemPutAt(g.mem, i.buffer, x, w);
    MemPutAt(m.mem, i.buffer, x, w);
    SoloFramed(l, d, t, n);
    assert Owned(d, t, i.buffer, x);
    HomesDiffer(l, d);
    if d.entry.Some? && d.entry.value < |l.results| {
      ContributionsUpdate(l, d.entry.value, g.threads, t, next.threads[t], l.count);
    }
  }

  lemma RunUnfold(l: Launch, t: nat, n: nat)
    requires l.Valid() && t < l.count && n < |l.code|
    ensures Solo(l, t, n + 1) == Step(l.code[n], Lane(l, t), Solo(l, t, n))
  {
  }

  lemma HomesDiffer(l: Launch, d: Discipline)
    requires Disciplined(l, d)
    ensures forall t, u, b: nat, x: nat :: 0 <= t < l.count && 0 <= u < l.count && Owned(d, t, b, x) && Owned(d, u, b, x) ==> t == u
  {
  }

  // Adding v to a shared word and to a lane's own word moves both alike.
  lemma AddedWord(x: int, v: Word, own: Word)
    ensures Add(Wrap(x), v) == Wrap(x + (Add(own, v) - own))
  {
    hide Wrap;
    var k := WrapQuotient(own + v);
    var q := WrapQuotient(x + v);
    WrapOfSum(x, v);
    WrapUnique(x + (Wrap(own + v) - own), Wrap(x + v), q - k);
  }

  lemma AtomicCoherent(l: Launch, d: Discipline, g: Grid, t: nat)
    requires Disciplined(l, d) && Fitting(l, g) && Coherent(l, d, g)
    requires t < l.count && g.threads[t].pc < |l.code| && l.code[g.threads[t].pc].AtomicAdd?
    ensures Coherent(l, d, GridStep(l, g, t))
  {
    hide MemAt, Run, Disciplined, Wrap, Operate;
    var n := g.threads[t].pc;
    DisciplineAt(l, d, t, n);
    var m := Solo(l, t, n);
    var i := l.code[n];
    var next := GridStep(l, g, t);
    RunUnfold(l, t, n);
    SoloFramed(l, d, t, n);
    if i.entry < |l.results| {
      ContributionsUpdate(l, i.entry, g.threads, t, next.threads[t], l.count);
      var v: int := ValueOf(m, i.added).bits;
      var r: int := WordAt(l.results, i.entry);
      var total := Contributions(l, i.entry, g.threads, l.count);
      AddedWord(r + total, v, WordAt(m.results, i.entry));
    }
  }

  lemma StepCoherent(l: Launch, d: Discipline, g: Grid, t: nat)
    requires Disciplined(l, d) && Fitting(l, g) && Coherent(l, d, g)
    ensures Coherent(l, d, GridStep(l, g, t))
  {
    hide Coherent, Disciplined, Step;
    if t < l.count && g.threads[t].pc < |l.code| {
      var i := l.code[g.threads[t].pc];
      if i.Store? {
        StoreCoherent(l, d, g, t);
      } else if i.AtomicAdd? {
        AtomicCoherent(l, d, g, t);
      } else {
        PureCoherent(l, d, g, t);
      }
    }
  }

  lemma {:induction false} ExecuteCoherent(l: Launch, d: Discipline, schedule: seq<nat>)
    requires Disciplined(l, d)
    ensures Coherent(l, d, Execute(l, schedule))
    decreases |schedule|
  {
    hide Coherent, Disciplined, GridStep;
    if schedule == [] {
      BeginCoherent(l, d);
    } else {
      var front, last := schedule[..|schedule| - 1], schedule[|schedule| - 1];
      ExecuteCoherent(l, d, front);
      StepCoherent(l, d, Execute(l, front), last);
    }
  }

  // ------------------------------------------------------------------
  // Every complete schedule ends alike
  // ------------------------------------------------------------------

  lemma CompleteThreads(l: Launch, d: Discipline, g: Grid)
    requires Fitting(l, g) && Coherent(l, d, g) && Complete(l, g)
    ensures g.threads == seq(l.count, t requires 0 <= t < l.count => Thread(|l.code|, Solo(l, t, |l.code|).vals))
  {
    hide Solo;
  }

  lemma CompleteAgree(l: Launch, d: Discipline, g: Grid, h: Grid)
    requires Disciplined(l, d)
    requires Fitting(l, g) && Coherent(l, d, g) && Complete(l, g)
    requires Fitting(l, h) && Coherent(l, d, h) && Complete(l, h)
    ensures g == h
  {
    hide Solo, Disciplined, MemAt, Wrap, Contributions;
    CompleteThreads(l, d, g);
    CompleteThreads(l, d, h);
    forall b: nat, x: nat ensures MemAt(g.mem, b, x) == MemAt(h.mem, b, x) {
      if t :| 0 <= t < l.count && Owned(d, t, b, x) {
        assert MemAt(g.mem, b, x) == MemAt(Solo(l, t, |l.code|).mem, b, x);
      }
    }
    MemExtensional(g.mem, h.mem);
    forall e | 0 <= e < |l.results| ensures g.results[e] == h.results[e] {
      assert WordAt(g.results, e) == WordAt(h.results, e);
    }
  }

  // ------------------------------------------------------------------
  // Running the lanes one after another is one of the schedules
  // ------------------------------------------------------------------

  function Repeat(t: nat, n: nat): seq<nat> { seq(n, _ => t) }

  function InOrder(l: Launch, k: nat): seq<nat> {
    if k == 0 then [] else InOrder(l, k - 1) + Repeat(k - 1, |l.code|)
  }

  lemma {:induction false} ExecuteLane(l: Launch, schedule: seq<nat>, t: nat, n: nat)
    requires l.Valid() && t < l.count && n <= |l.code|
    requires Execute(l, schedule).threads[t] == Thread(0, [])
    ensures var g := Execute(l, schedule);
      var m := Run(l.code, n, Lane(l, t), g.mem, g.results);
      Execute(l, schedule + Repeat(t, n)) == Grid(g.threads[t := Thread(n, m.vals)], m.mem, m.results)
  {
    hide Step;
    if n == 0 {
      assert schedule + Repeat(t, n) == schedule;
    } else {
      ExecuteLane(l, schedule, t, n - 1);
      var longer := schedule + Repeat(t, n);
      assert longer[..|longer| - 1] == schedule + Repeat(t, n - 1);
    }
  }

  lemma {:induction false} SequentialIsSchedule(l: Launch, k: nat)
    requires l.Valid() && k <= l.count
    ensures var g := Execute(l, InOrder(l, k));
      && g.mem == Sequential(l, k).mem && g.results == Sequential(l, k).results
      && (forall t :: 0 <= t < k ==> g.threads[t].pc == |l.code|)
      && (forall t :: k <= t < l.count ==> g.threads[t] == Thread(0, []))
  {
    hide Run, GridStep;
    if k > 0 {
      SequentialIsSchedule(l, k - 1);
      ExecuteLane(l, InOrder(l, k - 1), k - 1, |l.code|);
    }
  }

  // Whatever the interleaving, a dispatch that ran to completion leaves the
  // memory and the results of the lanes run one after another.
  lemma AnySchedule(l: Launch, d: Discipline, schedule: seq<nat>)
    requires Disciplined(l, d) && Complete(l, Execute(l, schedule))
    ensures Execute(l, schedule).mem == Sequential(l, l.count).mem
    ensures Execute(l, schedule).results == Sequential(l, l.count).results
  {
    hide Coherent, Execute, Sequential;
    SequentialIsSchedule(l, l.count);
    ExecuteCoherent(l, d, schedule);
    ExecuteCoherent(l, d, InOrder(l, l.count));
    CompleteAgree(l, d, Execute(l, schedule), Execute(l, InOrder(l, l.count)));
  }

  // What the first k lanes add to entry e, each run alone.
  function Total(l: Launch, e: nat, k: nat): int
    requires l.Valid() && k <= l.count
  {
    if k == 0 then 0 else Total(l, e, k - 1) + Contribution(l, e, k - 1, |l.code|)
  }

  lemma {:induction false} CompleteTotal(l: Launch, e: nat, threads: seq<Thread>, k: nat)
    requires l.Valid() && k <= |threads| == l.count
    requires forall t :: 0 <= t < l.count ==> threads[t].pc == |l.code|
    ensures Contributions(l, e, threads, k) == Total(l, e, k)
  {
    hide Contribution;
    if k > 0 {
      CompleteTotal(l, e, threads, k - 1);
    }
  }

  lemma OwnEntryOf(l: Launch, d: Discipline, g: Grid, e: nat)
    requires Fitting(l, g) && Coherent(l, d, g) && d.entry == Some(e) && e < |l.results|
    ensures WordAt(g.results, e) == Wrap(WordAt(l.results, e) + Contributions(l, e, g.threads, l.count))
  {
    hide Solo, MemAt, Contributions, Wrap, WordAt, Owned;
  }

  // Whatever the order the adds are performed in, the own entry ends with
  // its initial word plus the sum of what each lane contributes alone.
  lemma ReductionTotal(l: Launch, d: Discipline, schedule: seq<nat>, e: nat)
    requires Disciplined(l, d) && Complete(l, Execute(l, schedule)) && d.entry == Some(e) && e < |l.results|
    ensures WordAt(Execute(l, schedule).results, e) == Wrap(WordAt(l.results, e) + Total(l, e, l.count))
  {
    hide Execute, Coherent, Contributions, Total, Wrap, WordAt, Disciplined;
    ExecuteCoherent(l, d, schedule);
    OwnEntryOf(l, d, Execute(l, schedule), e);
    CompleteTotal(l, e, Execute(l, schedule).threads, l.count);
  }

  // Buffers no lane writes and entries the kernel does not own are as before.
  lemma UntouchedState(l: Launch, d: Discipline, schedule: seq<nat>, b: nat, e: nat)
    requires Disciplined(l, d)
    ensures var g := Execute(l, schedule);
      && Hir.SameShape(l.mem, g.mem) && |g.results| == |l.results|
      && (b !in d.written && b < |l.mem| ==> g.mem[b] == l.mem[b])
      && (d.entry != Some(e) ==> WordAt(g.results, e) == WordAt(l.results, e))
  {
    hide Execute, Disciplined, Solo, Contributions;
    ExecuteCoherent(l, d, schedule);
    var g := Execute(l, schedule);
    if b !in d.written && b < |l.mem| {
      forall x | 0 <= x < |l.mem[b]| ensures g.mem[b][x] == l.mem[b][x] {
        assert MemAt(g.mem, b, x) == MemAt(l.mem, b, x);
      }
    }
  }
}
