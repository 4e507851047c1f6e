// Every interleaving of clients and the destructor of one context.  Threads
// hold claims, shell references and session payloads; each step is one
// mutex-held section, or one effect outside the mutex.

module Lifetime {
  import opened Context
  import opened Words

  // asleep: waiting on the condition variable, not yet woken.
  datatype Mode = Running | Waiting(session: Sid, asleep: bool)

  // payloads are those of sessions this thread unlinked and must destroy.
  datatype Thread = Thread(claims: nat, refs: nat, payloads: set<Sid>, mode: Mode)

  // Where the destructor is.
  datatype Phase =
    | Open
    | Draining(asleep: bool)
    | Sweeping
    | Orphaning(orphan: Sid)
    | Releasing
    | Released
    | Published
    | Closed

  // resources: the registry payloads and the backend state exist.
  // shell: the context's memory and mutex exist.
  datatype System = System(
    ctx: State, phase: Phase, threads: seq<Thread>, resources: bool, shell: bool,
    known: set<Sid>, destroyed: multiset<Sid>, aborted: bool)

  datatype Action =
    | Begin(t: nat)
    | End(t: nat)
    | LinkSession(t: nat, s: Sid)
    | UnlinkSession(t: nat, s: Sid)
    | DestroyPayload(t: nat, s: Sid)
    | EnterCleanup(t: nat, s: Sid)
    | ResumeCleanup(t: nat)
    | SpuriousWake(t: nat)
    | RetainShell(t: nat)
    | ReleaseShell(t: nat)
    | AttachOwner
    | DetachOwner
    | DestroyStart
    | DestroyResume
    | DestroySpurious
    | DestroyOrphan
    | DestroyResources
    | DestroyPublish
    | OwnerRelease

  function Start(n: nat): System {
    System(State(false, false, false, false, 0, 1, []), Open, seq(n, _ => Thread(0, 0, {}, Running)),
           true, true, {}, multiset{}, false)
  }

  predicate OwnerHolds(p: Phase) { !p.Closed? }

  // ------------------------------------------------------------------
  // Which steps a client may take
  // ------------------------------------------------------------------

  // A thread may touch the context while it holds a reference or the owner
  // still does; ends only claims it holds, with their payloads destroyed;
  // links a session once; unlinks under a claim; and releases each reference
  // once.
  predicate Enabled(sys: System, a: Action) {
    !sys.aborted &&
    match a
    case Begin(t) => Ready(sys, t) && Reaches(sys, t)
    case End(t) => Ready(sys, t) && sys.threads[t].claims > 0 && (sys.threads[t].claims > 1 || sys.threads[t].payloads == {})
    case LinkSession(t, s) => Ready(sys, t) && sys.threads[t].claims > 0 && s !in sys.known
    case UnlinkSession(t, s) => Ready(sys, t) && sys.threads[t].claims > 0 && s in sys.ctx.live
    case DestroyPayload(t, s) => Ready(sys, t) && s in sys.threads[t].payloads
    case EnterCleanup(t, s) => Ready(sys, t) && sys.threads[t].refs > 0
    case ResumeCleanup(t) => t < |sys.threads| && sys.threads[t].mode.Waiting? && !sys.threads[t].mode.asleep
    case SpuriousWake(t) => t < |sys.threads| && sys.threads[t].mode.Waiting? && sys.threads[t].mode.asleep
    case RetainShell(t) => Ready(sys, t) && Reaches(sys, t)
    case ReleaseShell(t) => Ready(sys, t) && sys.threads[t].refs > 0
    case AttachOwner => sys.phase.Open? && !sys.ctx.attached && !sys.ctx.shuttingDown
    case DetachOwner => sys.phase.Open? && sys.ctx.attached
    case DestroyStart => sys.phase.Open? && !sys.ctx.attached
    case DestroyResume => (sys.phase.Draining? && !sys.phase.asleep) || sys.phase.Sweeping?
    case DestroySpurious => sys.phase.Draining? && sys.phase.asleep
    case DestroyOrphan => sys.phase.Orphaning?
    case DestroyResources => sys.phase.Releasing?
    case DestroyPublish => sys.phase.Released?
    case OwnerRelease => sys.phase.Published?
  }

  predicate Ready(sys: System, t: nat) { t < |sys.threads| && sys.threads[t].mode.Running? }

  predicate Reaches(sys: System, t: nat)
    requires t < |sys.threads|
  {
    sys.threads[t].refs > 0 || OwnerHolds(sys.phase)
  }

  // ------------------------------------------------------------------
  // What a step does
  // ------------------------------------------------------------------

  function WokenMode(m: Mode): Mode { if m.Waiting? then m.(asleep := false) else m }

  function WokenThreads(threads: seq<Thread>): (r: seq<Thread>)
    ensures |r| == |threads|
    ensures forall t :: 0 <= t < |threads| ==> r[t] == threads[t].(mode := WokenMode(threads[t].mode))
  {
    seq(|threads|, (t: nat) requires t < |threads| => threads[t].(mode := WokenMode(threads[t].mode)))
  }

  function WokenPhase(p: Phase): Phase { if p.Draining? then Draining(false) else p }

  function WakeAll(sys: System): System {
    sys.(threads := WokenThreads(sys.threads), phase := WokenPhase(sys.phase))
  }

  function With(sys: System, t: nat, thread: Thread): System
    requires t < |sys.threads|
  {
    sys.(threads := sys.threads[t := thread])
  }

  function Crash(sys: System): System { sys.(aborted := true) }

  // The destructor with the mutex held after the drain: it takes the head of
  // the list, or goes on to the resources when the list is empty.
  function Sweep(sys: System): System {
    if sys.ctx.live == [] then sys.(phase := Releasing)
    else
      var s := sys.ctx.live[0];
      WakeAll(sys.(ctx := Unlink(sys.ctx, s), phase := Orphaning(s)))
  }

  // Drains, then sweeps within the same section.
  function DrainOrSweep(sys: System): System {
    if sys.phase.Draining? && sys.ctx.active != 0 then sys.(phase := Draining(true)) else Sweep(sys)
  }

  function CleanupStep(sys: System, t: nat, s: Sid): System
    requires t < |sys.threads|
  {
    var th := sys.threads[t];
    match BeginCleanup(sys.ctx, s)
    case Wait => With(sys, t, th.(mode := Waiting(s, true)))
    case Claimed(c) => With(sys.(ctx := c), t, th.(claims := th.claims + 1, mode := Running))
    case Refused => With(sys, t, th.(mode := Running))
    case CleanupAbort => Crash(sys)
  }

  function Freed(sys: System, c: State): System { sys.(ctx := c, shell := sys.shell && c.refs != 0) }

  function Step(sys: System, a: Action): System
    requires Enabled(sys, a)
  {
    match a
    case Begin(t) =>
      var th := sys.threads[t];
      With(sys.(ctx := BeginOperation(sys.ctx)), t, if ClaimOpen(sys.ctx) then th.(claims := th.claims + 1) else th)
    case End(t) =>
      (match EndOperation(sys.ctx)
       case Abort => Crash(sys)
       case Done(c) =>
         var after := With(sys.(ctx := c), t, sys.threads[t].(claims := sys.threads[t].claims - 1));
         if c.active == 0 then WakeAll(after) else after)
    case LinkSession(t, s) => sys.(ctx := Link(sys.ctx, s), known := sys.known + {s})
    case UnlinkSession(t, s) =>
      With(sys.(ctx := Unlink(sys.ctx, s)), t, sys.threads[t].(payloads := sys.threads[t].payloads + {s}))
    case DestroyPayload(t, s) =>
      With(sys.(destroyed := sys.destroyed + multiset{s}), t, sys.threads[t].(payloads := sys.threads[t].payloads - {s}))
    case EnterCleanup(t, s) => CleanupStep(sys, t, s)
    case ResumeCleanup(t) => CleanupStep(sys, t, sys.threads[t].mode.session)
    case SpuriousWake(t) => With(sys, t, sys.threads[t].(mode := WokenMode(sys.threads[t].mode)))
    case RetainShell(t) =>
      var th := sys.threads[t];
      With(sys.(ctx := Retain(sys.ctx)), t, if RetainOpen(sys.ctx) then th.(refs := th.refs + 1) else th)
    case ReleaseShell(t) =>
      (match Release(sys.ctx)
       case Abort => Crash(sys)
       case Done(c) => With(Freed(sys, c), t, sys.threads[t].(refs := sys.threads[t].refs - 1)))
    case AttachOwner => (match Attach(sys.ctx) case Abort => Crash(sys) case Done(c) => sys.(ctx := c))
    case DetachOwner => (match Detach(sys.ctx) case Abort => Crash(sys) case Done(c) => sys.(ctx := c))
    case DestroyStart =>
      (match CloseGate(sys.ctx)
       case Abort => Crash(sys)
       case Done(c) => DrainOrSweep(sys.(ctx := c, phase := Draining(false))))
    case DestroyResume => DrainOrSweep(sys)
    case DestroySpurious => sys.(phase := Draining(false))
    case DestroyOrphan => sys.(destroyed := sys.destroyed + multiset{sys.phase.orphan}, phase := Sweeping)
    case DestroyResources => sys.(resources := false, phase := Released)
    case DestroyPublish => sys.(ctx := PublishTeardown(sys.ctx), phase := Published)
    case OwnerRelease =>
      (match Release(sys.ctx)
       case Abort => Crash(sys)
       case Done(c) => Freed(sys, c).(phase := Closed))
  }

  // A run: the steps taken from a fresh context, each enabled when taken.
  function Run(n: nat, actions: seq<Action>): Option<System>
    decreases |actions|
  {
    if actions == [] then Some(Start(n))
    else
      match Run(n, actions[..|actions| - 1])
      case None => None
      case Some(sys) => if Enabled(sys, actions[|actions| - 1]) then Some(Step(sys, actions[|actions| - 1])) else None
  }

  // ------------------------------------------------------------------
  // The invariant of every run
  // ------------------------------------------------------------------

  function Claims(threads: seq<Thread>): nat {
    if threads == [] then 0 else Claims(threads[..|threads| - 1]) + threads[|threads| - 1].claims
  }

  function Refs(threads: seq<Thread>): nat {
    if threads == [] then 0 else Refs(threads[..|threads| - 1]) + threads[|threads| - 1].refs
  }

  // Counters equal what is held.
  ghost predicate Counted(sys: System) {
    && sys.ctx.active == Claims(sys.threads) <= UINT32_MAX
    && sys.ctx.refs == Refs(sys.threads) + (if OwnerHolds(sys.phase) then 1 else 0)
    && sys.ctx.refs <= UINT32_MAX
    && (sys.shell <==> sys.ctx.refs != 0)
  }

  // The flags say where the destructor is.
  predicate Staged(sys: System) {
    && (sys.ctx.destroying <==> !sys.phase.Open?)
    && (sys.ctx.attached ==> sys.phase.Open? && !sys.ctx.shuttingDown)
    && (sys.ctx.destroying ==> sys.ctx.shuttingDown)
    && (sys.ctx.resourcesDestroyed <==> sys.phase.Published? || sys.phase.Closed?)
    && (!(sys.phase.Open? || sys.phase.Draining?) ==> sys.ctx.active == 0)
    && (sys.resources <==> !(sys.phase.Released? || sys.phase.Published? || sys.phase.Closed?))
    && (sys.phase.Releasing? || !sys.resources ==> sys.ctx.live == [])
  }

  // Where the payload of session s is.
  predicate Held(sys: System, t: nat, s: Sid) { t < |sys.threads| && s in sys.threads[t].payloads }

  predicate Orphaned(sys: System, s: Sid) { sys.phase.Orphaning? && sys.phase.orphan == s }

  // Every session ever linked is in exactly one place: linked, in the hands
  // of one thread, in the hands of the destructor, or destroyed once.
  ghost predicate Placed(sys: System, s: Sid) {
    && (s in sys.ctx.live ==> !Orphaned(sys, s) && sys.destroyed[s] == 0 && forall t :: !Held(sys, t, s))
    && (Orphaned(sys, s) ==> sys.destroyed[s] == 0 && forall t :: !Held(sys, t, s))
    && (forall t, u :: Held(sys, t, s) && Held(sys, u, s) ==> t == u)
    && (forall t :: Held(sys, t, s) ==> sys.destroyed[s] == 0)
    && sys.destroyed[s] <= 1
    && (s in sys.known <==>
         s in sys.ctx.live || Orphaned(sys, s) || sys.destroyed[s] == 1 || exists t :: Held(sys, t, s))
  }

  // A sleeper has something that will wake it, and a waiter keeps the shell.
  predicate Waking(sys: System) {
    && (sys.phase.Draining? && sys.phase.asleep ==> sys.ctx.active != 0)
    && forall t :: 0 <= t < |sys.threads| ==>
         var th := sys.threads[t];
         && (th.mode.Waiting? ==> th.refs > 0)
         && (th.mode.Waiting? && th.mode.asleep ==>
              sys.ctx.destroying && (th.mode.session in sys.ctx.live || sys.ctx.active != 0))
         && (th.payloads != {} ==> th.claims > 0)
  }

  ghost predicate Inv(sys: System) {
    && Counted(sys) && Staged(sys) && Waking(sys) && NoDuplicates(sys.ctx.live)
    && forall s: Sid :: Placed(sys, s)
  }

  lemma {:induction false} SumsAtStart(n: nat)
    ensures Claims(Start(n).threads) == 0 && Refs(Start(n).threads) == 0
  {
    if n > 0 {
      assert Start(n).threads[..n - 1] == Start(n - 1).threads;
      SumsAtStart(n - 1);
    }
  }

  lemma {:induction false} SumsUpdate(threads: seq<Thread>, t: nat, th: Thread)
    requires t < |threads|
    ensures Claims(threads[t := th]) == Claims(threads) - threads[t].claims + th.claims
    ensures Refs(threads[t := th]) == Refs(threads) - threads[t].refs + th.refs
  {
    var n := |threads| - 1;
    if t < n {
      assert threads[t := th][..n] == threads[..n][t := th];
      SumsUpdate(threads[..n], t, th);
    } else {
      assert threads[t := th][..n] == threads[..n];
    }
  }

  lemma {:induction false} SumsBound(threads: seq<Thread>, t: nat)
    requires t < |threads|
    ensures threads[t].claims <= Claims(threads) && threads[t].refs <= Refs(threads)
  {
    var n := |threads| - 1;
    if t < n {
      SumsBound(threads[..n], t);
    }
  }

  lemma {:induction false} SumsWoken(threads: seq<Thread>)
    ensures Claims(WokenThreads(threads)) == Claims(threads) && Refs(WokenThreads(threads)) == Refs(threads)
  {
    if threads != [] {
      var n := |threads| - 1;
      assert WokenThreads(threads)[..n] == WokenThreads(threads[..n]);
      SumsWoken(threads[..n]);
    }
  }

  // ------------------------------------------------------------------
  // Every step keeps the invariant
  // ------------------------------------------------------------------

  ghost predicate SameInventory(a: System, b: System) {
    && a.ctx.live == b.ctx.live && a.known == b.known && a.destroyed == b.destroyed
    && |a.threads| == |b.threads|
    && (forall t :: 0 <= t < |a.threads| ==> a.threads[t].payloads == b.threads[t].payloads)
    && (forall s: Sid :: Orphaned(a, s) <==> Orphaned(b, s))
  }

  lemma InventoryKept(a: System, b: System)
    requires SameInventory(a, b) && forall s: Sid :: Placed(a, s)
    ensures forall s: Sid :: Placed(b, s)
  {
    forall s: Sid ensures Placed(b, s) {
      assert Placed(a, s);
      assert forall t: nat :: Held(a, t, s) <==> Held(b, t, s);
    }
  }

  lemma BeginInv(sys: System, t: nat)
    requires Inv(sys) && Enabled(sys, Begin(t))
    ensures Inv(Step(sys, Begin(t)))
  {
    var next := Step(sys, Begin(t));
    SumsUpdate(sys.threads, t, next.threads[t]);
    InventoryKept(sys, next);
  }

  lemma WakeKeeps(sys: System)
    requires Counted(sys) && Staged(sys)
    ensures var next := WakeAll(sys); Counted(next) && Staged(next) && SameInventory(sys, next)
  {
    SumsWoken(sys.threads);
    hide Claims, Refs;
  }

  lemma EndCounts(sys: System, t: nat)
    requires Counted(sys) && Staged(sys) && Enabled(sys, End(t))
    ensures var next := Step(sys, End(t)); Counted(next) && Staged(next) && SameInventory(sys, next) && !next.aborted
  {
    hide Claims, Refs, WakeAll;
    var th := sys.threads[t].(claims := sys.threads[t].claims - 1);
    SumsBound(sys.threads, t);
    SumsUpdate(sys.threads, t, th);
    var after := With(sys.(ctx := sys.ctx.(active := sys.ctx.active - 1)), t, th);
    assert Counted(after) && Staged(after) && SameInventory(sys, after);
    WakeKeeps(after);
    WakeNoAbort(after);
  }

  lemma WakeNoAbort(sys: System)
    ensures WakeAll(sys).aborted == sys.aborted
  {
  }

  lemma EndWakes(sys: System, t: nat)
    requires Waking(sys) && Enabled(sys, End(t)) && sys.ctx.active > 0
    ensures Waking(Step(sys, End(t))) && Step(sys, End(t)).ctx.live == sys.ctx.live
  {
  }

  lemma EndInv(sys: System, t: nat)
    requires Inv(sys) && Enabled(sys, End(t))
    ensures Inv(Step(sys, End(t))) && !Step(sys, End(t)).aborted
  {
    hide Placed, Claims, Refs, Step;
    SumsBound(sys.threads, t);
    EndCounts(sys, t);
    EndWakes(sys, t);
    InventoryKept(sys, Step(sys, End(t)));
  }

  lemma LinkInv(sys: System, t: nat, s: Sid)
    requires Inv(sys) && Enabled(sys, LinkSession(t, s))
    ensures Inv(Step(sys, LinkSession(t, s)))
  {
    hide Claims, Refs;
    var next := Step(sys, LinkSession(t, s));
    SumsBound(sys.threads, t);
    assert Placed(sys, s);
    forall x: Sid ensures Placed(next, x) {
      assert Placed(sys, x);
      assert forall u: nat :: Held(sys, u, x) <==> Held(next, u, x);
    }
  }

  // A thread's payloads changed by at most session s.
  lemma HeldChange(a: System, b: System, t: nat, s: Sid, x: Sid)
    requires t < |a.threads| == |b.threads|
    requires forall u :: 0 <= u < |a.threads| && u != t ==> b.threads[u] == a.threads[u]
    requires x != s ==> (x in b.threads[t].payloads <==> x in a.threads[t].payloads)
    ensures forall u: nat :: u != t || x != s ==> (Held(b, u, x) <==> Held(a, u, x))
  {
  }

  lemma UnlinkInv(sys: System, t: nat, s: Sid)
    requires Inv(sys) && Enabled(sys, UnlinkSession(t, s))
    ensures Inv(Step(sys, UnlinkSession(t, s)))
  {
    var next := Step(sys, UnlinkSession(t, s));
    SumsBound(sys.threads, t);
    SumsUpdate(sys.threads, t, next.threads[t]);
    hide Claims, Refs;
    WithoutMembers(sys.ctx.live, s);
    hide Without;
    assert Placed(sys, s);
    forall x: Sid ensures Placed(next, x) {
      assert Placed(sys, x);
      HeldChange(sys, next, t, s, x);
      assert x == s ==> Held(next, t, s);
    }
  }

  lemma DestroyPayloadInv(sys: System, t: nat, s: Sid)
    requires Inv(sys) && Enabled(sys, DestroyPayload(t, s))
    ensures Inv(Step(sys, DestroyPayload(t, s)))
  {
    var next := Step(sys, DestroyPayload(t, s));
    SumsUpdate(sys.threads, t, next.threads[t]);
    hide Claims, Refs;
    assert Held(sys, t, s) && Placed(sys, s);
    forall x: Sid ensures Placed(next, x) {
      assert Placed(sys, x);
      HeldChange(sys, next, t, s, x);
      assert x == s ==> !Held(next, t, s);
      if u: nat :| x != s && Held(sys, u, x) {
        assert Held(next, u, x);
      }
    }
  }

  // A change to one thread and to the active count alone.
  lemma ThreadInv(sys: System, t: nat, th: Thread, active: nat)
    requires Inv(sys) && t < |sys.threads|
    requires th.payloads == sys.threads[t].payloads && th.refs == sys.threads[t].refs
    requires sys.threads[t].claims <= th.claims && active == sys.ctx.active - sys.threads[t].claims + th.claims <= UINT32_MAX
    requires th.claims > sys.threads[t].claims ==> sys.phase.Open?
    requires th.mode.Waiting? ==> th.refs > 0
    requires th.mode.Waiting? && th.mode.asleep ==> sys.ctx.destroying && (th.mode.session in sys.ctx.live || active != 0)
    ensures Inv(With(sys.(ctx := sys.ctx.(active := active)), t, th))
  {
    var next := With(sys.(ctx := sys.ctx.(active := active)), t, th);
    SumsUpdate(sys.threads, t, th);
    hide Claims, Refs;
    InventoryKept(sys, next);
  }

  lemma CleanupInv(sys: System, t: nat, s: Sid)
    requires Inv(sys) && t < |sys.threads| && sys.threads[t].refs > 0
    ensures Inv(CleanupStep(sys, t, s))
  {
    var th := sys.threads[t];
    match BeginCleanup(sys.ctx, s)
    case Wait => ThreadInv(sys, t, th.(mode := Waiting(s, true)), sys.ctx.active);
    case Claimed(c) => ThreadInv(sys, t, th.(claims := th.claims + 1, mode := Running), c.active);
    case Refused => ThreadInv(sys, t, th.(mode := Running), sys.ctx.active);
    case CleanupAbort => InventoryKept(sys, Crash(sys));
  }

  lemma SpuriousInv(sys: System, t: nat)
    requires Inv(sys) && Enabled(sys, SpuriousWake(t))
    ensures Inv(Step(sys, SpuriousWake(t)))
  {
    var next := Step(sys, SpuriousWake(t));
    SumsUpdate(sys.threads, t, next.threads[t]);
    hide Claims, Refs;
    InventoryKept(sys, next);
  }

  lemma RetainInv(sys: System, t: nat)
    requires Inv(sys) && Enabled(sys, RetainShell(t))
    ensures Inv(Step(sys, RetainShell(t)))
  {
    var next := Step(sys, RetainShell(t));
    SumsUpdate(sys.threads, t, next.threads[t]);
    hide Claims, Refs;
    InventoryKept(sys, next);
  }

  lemma ReleaseInv(sys: System, t: nat)
    requires Inv(sys) && Enabled(sys, ReleaseShell(t))
    ensures Inv(Step(sys, ReleaseShell(t))) && !Step(sys, ReleaseShell(t)).aborted
  {
    hide Claims, Refs, Placed;
    var next := Step(sys, ReleaseShell(t));
    SumsBound(sys.threads, t);
    SumsUpdate(sys.threads, t, sys.threads[t].(refs := sys.threads[t].refs - 1));
    InventoryKept(sys, next);
  }

  // A change of flags and phase that moves no session.
  lemma StageInv(sys: System, next: System)
    requires Inv(sys) && SameInventory(sys, next) && sys.threads == next.threads
    requires next.ctx.active == sys.ctx.active && next.ctx.refs == sys.ctx.refs && next.shell == sys.shell
    requires OwnerHolds(next.phase) && OwnerHolds(sys.phase)
    requires Staged(next) && (sys.ctx.destroying ==> next.ctx.destroying)
    requires next.phase.Draining? && next.phase.asleep ==> next.ctx.active != 0
    ensures Inv(next)
  {
    hide Claims, Refs, Placed;
    InventoryKept(sys, next);
  }

  lemma SweepInv(sys: System)
    requires Inv(sys) && (sys.phase.Sweeping? || (sys.phase.Draining? && sys.ctx.active == 0))
    ensures Inv(Sweep(sys))
  {
    if sys.ctx.live == [] {
      StageInv(sys, Sweep(sys));
    } else {
      var s := sys.ctx.live[0];
      var next := Sweep(sys);
      SumsWoken(sys.threads);
      hide Claims, Refs;
      WithoutMembers(sys.ctx.live, s);
      hide Without;
      forall x: Sid ensures Placed(next, x) {
        assert Placed(sys, x);
        assert forall u: nat :: Held(sys, u, x) <==> Held(next, u, x);
      }
    }
  }

  lemma DrainOrSweepInv(sys: System)
    requires Inv(sys) && (sys.phase.Sweeping? || sys.phase.Draining?)
    ensures Inv(DrainOrSweep(sys))
  {
    if sys.phase.Draining? && sys.ctx.active != 0 {
      StageInv(sys, sys.(phase := Draining(true)));
    } else {
      SweepInv(sys);
    }
  }

  lemma OrphanInv(sys: System)
    requires Inv(sys) && Enabled(sys, DestroyOrphan)
    ensures Inv(Step(sys, DestroyOrphan))
  {
    var next := Step(sys, DestroyOrphan);
    hide Claims, Refs;
    forall x: Sid ensures Placed(next, x) {
      assert Placed(sys, x);
      assert forall u: nat :: Held(sys, u, x) <==> Held(next, u, x);
    }
  }

  lemma OwnerReleaseInv(sys: System)
    requires Inv(sys) && Enabled(sys, OwnerRelease)
    ensures Inv(Step(sys, OwnerRelease)) && !Step(sys, OwnerRelease).aborted
  {
    hide Claims, Refs;
    InventoryKept(sys, Step(sys, OwnerRelease));
  }

  lemma OwnerInv(sys: System, a: Action)
    requires Inv(sys) && Enabled(sys, a)
    requires a.AttachOwner? || a.DetachOwner? || a.DestroyStart? || a.DestroySpurious? || a.DestroyResources? || a.DestroyPublish?
    ensures Inv(Step(sys, a)) && !Step(sys, a).aborted
  {
    hide Claims, Refs, Placed;
    if a.DestroyStart? {
      var c := CloseGate(sys.ctx).state;
      var gated := sys.(ctx := c, phase := Draining(false));
      StageInv(sys, gated);
      DrainOrSweepInv(gated);
    } else {
      StageInv(sys, Step(sys, a));
    }
  }

  // Every step from a state satisfying the invariant keeps it, and the
  // process stops only when a session finalizer meets a full claim counter.
  lemma StepInv(sys: System, a: Action)
    requires Inv(sys) && Enabled(sys, a)
    ensures Inv(Step(sys, a))
  {
    hide Inv, CleanupStep, WakeAll, Sweep, Claims, Refs;
    match a
    case Begin(t) => BeginInv(sys, t);
    case End(t) => EndInv(sys, t);
    case LinkSession(t, s) => LinkInv(sys, t, s);
    case UnlinkSession(t, s) => UnlinkInv(sys, t, s);
    case DestroyPayload(t, s) => DestroyPayloadInv(sys, t, s);
    case EnterCleanup(t, s) => CleanupInv(sys, t, s);
    case ResumeCleanup(t) => WaiterRefs(sys, t); CleanupInv(sys, t, sys.threads[t].mode.session);
    case SpuriousWake(t) => SpuriousInv(sys, t);
    case RetainShell(t) => RetainInv(sys, t);
    case ReleaseShell(t) => ReleaseInv(sys, t);
    case DestroyResume => DrainOrSweepInv(sys);
    case DestroyOrphan => OrphanInv(sys);
    case OwnerRelease => OwnerReleaseInv(sys);
    case _ => OwnerInv(sys, a);
  }

  lemma WaiterRefs(sys: System, t: nat)
    requires Inv(sys) && t < |sys.threads| && sys.threads[t].mode.Waiting?
    ensures sys.threads[t].refs > 0
  {
  }

  lemma StartInv(n: nat)
    ensures Inv(Start(n))
  {
    SumsAtStart(n);
  }

  lemma {:induction false} RunInv(n: nat, actions: seq<Action>)
    requires Run(n, actions).Some?
    ensures Inv(Run(n, actions).value)
    decreases |actions|
  {
    hide Inv, Step, Enabled;
    if actions == [] {
      StartInv(n);
    } else {
      RunInv(n, actions[..|actions| - 1]);
      StepInv(Run(n, actions[..|actions| - 1]).value, actions[|actions| - 1]);
    }
  }

  // ------------------------------------------------------------------
  // What every run guarantees
  // ------------------------------------------------------------------

  // While any thread holds a claim, the registry payloads and the backend
  // state exist.
  lemma ClaimSafety(n: nat, actions: seq<Action>, t: nat)
    requires Run(n, actions).Some?
    requires t < |Run(n, actions).value.threads| && Run(n, actions).value.threads[t].claims > 0
    ensures Run(n, actions).value.resources && Run(n, actions).value.shell
  {
    hide Run, Claims, Refs, Placed;
    RunInv(n, actions);
    SumsBound(Run(n, actions).value.threads, t);
  }

  // A claim is granted to any thread, whatever the others hold, exactly
  // while the context is attached, not shutting down and below the counter's
  // limit; an attached context can be entered by every running thread.
  lemma ClaimGranted(n: nat, actions: seq<Action>, t: nat)
    requires Run(n, actions).Some? && !Run(n, actions).value.aborted && Ready(Run(n, actions).value, t)
    ensures var sys := Run(n, actions).value;
      && (sys.ctx.attached ==> Enabled(sys, Begin(t)) && !sys.ctx.shuttingDown)
      && (Enabled(sys, Begin(t)) ==>
           var (next, granted) := (Step(sys, Begin(t)), sys.ctx.attached && !sys.ctx.shuttingDown && sys.ctx.active < 0xFFFF_FFFF);
           && next.threads[t].claims == sys.threads[t].claims + (if granted then 1 else 0)
           && next.ctx.active == sys.ctx.active + (if granted then 1 else 0)
           && forall u :: 0 <= u < |sys.threads| && u != t ==> next.threads[u] == sys.threads[u])
  {
    hide Run, Claims, Refs, Placed;
    RunInv(n, actions);
  }

  // A reference is granted exactly before destruction and below the
  // counter's limit: whoever may ask for one already keeps the shell alive.
  lemma ReferenceGranted(n: nat, actions: seq<Action>, t: nat)
    requires Run(n, actions).Some? && Enabled(Run(n, actions).value, RetainShell(t))
    ensures var (sys, next) := (Run(n, actions).value, Step(Run(n, actions).value, RetainShell(t)));
      var granted := !sys.ctx.destroying && sys.ctx.refs < 0xFFFF_FFFF;
      && next.threads[t].refs == sys.threads[t].refs + (if granted then 1 else 0)
      && next.ctx.refs == sys.ctx.refs + (if granted then 1 else 0)
  {
    hide Run, Claims, Refs, Placed;
    RunInv(n, actions);
    SumsBound(Run(n, actions).value.threads, t);
  }

  // A finalizer that enters cleanup sleeps exactly while the destructor owns
  // its linked session, claims it exactly before destruction, and leaves
  // empty-handed exactly when it is not linked.
  lemma CleanupGranted(n: nat, actions: seq<Action>, t: nat, s: Sid)
    requires Run(n, actions).Some? && Enabled(Run(n, actions).value, EnterCleanup(t, s))
    ensures var (sys, next) := (Run(n, actions).value, Step(Run(n, actions).value, EnterCleanup(t, s)));
      var linked := s in sys.ctx.live;
      && (next.aborted <==> linked && !sys.ctx.destroying && sys.ctx.active == 0xFFFF_FFFF)
      && (next.threads[t].mode == Waiting(s, true) <==> linked && sys.ctx.destroying)
      && next.threads[t].claims == sys.threads[t].claims + (if linked && !sys.ctx.destroying && !next.aborted then 1 else 0)
      && next.ctx.active == sys.ctx.active + next.threads[t].claims - sys.threads[t].claims
  {
    hide Run, Claims, Refs, Placed;
    RunInv(n, actions);
  }

  lemma GateShut(sys: System)
    requires Inv(sys) && sys.ctx.destroying
    ensures sys.ctx.shuttingDown
  {
    hide Counted, Placed, Waking;
  }

  // The gate stays shut, and nobody gains a claim or a reference.
  predicate GrantsNothing(sys: System, next: System) {
    && next.ctx.destroying && next.ctx.active <= sys.ctx.active && |next.threads| == |sys.threads|
    && (forall t :: 0 <= t < |sys.threads| ==>
         next.threads[t].claims <= sys.threads[t].claims && next.threads[t].refs <= sys.threads[t].refs)
  }

  lemma ThreadGrantsNothing(sys: System, c: State, t: nat, th: Thread)
    requires sys.ctx.destroying && c.destroying && c.active <= sys.ctx.active && t < |sys.threads|
    requires th.claims <= sys.threads[t].claims && th.refs <= sys.threads[t].refs
    ensures GrantsNothing(sys, With(sys.(ctx := c), t, th))
  {
  }

  lemma WakingGrantsNothing(sys: System, next: System)
    requires GrantsNothing(sys, next)
    ensures GrantsNothing(sys, WakeAll(next))
  {
  }

  lemma CleanupGrantsNothing(sys: System, t: nat, s: Sid)
    requires sys.ctx.destroying && t < |sys.threads|
    ensures GrantsNothing(sys, CleanupStep(sys, t, s))
  {
    hide GrantsNothing;
    var th := sys.threads[t];
    ThreadGrantsNothing(sys, sys.ctx, t, th.(mode := Waiting(s, true)));
    ThreadGrantsNothing(sys, sys.ctx, t, th.(mode := Running));
  }

  lemma SweepGrantsNothing(sys: System)
    requires sys.ctx.destroying
    ensures GrantsNothing(sys, DrainOrSweep(sys))
  {
    hide Without;
    if sys.ctx.live != [] {
      var s := sys.ctx.live[0];
      WakingGrantsNothing(sys, sys.(ctx := Unlink(sys.ctx, s), phase := Orphaning(s)));
    }
  }

  lemma EndGrantsNothing(sys: System, t: nat)
    requires sys.ctx.destroying && sys.ctx.shuttingDown && Enabled(sys, Action.End(t))
    ensures GrantsNothing(sys, Step(sys, Action.End(t)))
  {
    hide GrantsNothing, WakeAll;
    if sys.ctx.active == 0 {
      CrashGrantsNothing(sys);
    } else {
      var c := sys.ctx.(active := sys.ctx.active - 1);
      var th := sys.threads[t].(claims := sys.threads[t].claims - 1);
      ThreadGrantsNothing(sys, c, t, th);
      WakingGrantsNothing(sys, With(sys.(ctx := c), t, th));
    }
  }

  lemma CrashGrantsNothing(sys: System)
    requires sys.ctx.destroying
    ensures GrantsNothing(sys, Crash(sys))
  {
  }

  // The steps of a thread.
  predicate OfThread(a: Action) {
    a.Begin? || a.UnlinkSession? || a.DestroyPayload? || a.SpuriousWake? || a.RetainShell? || a.ReleaseShell?
  }

  lemma ThreadStepGrantsNothing(sys: System, a: Action)
    requires Enabled(sys, a) && OfThread(a) && sys.ctx.destroying && sys.ctx.shuttingDown
    ensures GrantsNothing(sys, Step(sys, a))
  {
    hide Without, CleanupStep, DrainOrSweep, WakeAll, WokenMode;
  }

  lemma GateGrantsNothing(sys: System, a: Action)
    requires Enabled(sys, a) && sys.ctx.destroying && sys.ctx.shuttingDown
    ensures GrantsNothing(sys, Step(sys, a))
  {
    hide Without, CleanupStep, DrainOrSweep, WakeAll, With;
    match a
    case End(t) => EndGrantsNothing(sys, t);
    case EnterCleanup(t, s) => CleanupGrantsNothing(sys, t, s);
    case ResumeCleanup(t) => CleanupGrantsNothing(sys, t, sys.threads[t].mode.session);
    case DestroyResume => SweepGrantsNothing(sys);
    case _ => if OfThread(a) { ThreadStepGrantsNothing(sys, a); }
  }

  // Once `destroying` is set no step grants a claim or retains the shell,
  // whatever the destructor is doing.
  lemma NothingGranted(n: nat, actions: seq<Action>, a: Action)
    requires Run(n, actions).Some? && Enabled(Run(n, actions).value, a)
    requires Run(n, actions).value.ctx.destroying
    ensures GrantsNothing(Run(n, actions).value, Step(Run(n, actions).value, a))
  {
    hide Run, Step, Enabled, Inv, GrantsNothing;
    RunInv(n, actions);
    GateShut(Run(n, actions).value);
    GateGrantsNothing(Run(n, actions).value, a);
  }

  // After the drain no session is added, and each turn of the destructor's
  // loop takes one away.
  lemma ListShrinks(n: nat, actions: seq<Action>, a: Action)
    requires Run(n, actions).Some? && Enabled(Run(n, actions).value, a)
    requires var p := Run(n, actions).value.phase; !p.Open? && !p.Draining?
    ensures var (sys, next) := (Run(n, actions).value, Step(Run(n, actions).value, a));
      && next.known == sys.known
      && (if a.DestroyResume? && sys.ctx.live != [] then |next.ctx.live| == |sys.ctx.live| - 1 else next.ctx.live == sys.ctx.live)
  {
    hide Run, Claims, Refs, Placed, Waking, WakeAll;
    RunInv(n, actions);
    var sys := Run(n, actions).value;
    if a.LinkSession? || a.UnlinkSession? {
      SumsBound(sys.threads, a.t);
    } else if a.DestroyResume? {
      WakeKeepsList(sys);
    }
  }

  lemma WakeKeepsList(sys: System)
    ensures sys.ctx.live != [] ==> Sweep(sys).ctx.live == Without(sys.ctx.live, sys.ctx.live[0]) && Sweep(sys).known == sys.known
    ensures sys.ctx.live != [] ==> sys.ctx.live[0] in sys.ctx.live
  {
  }

  // When the resources go, no session is linked or in anyone's hands, and
  // every session ever linked has been destroyed exactly once; none is ever
  // destroyed twice.
  lemma ExactlyOnceTeardown(n: nat, actions: seq<Action>, s: Sid)
    requires Run(n, actions).Some?
    ensures var sys := Run(n, actions).value;
      && sys.destroyed[s] <= 1
      && (s !in sys.known ==> sys.destroyed[s] == 0)
      && (!sys.resources ==> sys.ctx.live == [] && sys.destroyed[s] == (if s in sys.known then 1 else 0))
  {
    hide Run, Claims, Refs;
    RunInv(n, actions);
    var sys := Run(n, actions).value;
    assert Placed(sys, s);
    if !sys.resources && s in sys.known && sys.destroyed[s] != 1 {
      var t :| Held(sys, t, s);
      SumsBound(sys.threads, t);
    }
  }

  // A payload is destroyed only while the backend state still exists.
  lemma PayloadBeforeBackend(n: nat, actions: seq<Action>, a: Action)
    requires Run(n, actions).Some? && Enabled(Run(n, actions).value, a)
    requires a.DestroyPayload? || a.DestroyOrphan?
    ensures Run(n, actions).value.resources
  {
    hide Run, Claims, Refs, Placed;
    RunInv(n, actions);
    if a.DestroyPayload? {
      SumsBound(Run(n, actions).value.threads, a.t);
    }
  }

  // The reference count is the owner's reference plus the threads'; the
  // shell goes exactly when the count reaches zero, and only after the
  // resources; and no step ever touches a freed shell.
  lemma ShellLifetime(n: nat, actions: seq<Action>)
    requires Run(n, actions).Some?
    ensures var sys := Run(n, actions).value;
      && sys.ctx.refs == Refs(sys.threads) + (if OwnerHolds(sys.phase) then 1 else 0)
      && (sys.shell <==> sys.ctx.refs != 0)
      && (!sys.shell ==> sys.ctx.resourcesDestroyed && !sys.resources)
      && (forall a :: Enabled(sys, a) ==> sys.shell)
  {
    hide Run, Claims, Refs, Placed, Step;
    RunInv(n, actions);
    var sys := Run(n, actions).value;
    forall a | Enabled(sys, a) ensures sys.shell {
      TouchesLiveShell(sys, a);
    }
  }

  lemma TouchesLiveShell(sys: System, a: Action)
    requires Inv(sys) && Enabled(sys, a)
    ensures sys.shell
  {
    hide Claims, Refs, Placed, Step;
    match a
    case Begin(t) => SumsBound(sys.threads, t);
    case End(t) => SumsBound(sys.threads, t);
    case LinkSession(t, _) => SumsBound(sys.threads, t);
    case UnlinkSession(t, _) => SumsBound(sys.threads, t);
    case DestroyPayload(t, _) => SumsBound(sys.threads, t);
    case EnterCleanup(t, _) => SumsBound(sys.threads, t);
    case ResumeCleanup(t) => SumsBound(sys.threads, t);
    case SpuriousWake(t) => SumsBound(sys.threads, t);
    case RetainShell(t) => SumsBound(sys.threads, t);
    case ReleaseShell(t) => SumsBound(sys.threads, t);
    case _ =>
  }

  // The process stops exactly when a session finalizer, before destruction,
  // finds the claim counter full; every other abort branch is unreachable.
  lemma AbortsIff(n: nat, actions: seq<Action>, a: Action)
    requires Run(n, actions).Some? && Enabled(Run(n, actions).value, a)
    ensures var sys := Run(n, actions).value;
      Step(sys, a).aborted <==>
      !sys.ctx.destroying && sys.ctx.active == UINT32_MAX &&
      ((a.EnterCleanup? && a.s in sys.ctx.live) || (a.ResumeCleanup? && sys.threads[a.t].mode.session in sys.ctx.live))
  {
    hide Run, Claims, Refs, Placed;
    RunInv(n, actions);
    var sys := Run(n, actions).value;
    if a.End? {
      SumsBound(sys.threads, a.t);
    } else if a.ReleaseShell? {
      ReleaseInv(sys, a.t);
    }
  }

  // ------------------------------------------------------------------
  // Progress of the destructor
  // ------------------------------------------------------------------

  function Payloads(threads: seq<Thread>): nat {
    if threads == [] then 0 else Payloads(threads[..|threads| - 1]) + |threads[|threads| - 1].payloads|
  }

  function Rank(sys: System): nat {
    match sys.phase
    case Open => 8 + 2 * |sys.ctx.live|
    case Draining(_) => 7 + 2 * |sys.ctx.live|
    case Orphaning(_) => 6 + 2 * |sys.ctx.live|
    case Sweeping => 5 + 2 * |sys.ctx.live|
    case Releasing => 4
    case Released => 3
    case Published => 2
    case Closed => 1
  }

  // How much is left to do before the context is closed.
  function Distance(sys: System): nat { Rank(sys) + sys.ctx.active + Payloads(sys.threads) }

  // The destructor's own steps and those by which a claim holder finishes.
  predicate Finishing(sys: System, a: Action) {
    match a
    case End(t) => true
    case DestroyPayload(_, _) => true
    case ResumeCleanup(t) => t < |sys.threads| && sys.threads[t].claims > 0
    case DestroyResume => true
    case DestroyOrphan => true
    case DestroyResources => true
    case DestroyPublish => true
    case OwnerRelease => true
    case _ => false
  }

  lemma {:induction false} PayloadsUpdate(threads: seq<Thread>, t: nat, th: Thread)
    requires t < |threads|
    ensures Payloads(threads[t := th]) == Payloads(threads) - |threads[t].payloads| + |th.payloads|
  {
    var n := |threads| - 1;
    if t < n {
      assert threads[t := th][..n] == threads[..n][t := th];
      PayloadsUpdate(threads[..n], t, th);
    } else {
      assert threads[t := th][..n] == threads[..n];
    }
  }

  lemma {:induction false} PayloadsWoken(threads: seq<Thread>)
    ensures Payloads(WokenThreads(threads)) == Payloads(threads)
  {
    if threads != [] {
      var n := |threads| - 1;
      assert WokenThreads(threads)[..n] == WokenThreads(threads[..n]);
      PayloadsWoken(threads[..n]);
    }
  }

  lemma {:induction false} SomeHolder(threads: seq<Thread>) returns (t: nat)
    requires Claims(threads) > 0
    ensures t < |threads| && threads[t].claims > 0
  {
    t := |threads| - 1;
    if threads[t].claims == 0 {
      t := SomeHolder(threads[..t]);
    }
  }

  lemma PayloadCloser(sys: System, t: nat, s: Sid)
    requires !sys.aborted && Ready(sys, t) && s in sys.threads[t].payloads
    ensures Enabled(sys, DestroyPayload(t, s)) && Distance(Step(sys, DestroyPayload(t, s))) < Distance(sys)
  {
    hide Payloads, Without;
    var th := sys.threads[t];
    PayloadsUpdate(sys.threads, t, th.(payloads := th.payloads - {s}));
  }

  lemma EndCloser(sys: System, t: nat)
    requires !sys.aborted && Ready(sys, t) && sys.threads[t].claims > 0 && sys.threads[t].payloads == {} && sys.ctx.active > 0
    ensures Enabled(sys, End(t)) && Distance(Step(sys, End(t))) < Distance(sys)
  {
    hide Payloads, Without;
    var th := sys.threads[t].(claims := sys.threads[t].claims - 1);
    PayloadsUpdate(sys.threads, t, th);
    PayloadsWoken(sys.threads[t := th]);
  }

  lemma HeldActive(sys: System, t: nat)
    requires Inv(sys) && t < |sys.threads| && sys.threads[t].claims > 0
    ensures sys.ctx.active > 0
  {
    SumsBound(sys.threads, t);
  }

  // A claim holder that is not waiting can always take a step towards
  // releasing its claim.
  lemma HolderFinishes(sys: System, t: nat) returns (a: Action)
    requires Inv(sys) && !sys.aborted && Ready(sys, t) && sys.threads[t].claims > 0
    ensures Enabled(sys, a) && Finishing(sys, a) && Distance(Step(sys, a)) < Distance(sys)
  {
    hide Inv, Enabled, Distance, Step;
    if s :| s in sys.threads[t].payloads {
      a := DestroyPayload(t, s);
      PayloadCloser(sys, t, s);
    } else {
      a := End(t);
      HeldActive(sys, t);
      EndCloser(sys, t);
    }
  }

  lemma SweepCloser(sys: System)
    requires sys.phase.Sweeping? || (sys.phase.Draining? && sys.ctx.active == 0)
    ensures Distance(DrainOrSweep(sys)) < Distance(sys)
  {
    hide Payloads, Without;
    PayloadsWoken(sys.threads);
    if sys.ctx.live != [] {
      var s := sys.ctx.live[0];
      assert DrainOrSweep(sys).ctx.live == Without(sys.ctx.live, s);
      assert s in sys.ctx.live;
    }
  }

  // Where no claim is held, the destructor's own next step.
  lemma DestructorCloser(sys: System) returns (a: Action)
    requires Inv(sys) && !sys.aborted && !sys.phase.Closed? && !sys.phase.Open? && (sys.phase.Draining? ==> sys.ctx.active == 0)
    ensures Enabled(sys, a) && Finishing(sys, a) && Distance(Step(sys, a)) < Distance(sys)
  {
    hide Placed, Claims, Refs, Payloads, Without;
    match sys.phase
    case Draining(_) => a := DestroyResume; SweepCloser(sys);
    case Sweeping => a := DestroyResume; SweepCloser(sys);
    case Orphaning(_) => a := DestroyOrphan;
    case Releasing => a := DestroyResources;
    case Released => a := DestroyPublish;
    case Published => a := OwnerRelease; OwnerReleaseInv(sys);
  }

  lemma ClaimsCounted(sys: System)
    requires Inv(sys)
    ensures sys.ctx.active == Claims(sys.threads) && (sys.ctx.destroying <==> !sys.phase.Open?)
  {
    hide Claims, Refs, Placed;
  }

  // Once destruction has begun and until the context is closed, if no thread
  // waits in session cleanup while it holds a claim, some step of the
  // destructor or of a claim holder brings the end closer: no state of any
  // run deadlocks.
  lemma DestroyProgress(n: nat, actions: seq<Action>) returns (a: Action)
    requires Run(n, actions).Some? && !Run(n, actions).value.aborted
    requires Run(n, actions).value.ctx.destroying && !Run(n, actions).value.phase.Closed?
    requires forall t :: 0 <= t < |Run(n, actions).value.threads| && Run(n, actions).value.threads[t].mode.Waiting? ==>
      Run(n, actions).value.threads[t].claims == 0
    ensures var sys := Run(n, actions).value;
      Enabled(sys, a) && Finishing(sys, a) && Distance(Step(sys, a)) < Distance(sys)
  {
    hide Run, Inv, Enabled, Finishing, Distance, Step, DrainOrSweep;
    RunInv(n, actions);
    var sys := Run(n, actions).value;
    ClaimsCounted(sys);
    if sys.phase.Draining? && sys.ctx.active != 0 {
      var t := SomeHolder(sys.threads);
      a := HolderFinishes(sys, t);
    } else {
      a := DestructorCloser(sys);
    }
  }

  // Every claim holder sleeps in session cleanup.
  predicate HoldersAsleep(sys: System) {
    forall t :: 0 <= t < |sys.threads| && sys.threads[t].claims > 0 ==>
      sys.threads[t].mode.Waiting? && sys.threads[t].mode.asleep
  }

  // The destructor is stuck, with no finishing step enabled at all, exactly
  // when it sleeps in its drain and every claim holder sleeps in session
  // cleanup.
  lemma BlockedIff(n: nat, actions: seq<Action>)
    requires Run(n, actions).Some? && !Run(n, actions).value.aborted
    requires Run(n, actions).value.ctx.destroying && !Run(n, actions).value.phase.Closed?
    ensures var sys := Run(n, actions).value;
      (forall a :: Finishing(sys, a) ==> !Enabled(sys, a)) <==> sys.phase == Draining(true) && HoldersAsleep(sys)
  {
    hide Run, Placed, Claims, Refs, Step;
    RunInv(n, actions);
    var sys := Run(n, actions).value;
    if forall a :: Finishing(sys, a) ==> !Enabled(sys, a) {
      assert !Enabled(sys, DestroyResume) && !Enabled(sys, DestroyOrphan) && !Enabled(sys, DestroyResources);
      assert !Enabled(sys, DestroyPublish) && !Enabled(sys, OwnerRelease);
      forall t | 0 <= t < |sys.threads| && sys.threads[t].claims > 0
        ensures sys.threads[t].mode.Waiting? && sys.threads[t].mode.asleep
      {
        assert !Enabled(sys, ResumeCleanup(t));
        if sys.threads[t].mode.Running? {
          var a := HolderFinishes(sys, t);
        }
      }
    } else {
      var a :| Finishing(sys, a) && Enabled(sys, a);
      HolderOf(sys, a);
    }
  }

  // A finishing step is the destructor's, or that of a claim holder not asleep.
  lemma HolderOf(sys: System, a: Action)
    requires Inv(sys) && Enabled(sys, a) && Finishing(sys, a)
    ensures !(sys.phase == Draining(true) && HoldersAsleep(sys))
  {
    hide Placed, Claims, Refs;
  }

  // ------------------------------------------------------------------
  // The deadlock
  // ------------------------------------------------------------------

  // The destructor drains while every claim holder waits for a session that
  // only the destructor, or a claim holder, could unlink.
  predicate Deadlocked(sys: System) {
    && sys.phase.Draining? && sys.ctx.active != 0
    && forall t :: 0 <= t < |sys.threads| && sys.threads[t].claims > 0 ==>
         sys.threads[t].mode.Waiting? && sys.threads[t].mode.session in sys.ctx.live
  }

  // No step, spurious wake-ups included, ever leaves a deadlock.
  lemma DeadlockForever(sys: System, a: Action)
    requires Inv(sys) && Deadlocked(sys) && Enabled(sys, a)
    ensures Deadlocked(Step(sys, a))
  {
    hide Placed, Claims, Refs;
  }

  // A thread that begins an operation, links a session and, once destruction
  // has started, finalizes that session under its own claim deadlocks.
  lemma DeadlockReachable() returns (actions: seq<Action>)
    ensures Run(1, actions).Some? && Deadlocked(Run(1, actions).value)
  {
    hide Run;
    var sys: System;
    actions, sys := LinkedRun();
    actions, sys := Extend(actions, sys, DetachOwner);
    assert sys.ctx == State(false, true, false, false, 1, 2, [7]);
    actions, sys := Extend(actions, sys, DestroyStart);
    assert sys.ctx == State(false, true, true, false, 1, 2, [7]) && sys.threads == [Thread(1, 1, {}, Running)];
    actions, sys := Extend(actions, sys, EnterCleanup(0, 7));
    assert sys.threads == [Thread(1, 1, {}, Waiting(7, true))];
  }

  lemma LinkedRun() returns (actions: seq<Action>, sys: System)
    ensures Run(1, actions) == Some(sys) && !sys.aborted && sys.phase.Open?
    ensures sys.ctx == State(true, false, false, false, 1, 2, [7]) && sys.threads == [Thread(1, 1, {}, Running)]
  {
    hide Run;
    StartRun();
    sys := Start(1);
    assert sys.threads == [Thread(0, 0, {}, Running)];
    actions, sys := Extend([], sys, AttachOwner);
    assert sys.ctx == State(true, false, false, false, 0, 1, []);
    actions, sys := Extend(actions, sys, RetainShell(0));
    assert sys.ctx == State(true, false, false, false, 0, 2, []) && sys.threads == [Thread(0, 1, {}, Running)];
    actions, sys := Extend(actions, sys, Begin(0));
    assert sys.ctx == State(true, false, false, false, 1, 2, []) && sys.threads == [Thread(1, 1, {}, Running)];
    actions, sys := Extend(actions, sys, LinkSession(0, 7));
  }

  lemma StartRun()
    ensures Run(1, []) == Some(Start(1))
  {
  }

  lemma Extend(actions: seq<Action>, sys: System, a: Action) returns (longer: seq<Action>, next: System)
    requires Run(1, actions) == Some(sys) && Enabled(sys, a)
    ensures longer == actions + [a] && next == Step(sys, a) && Run(1, longer) == Some(next)
  {
    longer, next := actions + [a], Step(sys, a);
    RunSnoc(1, actions, a, sys);
  }

  lemma RunSnoc(n: nat, actions: seq<Action>, a: Action, sys: System)
    requires Run(n, actions) == Some(sys) && Enabled(sys, a)
    ensures Run(n, actions + [a]) == Some(Step(sys, a))
  {
    assert (actions + [a])[..|actions|] == actions;
  }

  // When the destructor unlinks a session it wakes every waiter, and a waiter
  // whose session is unlinked returns without a claim.
  lemma WaitersWoken(sys: System, t: nat)
    requires Inv(sys) && !sys.aborted && t < |sys.threads|
    requires Enabled(sys, DestroyResume) && Step(sys, DestroyResume).ctx.live != sys.ctx.live
    ensures var next := Step(sys, DestroyResume);
      && !(next.threads[t].mode.Waiting? && next.threads[t].mode.asleep)
      && (next.threads[t].mode.Waiting? && next.threads[t].mode.session !in next.ctx.live ==>
           Step(next, ResumeCleanup(t)).threads[t] == next.threads[t].(mode := Running))
  {
    hide Placed, Claims, Refs;
  }

  // Past the sweep nobody sleeps.
  lemma NoSleeperLeft(n: nat, actions: seq<Action>, t: nat)
    requires Run(n, actions).Some? && t < |Run(n, actions).value.threads|
    requires Run(n, actions).value.phase.Releasing? || !Run(n, actions).value.resources
    ensures var m := Run(n, actions).value.threads[t].mode; !(m.Waiting? && m.asleep)
  {
    hide Run, Placed, Claims, Refs;
    RunInv(n, actions);
  }
}
