// Threads and the destructor driving one context object.  Every effect on the
// shared state is a call of the object's methods; the threads keep what they
// hold.  The whole does, step by step, what the interleaving model says, so
// what holds of every run of the model holds of the object.

module ContextRuns {
  import opened Context
  import opened Lifetime
  import opened SessionList
  import opened ContextObject

  class Runner {
    const context: AcceleratorContext
    var sessions: map<Sid, Session>
    var threads: seq<Thread>
    var phase: Phase
    var resources: bool
    var shell: bool
    var aborted: bool
    ghost var known: set<Sid>
    ghost var destroyed: multiset<Sid>

    ghost predicate Valid()
      reads this, context, context.vm, context.sessions, context.sessions.list, sessions.Values
    {
      && context.Valid() && Tabled()
      && (if context.attached then context.Hooked() else context.vm.hook == NoHook && context.vm.hookData == null)
    }

    // The session objects are those of their IDs, and those not on the list
    // are unlinked.
    ghost predicate Tabled()
      reads this`sessions, this`known, context.sessions, sessions.Values
    {
      && (forall s :: s in sessions ==> Filed(sessions[s], s))
      && (forall x :: x in context.sessions.list ==> x.id in sessions && sessions[x.id] == x && x.id in known)
    }

    ghost predicate Filed(x: Session, s: Sid)
      reads x, context.sessions
    {
      x.id == s && x.hasCallbacks && (x in context.sessions.list || x.Unlinked())
    }

    ghost function View(): System
      reads this, context, context.sessions
    {
      System(context.Abs(), phase, threads, resources, shell, known, destroyed, aborted)
    }

    // The step was taken, or it stopped the process as the model says.
    twostate predicate Did(a: Action)
      requires Enabled(old(View()), a)
      reads this, context, context.vm, context.sessions, context.sessions.list, sessions.Values
    {
      && (aborted <==> Step(old(View()), a).aborted)
      && (!aborted ==> Valid() && View() == Step(old(View()), a))
    }

    constructor (n: nat)
      ensures Valid() && View() == Start(n)
      ensures fresh(context) && fresh(context.vm) && fresh(context.sessions) && sessions == map[] && context.sessions.list == []
    {
      var vm := new VirtualMachine();
      context := new AcceleratorContext(vm);
      sessions, threads := map[], seq(n, _ => Thread(0, 0, {}, Running));
      phase, resources, shell, aborted := Open, true, true, false;
      known, destroyed := {}, multiset{};
    }

    method Begin(t: nat)
      requires Valid() && Enabled(View(), Action.Begin(t))
      modifies this, context
      ensures Did(Action.Begin(t)) && sessions == old(sessions)
    {
      hide Tabled, AcceleratorContext.Valid, Ids;
      var claimed := context.BeginOperation();
      if claimed { threads := threads[t := threads[t].(claims := threads[t].claims + 1)]; }
    }

    method WakeAll()
      modifies `threads, `phase
      ensures threads == WokenThreads(old(threads)) && phase == WokenPhase(old(phase))
    {
      threads, phase := WokenThreads(threads), WokenPhase(phase);
    }

    method End(t: nat)
      requires Valid() && Enabled(View(), Action.End(t))
      modifies this, context
      ensures Did(Action.End(t)) && sessions == old(sessions)
    {
      hide Tabled, AcceleratorContext.Valid, Ids;
      var stopped, woken := context.EndOperation();
      if stopped {
        aborted := true;
        return;
      }
      threads := threads[t := threads[t].(claims := threads[t].claims - 1)];
      if woken { WakeAll(); }
    }

    // The session of an ID, made when it is first met.
    method SessionOf(s: Sid) returns (x: Session)
      requires Tabled()
      modifies this`sessions
      ensures Tabled() && x.id == s && sessions == old(sessions)[s := x]
      ensures x.hasCallbacks && (x in context.sessions.list || x.Unlinked())
      ensures x in old(sessions.Values) || fresh(x)
    {
      if s in sessions {
        x := sessions[s];
      } else {
        x := new Session(s, true);
        sessions := sessions[s := x];
      }
    }

    lemma ListFiled()
      requires Tabled()
      ensures forall x :: x in context.sessions.list ==> x in sessions.Values && x.id in known && sessions[x.id] == x
    {
    }

    // A session stands on the list exactly when it is linked, and under its ID.
    lemma ListedWhen(x: Session)
      requires Tabled() && context.Valid() && x.id in sessions && sessions[x.id] == x
      ensures x.linked <==> x in context.sessions.list
      ensures x.id in Ids(context.sessions.list) <==> x in context.sessions.list
      ensures forall y :: y in context.sessions.list && y.id == x.id ==> y == x
    {
      var list := context.sessions.list;
      assert Filed(x, x.id);
      if x in list {
        var i :| 0 <= i < |list| && list[i] == x;
        assert context.sessions.LinkedAt(i) && Ids(list)[i] == x.id;
      }
      if x.id in Ids(list) {
        var i :| 0 <= i < |list| && Ids(list)[i] == x.id;
        assert list[i] in list;
      }
    }

    // An unlinked session of the table joins the list.
    method Link(x: Session)
      requires Tabled() && context.Valid() && x.id in sessions && sessions[x.id] == x && x.id !in known
      modifies this`known, context.sessions, sessions.Values
      ensures Tabled() && context.Valid() && known == old(known) + {x.id}
      ensures context.Abs() == Context.Link(old(context.Abs()), x.id)
    {
      hide AcceleratorContext.Valid, Ids;
      ListFiled();
      ListedWhen(x);
      assert Filed(x, x.id);
      ghost var stopped := context.LinkSession(x);
      known := known + {x.id};
    }

    // A linked session of the table leaves the list.
    method Unlink(x: Session)
      requires Tabled() && context.Valid() && x.id in sessions && sessions[x.id] == x && x.id in context.Abs().live
      modifies context.sessions, sessions.Values
      ensures Tabled() && context.Valid()
      ensures context.Abs() == Context.Unlink(old(context.Abs()), x.id)
    {
      hide AcceleratorContext.Valid, Ids;
      ListFiled();
      ListedWhen(x);
      ghost var stopped := context.UnlinkSession(x);
    }

    method TakeHead() returns (x: Session?)
      requires Tabled() && context.Valid()
      modifies context.sessions, sessions.Values
      ensures Tabled() && context.Valid()
      ensures x == null <==> old(context.Abs()).live == []
      ensures x == null ==> context.Abs() == old(context.Abs())
      ensures x != null ==> x.id == old(context.Abs()).live[0] && context.Abs() == Context.Unlink(old(context.Abs()), x.id)
    {
      hide AcceleratorContext.Valid;
      ListFiled();
      x := context.TakeHead();
    }

    method LinkSession(t: nat, s: Sid)
      requires Valid() && Enabled(View(), Action.LinkSession(t, s))
      modifies this, context.sessions, sessions.Values
      ensures Did(Action.LinkSession(t, s))
      ensures forall x :: x in sessions.Values ==> x in old(sessions.Values) || fresh(x)
    {
      hide Tabled, AcceleratorContext.Valid, Ids;
      var x := SessionOf(s);
      Link(x);
    }

    method UnlinkSession(t: nat, s: Sid)
      requires Valid() && Enabled(View(), Action.UnlinkSession(t, s))
      modifies this, context.sessions, sessions.Values
      ensures Did(Action.UnlinkSession(t, s)) && sessions == old(sessions)
    {
      hide Tabled, AcceleratorContext.Valid, Ids;
      LiveFiled(s);
      Unlink(sessions[s]);
      threads := threads[t := threads[t].(payloads := threads[t].payloads + {s})];
    }

    lemma LiveFiled(s: Sid)
      requires Tabled() && s in context.Abs().live
      ensures s in sessions && sessions[s].id == s
    {
      var list := context.sessions.list;
      var i :| 0 <= i < |list| && Ids(list)[i] == s;
      assert list[i] in list && Filed(list[i], s);
    }

    method DestroyPayload(t: nat, s: Sid)
      requires Valid() && Enabled(View(), Action.DestroyPayload(t, s))
      modifies this
      ensures Did(Action.DestroyPayload(t, s)) && sessions == old(sessions)
    {
      hide Tabled, AcceleratorContext.Valid, Ids;
      threads := threads[t := threads[t].(payloads := threads[t].payloads - {s})];
      destroyed := destroyed + multiset{s};
    }

    // One pass of the cleanup wait for a session, whether or not it was ever
    // linked.
    method CleanupPass(s: Sid) returns (verdict: Verdict)
      requires Valid()
      modifies this`sessions, context
      ensures Valid() && forall x :: x in sessions.Values ==> x in old(sessions.Values) || fresh(x)
      ensures match BeginCleanup(old(context.Abs()), s)
        case Wait => verdict.MustWait? && context.Abs() == old(context.Abs())
        case Claimed(c) => verdict.Granted? && context.Abs() == c
        case Refused => verdict.NotLinked? && context.Abs() == old(context.Abs())
        case CleanupAbort => verdict.Stopped? && context.Abs() == old(context.Abs())
    {
      hide Tabled, AcceleratorContext.Valid, Ids;
      var x := SessionOf(s);
      ListedWhen(x);
      verdict := context.BeginSessionCleanup(x);
    }

    // The thread claims, is refused, or sleeps.
    method Cleanup(t: nat, s: Sid)
      requires Valid() && t < |threads| && !aborted
      modifies this, context
      ensures aborted <==> CleanupStep(old(View()), t, s).aborted
      ensures !aborted ==> Valid() && View() == CleanupStep(old(View()), t, s)
      ensures forall x :: x in sessions.Values ==> x in old(sessions.Values) || fresh(x)
    {
      hide Tabled, AcceleratorContext.Valid, Ids;
      var verdict := CleanupPass(s);
      match verdict
      case MustWait => threads := threads[t := threads[t].(mode := Waiting(s, true))];
      case Granted => threads := threads[t := threads[t].(claims := threads[t].claims + 1, mode := Running)];
      case NotLinked => threads := threads[t := threads[t].(mode := Running)];
      case Stopped => aborted := true;
    }

    method EnterCleanup(t: nat, s: Sid)
      requires Valid() && Enabled(View(), Action.EnterCleanup(t, s))
      modifies this, context
      ensures Did(Action.EnterCleanup(t, s))
      ensures forall x :: x in sessions.Values ==> x in old(sessions.Values) || fresh(x)
    {
      hide Valid, CleanupStep;
      Cleanup(t, s);
    }

    method ResumeCleanup(t: nat)
      requires Valid() && Enabled(View(), Action.ResumeCleanup(t))
      modifies this, context
      ensures Did(Action.ResumeCleanup(t))
      ensures forall x :: x in sessions.Values ==> x in old(sessions.Values) || fresh(x)
    {
      hide Valid, CleanupStep;
      Cleanup(t, threads[t].mode.session);
    }

    method SpuriousWake(t: nat)
      requires Valid() && Enabled(View(), Action.SpuriousWake(t))
      modifies this
      ensures Did(Action.SpuriousWake(t)) && sessions == old(sessions)
    {
      hide Tabled, AcceleratorContext.Valid, Ids;
      threads := threads[t := threads[t].(mode := WokenMode(threads[t].mode))];
    }

    method RetainShell(t: nat)
      requires Valid() && Enabled(View(), Action.RetainShell(t))
      modifies this, context
      ensures Did(Action.RetainShell(t)) && sessions == old(sessions)
    {
      hide Tabled, AcceleratorContext.Valid, Ids;
      var retained := context.RetainShell();
      if retained { threads := threads[t := threads[t].(refs := threads[t].refs + 1)]; }
    }

    // Gives one reference back; the last one frees the shell.
    method Release()
      requires Valid() && !aborted
      modifies this, context
      ensures aborted <==> Context.Release(old(View()).ctx).Abort?
      ensures !aborted ==> Valid() && View() == Freed(old(View()), Context.Release(old(View()).ctx).state)
      ensures sessions == old(sessions)
    {
      hide Tabled, AcceleratorContext.Valid, Ids;
      var freed;
      aborted, freed := context.ReleaseShell();
      shell := shell && !freed;
    }

    method ReleaseShell(t: nat)
      requires Valid() && Enabled(View(), Action.ReleaseShell(t))
      modifies this, context
      ensures Did(Action.ReleaseShell(t)) && sessions == old(sessions)
    {
      hide Tabled, AcceleratorContext.Valid, Ids, Context.Release;
      Release();
      if aborted { return; }
      threads := threads[t := threads[t].(refs := threads[t].refs - 1)];
    }

    method AttachOwner()
      requires Valid() && Enabled(View(), Action.AttachOwner)
      modifies this, context, context.vm
      ensures Did(Action.AttachOwner) && sessions == old(sessions)
    {
      hide Tabled, AcceleratorContext.Valid, Ids;
      aborted := context.AttachOptimizer();
    }

    method DetachOwner()
      requires Valid() && Enabled(View(), Action.DetachOwner)
      modifies this, context, context.vm
      ensures Did(Action.DetachOwner) && sessions == old(sessions)
    {
      hide Tabled, AcceleratorContext.Valid, Ids;
      aborted := context.DetachOptimizer();
    }

    // The destructor with the mutex held: it waits for the claims to drain,
    // takes the next session, or goes on to the resources.
    method DrainOrSweep()
      requires Valid() && !aborted
      modifies this, context.sessions, sessions.Values
      ensures Valid() && View() == Lifetime.DrainOrSweep(old(View())) && sessions == old(sessions)
    {
      hide Tabled, AcceleratorContext.Valid, Ids;
      if phase.Draining? && context.active != 0 {
        phase := Draining(true);
      } else {
        var x := TakeHead();
        if x == null {
          phase := Releasing;
        } else {
          phase := Orphaning(x.id);
          WakeAll();
        }
      }
    }

    method DestroyStart()
      requires Valid() && Enabled(View(), Action.DestroyStart)
      modifies this, context, context.sessions, sessions.Values
      ensures Did(Action.DestroyStart) && sessions == old(sessions)
    {
      hide Tabled, AcceleratorContext.Valid, Ids, Lifetime.DrainOrSweep;
      aborted := context.CloseClaimGate();
      if !aborted {
        phase := Draining(false);
        DrainOrSweep();
      }
    }

    method DestroyResume()
      requires Valid() && Enabled(View(), Action.DestroyResume)
      modifies this, context.sessions, sessions.Values
      ensures Did(Action.DestroyResume) && sessions == old(sessions)
    {
      hide Valid, Lifetime.DrainOrSweep;
      DrainOrSweep();
    }

    method DestroySpurious()
      requires Valid() && Enabled(View(), Action.DestroySpurious)
      modifies this
      ensures Did(Action.DestroySpurious) && sessions == old(sessions)
    {
      hide Tabled, AcceleratorContext.Valid, Ids;
      phase := Draining(false);
    }

    method DestroyOrphan()
      requires Valid() && Enabled(View(), Action.DestroyOrphan)
      modifies this
      ensures Did(Action.DestroyOrphan) && sessions == old(sessions)
    {
      hide Tabled, AcceleratorContext.Valid, Ids;
      destroyed := destroyed + multiset{phase.orphan};
      phase := Sweeping;
    }

    method DestroyResources()
      requires Valid() && Enabled(View(), Action.DestroyResources)
      modifies this
      ensures Did(Action.DestroyResources) && sessions == old(sessions)
    {
      hide Tabled, AcceleratorContext.Valid, Ids;
      resources, phase := false, Released;
    }

    method DestroyPublish()
      requires Valid() && Enabled(View(), Action.DestroyPublish)
      modifies this, context
      ensures Did(Action.DestroyPublish) && sessions == old(sessions)
    {
      hide Tabled, AcceleratorContext.Valid, Ids;
      context.PublishTeardown();
      phase := Published;
    }

    method OwnerRelease()
      requires Valid() && Enabled(View(), Action.OwnerRelease)
      modifies this, context
      ensures Did(Action.OwnerRelease) && sessions == old(sessions)
    {
      hide Tabled, AcceleratorContext.Valid, Ids, Context.Release;
      Release();
      phase := Closed;
    }

    method Perform(a: Action)
      requires Valid() && Enabled(View(), a)
      modifies this, context, context.vm, context.sessions, sessions.Values
      ensures Did(a)
      ensures forall x :: x in sessions.Values ==> x in old(sessions.Values) || fresh(x)
    {
      hide Valid, Step, Enabled;
      match a
      case Begin(t) => Begin(t);
      case End(t) => End(t);
      case LinkSession(t, s) => LinkSession(t, s);
      case UnlinkSession(t, s) => UnlinkSession(t, s);
      case DestroyPayload(t, s) => DestroyPayload(t, s);
      case EnterCleanup(t, s) => EnterCleanup(t, s);
      case ResumeCleanup(t) => ResumeCleanup(t);
      case SpuriousWake(t) => SpuriousWake(t);
      case RetainShell(t) => RetainShell(t);
      case ReleaseShell(t) => ReleaseShell(t);
      case AttachOwner => AttachOwner();
      case DetachOwner => DetachOwner();
      case DestroyStart => DestroyStart();
      case DestroyResume => DestroyResume();
      case DestroySpurious => DestroySpurious();
      case DestroyOrphan => DestroyOrphan();
      case DestroyResources => DestroyResources();
      case DestroyPublish => DestroyPublish();
      case OwnerRelease => OwnerRelease();
    }
  }

  // Any run of the interleaving model, performed on a fresh context, ends in
  // the model's state; in particular the model's invariant holds of it.
  method Execute(n: nat, actions: seq<Action>) returns (r: Runner)
    requires Run(n, actions).Some?
    ensures r.aborted <==> Run(n, actions).value.aborted
    ensures !r.aborted ==> r.Valid() && r.View() == Run(n, actions).value && Inv(r.View())
    ensures fresh(r) && fresh(r.context) && fresh(r.context.vm) && fresh(r.context.sessions) && fresh(r.sessions.Values)
    decreases |actions|
  {
    hide Step, Enabled, Start, Inv;
    RunInv(n, actions);
    if actions == [] {
      r := new Runner(n);
    } else {
      r := Execute(n, actions[..|actions| - 1]);
      NotStopped(n, actions);
      r.Perform(actions[|actions| - 1]);
    }
  }

  lemma NotStopped(n: nat, actions: seq<Action>)
    requires Run(n, actions).Some? && actions != []
    ensures Run(n, actions[..|actions| - 1]).Some? && !Run(n, actions[..|actions| - 1]).value.aborted
    ensures Enabled(Run(n, actions[..|actions| - 1]).value, actions[|actions| - 1])
    ensures Run(n, actions).value == Step(Run(n, actions[..|actions| - 1]).value, actions[|actions| - 1])
  {
  }
}
