// The context object: each method is the body of one mutex-held section of
// the corresponding operation, over 32-bit counters and the pointer-linked
// session list, and does to the abstract state what the section is specified
// to do.

module ContextObject {
  import opened Context
  import opened SessionList
  import opened Words

  newtype uint32 = x: int | 0 <= x < 0x1_0000_0000

  const COUNT_MAX: uint32 := 0xFFFF_FFFF

  datatype Verdict = MustWait | Granted | NotLinked | Stopped

  ghost function Ids(list: seq<Session>): (r: seq<Sid>)
    ensures |r| == |list| && forall i :: 0 <= i < |list| ==> r[i] == list[i].id
  {
    seq(|list|, (i: nat) requires i < |list| => list[i].id)
  }

  lemma {:induction false} WithoutIds(list: seq<Session>, i: nat)
    requires i < |list| && NoDuplicates(Ids(list))
    ensures Without(Ids(list), list[i].id) == Ids(Removed(list, i))
  {
    var ids := Ids(list);
    assert ids[1..] == Ids(list[1..]);
    if i > 0 {
      assert ids[0] != ids[i];
      assert NoDuplicates(ids[1..]);
      WithoutIds(list[1..], i - 1);
      assert Removed(list, i) == [list[0]] + Removed(list[1..], i - 1);
    } else {
      assert Removed(list, 0) == list[1..];
    }
  }

  // The optimizer callback installed in a virtual machine.
  datatype Hook = NoHook | AcceleratorHook | OtherHook

  class VirtualMachine {
    var hook: Hook
    var hookData: object?

    constructor ()
      ensures hook == NoHook && hookData == null
    {
      hook, hookData := NoHook, null;
    }
  }

  class AcceleratorContext {
    const vm: VirtualMachine
    var attached: bool
    var shuttingDown: bool
    var destroying: bool
    var resourcesDestroyed: bool
    var active: uint32
    var refs: uint32
    const sessions: LiveSessions

    ghost predicate Valid()
      reads this, sessions, sessions.list
    {
      sessions.Valid() && NoDuplicates(Ids(sessions.list))
    }

    ghost function Abs(): State
      reads this, sessions
    {
      State(attached, shuttingDown, destroying, resourcesDestroyed, active as nat, refs as nat, Ids(sessions.list))
    }

    // Only the counters named may differ.
    twostate predicate FlagsKept()
      reads this, sessions
    {
      && attached == old(attached) && shuttingDown == old(shuttingDown)
      && destroying == old(destroying) && resourcesDestroyed == old(resourcesDestroyed)
    }

    // The virtual machine calls this context.
    predicate Hooked()
      reads this, vm
    {
      vm.hook == AcceleratorHook && vm.hookData == this
    }

    // A detached context holding its owner's reference.
    constructor (vm: VirtualMachine)
      ensures this.vm == vm && fresh(sessions) && sessions.list == []
      ensures Valid() && Abs() == State(false, false, false, false, 0, 1, [])
    {
      this.vm := vm;
      attached, shuttingDown, destroying, resourcesDestroyed := false, false, false, false;
      active, refs := 0, 1;
      sessions := new LiveSessions();
    }

    method BeginOperation() returns (claimed: bool)
      requires Valid()
      modifies this
      ensures claimed <==> old(attached) && !old(shuttingDown) && old(active) != 0xFFFF_FFFF
      ensures active as int == old(active) as int + (if claimed then 1 else 0) && refs == old(refs) && FlagsKept()
      ensures Valid() && Abs() == Context.BeginOperation(old(Abs()))
    {
      claimed := false;
      if attached && !shuttingDown && active != COUNT_MAX {
        active := active + 1;
        claimed := true;
      }
    }

    // woken: every waiter is woken, because the last claim went.
    method EndOperation() returns (aborted: bool, woken: bool)
      requires Valid()
      modifies this
      ensures aborted <==> old(active) == 0
      ensures active as int == (if aborted then 0 else old(active) as int - 1) && refs == old(refs) && FlagsKept()
      ensures woken <==> old(active) == 1
      ensures Valid() && aborted == Context.EndOperation(old(Abs())).Abort?
      ensures Abs() == (if aborted then old(Abs()) else Context.EndOperation(old(Abs())).state)
    {
      if active == 0 { return true, false; }
      active := active - 1;
      return false, active == 0;
    }

    // One pass of the wait loop and, past it, the claim.
    method BeginSessionCleanup(session: Session) returns (verdict: Verdict)
      requires Valid() && (session.linked <==> session in sessions.list)
      requires forall s :: s in sessions.list && s.id == session.id ==> s == session
      modifies this
      ensures Valid()
      ensures verdict == NotLinked <==> !session.linked
      ensures verdict == MustWait <==> session.linked && old(destroying)
      ensures verdict == Granted <==> session.linked && !old(destroying) && !old(resourcesDestroyed) && old(active) != 0xFFFF_FFFF
      ensures active as int == old(active) as int + (if verdict == Granted then 1 else 0) && refs == old(refs) && FlagsKept()
      ensures match Context.BeginCleanup(old(Abs()), session.id)
        case Wait => verdict.MustWait? && Abs() == old(Abs())
        case Claimed(c) => verdict.Granted? && Abs() == c
        case Refused => verdict.NotLinked? && Abs() == old(Abs())
        case CleanupAbort => verdict.Stopped? && Abs() == old(Abs())
    {
      assert session.id in Ids(sessions.list) <==> session in sessions.list by {
        if i :| 0 <= i < |sessions.list| && sessions.list[i] == session { assert Ids(sessions.list)[i] == session.id; }
        if i :| 0 <= i < |sessions.list| && Ids(sessions.list)[i] == session.id { assert sessions.list[i] in sessions.list; }
      }
      if destroying && session.linked { return MustWait; }
      if session.linked {
        if resourcesDestroyed || active == COUNT_MAX { return Stopped; }
        active := active + 1;
        return Granted;
      }
      return NotLinked;
    }

    method RetainShell() returns (retained: bool)
      requires Valid()
      modifies this
      ensures retained <==> !old(destroying) && !old(resourcesDestroyed) && old(refs) != 0 && old(refs) != 0xFFFF_FFFF
      ensures refs as int == old(refs) as int + (if retained then 1 else 0) && active == old(active) && FlagsKept()
      ensures Valid() && Abs() == Context.Retain(old(Abs()))
    {
      retained := false;
      if !destroying && !resourcesDestroyed && refs != 0 && refs != COUNT_MAX {
        refs := refs + 1;
        retained := true;
      }
    }

    // freed: the caller destroys the shell, outside the mutex.
    method ReleaseShell() returns (aborted: bool, freed: bool)
      requires Valid()
      modifies this
      ensures aborted <==> old(refs) == 0 || (old(refs) == 1 && !old(resourcesDestroyed))
      ensures freed <==> old(refs) == 1 && old(resourcesDestroyed)
      ensures !aborted ==> refs as int == old(refs) as int - 1 && active == old(active) && FlagsKept()
      ensures Valid() && aborted == Context.Release(old(Abs())).Abort?
      ensures !aborted ==> Abs() == Context.Release(old(Abs())).state
    {
      if refs == 0 { return true, false; }
      refs := refs - 1;
      if refs == 0 {
        if !resourcesDestroyed { return true, false; }
        return false, true;
      }
      return false, false;
    }

    // Aborts where the section is specified to, and where another callback is
    // installed.
    method AttachOptimizer() returns (aborted: bool)
      requires Valid()
      modifies this, vm
      ensures aborted <==> old(attached || shuttingDown || vm.hook != NoHook || vm.hookData != null)
      ensures attached == (!aborted || old(attached)) && shuttingDown == old(shuttingDown) && destroying == old(destroying)
      ensures Valid() && aborted == (Context.Attach(old(Abs())).Abort? || old(vm.hook != NoHook || vm.hookData != null))
      ensures aborted ==> Abs() == old(Abs()) && unchanged(vm)
      ensures !aborted ==> Abs() == Context.Attach(old(Abs())).state && Hooked()
    {
      if attached || shuttingDown || vm.hook != NoHook || vm.hookData != null { return true; }
      vm.hook, vm.hookData := AcceleratorHook, this;
      attached := true;
      return false;
    }

    // Aborts where the section is specified to, and where the callback is not
    // this context's.
    method DetachOptimizer() returns (aborted: bool)
      requires Valid()
      modifies this, vm
      ensures aborted <==> old(!attached || vm.hook != AcceleratorHook || vm.hookData != this)
      ensures attached == (aborted && old(attached)) && shuttingDown == (!aborted || old(shuttingDown)) && destroying == old(destroying)
      ensures Valid() && aborted == (Context.Detach(old(Abs())).Abort? || !old(Hooked()))
      ensures aborted ==> Abs() == old(Abs()) && unchanged(vm)
      ensures !aborted ==> Abs() == Context.Detach(old(Abs())).state && vm.hook == NoHook && vm.hookData == null
    {
      if !attached || vm.hook != AcceleratorHook || vm.hookData != this { return true; }
      vm.hook, vm.hookData := NoHook, null;
      attached, shuttingDown := false, true;
      return false;
    }

    method CloseClaimGate() returns (aborted: bool)
      requires Valid()
      modifies this
      ensures aborted <==> old(attached || destroying || resourcesDestroyed)
      ensures destroying == (!aborted || old(destroying)) && shuttingDown == (!aborted || old(shuttingDown)) && attached == old(attached)
      ensures Valid() && aborted == Context.CloseGate(old(Abs())).Abort?
      ensures Abs() == (if aborted then old(Abs()) else Context.CloseGate(old(Abs())).state)
    {
      if attached { return true; }
      if destroying || resourcesDestroyed { return true; }
      destroying, shuttingDown := true, true;
      return false;
    }

    // The backend's state is gone.
    method PublishTeardown()
      requires Valid()
      modifies this
      ensures resourcesDestroyed && attached == old(attached) && shuttingDown == old(shuttingDown) && destroying == old(destroying)
      ensures Valid() && Abs() == Context.PublishTeardown(old(Abs()))
    {
      resourcesDestroyed := true;
    }

    method LinkSession(session: Session) returns (aborted: bool)
      requires Valid() && session.id !in Ids(sessions.list)
      modifies sessions, sessions.list, session
      ensures Valid() && aborted == !(session.hasCallbacks && old(session.Unlinked()))
      ensures sessions.list == (if aborted then old(sessions.list) else old(sessions.list) + [session])
      ensures Abs() == (if aborted then old(Abs()) else Context.Link(old(Abs()), session.id))
    {
      ghost var before := sessions.list;
      aborted := sessions.Link(session);
      if !aborted {
        assert Ids(sessions.list) == Ids(before) + [session.id];
      }
    }

    method UnlinkSession(session: Session) returns (aborted: bool)
      requires Valid() && (session.linked ==> session in sessions.list)
      modifies sessions, sessions.list, session
      ensures Valid() && aborted == old(!session.linked) && (!aborted ==> session.Unlinked())
      ensures !aborted ==> forall x :: x in sessions.list <==> x in old(sessions.list) && x != session
      ensures Abs() == (if aborted then old(Abs()) else Context.Unlink(old(Abs()), session.id))
    {
      ghost var before := sessions.list;
      aborted := sessions.Unlink(session);
      if !aborted {
        ghost var i :| 0 <= i < |before| && before[i] == session && sessions.list == Removed(before, i);
        WithoutIds(before, i);
        WithoutMembers(Ids(before), session.id);
      }
    }

    // One turn of the destructor's loop: the head leaves the list.
    method TakeHead() returns (session: Session?)
      requires Valid()
      modifies sessions, sessions.list
      ensures Valid()
      ensures session == null <==> old(sessions.list) == []
      ensures session == null ==> Abs() == old(Abs())
      ensures session != null ==> session == old(sessions.list)[0] && session.Unlinked()
      ensures session != null ==> forall x :: x in sessions.list <==> x in old(sessions.list) && x != session
      ensures session != null ==> Abs() == Context.Unlink(old(Abs()), old(Abs()).live[0])
    {
      session := sessions.head;
      if session != null {
        assert session == sessions.list[0] && sessions.LinkedAt(0);
        var aborted := UnlinkSession(session);
      }
    }
  }

  // The backend's operations that are present.
  datatype Operations = Operations(prepare: bool, destroyPrepared: bool, registerRuntime: bool, destroyState: bool)

  // A context exists exactly when there is a virtual machine, the operation
  // table is complete, and allocation and both primitives succeed.
  method Create(vm: VirtualMachine?, ops: Option<Operations>, memory: bool, mutexMade: bool, conditionMade: bool)
    returns (context: AcceleratorContext?)
    ensures context != null <==>
      && vm != null && memory && mutexMade && conditionMade && ops.Some?
      && ops.value.prepare && ops.value.destroyPrepared && ops.value.registerRuntime && ops.value.destroyState
    ensures context != null ==> fresh(context) && context.vm == vm && context.Valid()
    ensures context != null ==> context.Abs() == State(false, false, false, false, 0, 1, [])
  {
    if vm == null || ops.None? { return null; }
    if !ops.value.prepare || !ops.value.destroyPrepared || !ops.value.registerRuntime || !ops.value.destroyState { return null; }
    if !memory || !mutexMade || !conditionMade { return null; }
    context := new AcceleratorContext(vm);
  }
}
