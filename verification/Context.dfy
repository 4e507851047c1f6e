// The accelerator context's shared state and what each of its mutex-held
// sections does to it.  A section runs from a lock to the next unlock or
// condition wait.

module Context {
  const UINT32_MAX: nat := 0xFFFF_FFFF

  type Sid = nat

  // live is the linked-session list, oldest first.
  datatype State = State(
    attached: bool, shuttingDown: bool, destroying: bool, resourcesDestroyed: bool,
    active: nat, refs: nat, live: seq<Sid>)

  // A section ends normally, or stops the process.
  datatype Outcome = Done(state: State) | Abort

  // ------------------------------------------------------------------
  // Claims
  // ------------------------------------------------------------------

  predicate ClaimOpen(c: State) { c.attached && !c.shuttingDown && c.active != UINT32_MAX }

  function BeginOperation(c: State): State {
    if ClaimOpen(c) then c.(active := c.active + 1) else c
  }

  function EndOperation(c: State): Outcome {
    if c.active == 0 then Abort else Done(c.(active := c.active - 1))
  }

  // begin_session_cleanup from the point where the mutex is held: it waits
  // while the destructor owns a linked session, claims a linked session
  // otherwise, and refuses an unlinked one.
  datatype Cleanup = Wait | Claimed(state: State) | Refused | CleanupAbort

  function BeginCleanup(c: State, s: Sid): Cleanup {
    if c.destroying && s in c.live then Wait
    else if s in c.live then
      if c.resourcesDestroyed || c.active == UINT32_MAX then CleanupAbort
      else Claimed(c.(active := c.active + 1))
    else Refused
  }

  // ------------------------------------------------------------------
  // References to the shell
  // ------------------------------------------------------------------

  predicate RetainOpen(c: State) {
    !c.destroying && !c.resourcesDestroyed && c.refs != 0 && c.refs != UINT32_MAX
  }

  function Retain(c: State): State {
    if RetainOpen(c) then c.(refs := c.refs + 1) else c
  }

  // The shell is freed when the last reference goes.
  function Release(c: State): Outcome {
    if c.refs == 0 || (c.refs == 1 && !c.resourcesDestroyed) then Abort
    else Done(c.(refs := c.refs - 1))
  }

  // ------------------------------------------------------------------
  // Attachment and destruction
  // ------------------------------------------------------------------

  function Attach(c: State): Outcome {
    if c.attached || c.shuttingDown then Abort else Done(c.(attached := true))
  }

  function Detach(c: State): Outcome {
    if !c.attached then Abort else Done(c.(attached := false, shuttingDown := true))
  }

  function CloseGate(c: State): Outcome {
    if c.attached || c.destroying || c.resourcesDestroyed then Abort
    else Done(c.(destroying := true, shuttingDown := true))
  }

  function PublishTeardown(c: State): State { c.(resourcesDestroyed := true) }

  // ------------------------------------------------------------------
  // The linked-session list
  // ------------------------------------------------------------------

  function Without(live: seq<Sid>, s: Sid): (r: seq<Sid>)
    ensures |r| <= |live|
    ensures s in live ==> |r| == |live| - 1
  {
    if live == [] then []
    else if live[0] == s then live[1..]
    else [live[0]] + Without(live[1..], s)
  }

  function Link(c: State, s: Sid): State { c.(live := c.live + [s]) }

  function Unlink(c: State, s: Sid): State { c.(live := Without(c.live, s)) }

  predicate NoDuplicates(live: seq<Sid>) {
    forall i, j :: 0 <= i < j < |live| ==> live[i] != live[j]
  }

  lemma {:induction false} WithoutMembers(live: seq<Sid>, s: Sid)
    requires NoDuplicates(live)
    ensures NoDuplicates(Without(live, s))
    ensures forall x :: x in Without(live, s) <==> x in live && x != s
  {
    if live != [] {
      var head, tail := live[0], live[1..];
      assert live == [head] + tail;
      assert NoDuplicates(tail) && head !in tail;
      if head != s {
        WithoutMembers(tail, s);
        NoDuplicatesCons(head, Without(tail, s));
      }
    }
  }

  lemma NoDuplicatesCons(head: Sid, tail: seq<Sid>)
    requires NoDuplicates(tail) && head !in tail
    ensures NoDuplicates([head] + tail)
    ensures forall x :: x in [head] + tail <==> x == head || x in tail
  {
  }
}
