// The context's doubly linked list of live sessions.

module SessionList {
  import opened Context

  // hasCallbacks: both of the session's orphan callbacks are set.
  class Session {
    const id: Sid
    const hasCallbacks: bool
    var prev: Session?
    var next: Session?
    var linked: bool

    constructor (id: Sid, hasCallbacks: bool)
      ensures this.id == id && this.hasCallbacks == hasCallbacks && Unlinked()
    {
      this.id, this.hasCallbacks, prev, next, linked := id, hasCallbacks, null, null, false;
    }

    predicate Unlinked()
      reads this
    {
      !linked && prev == null && next == null
    }
  }

  // The neighbours of position i in an abstract list.
  ghost function Before(list: seq<Session>, i: int): Session? {
    if 0 < i <= |list| then list[i - 1] else null
  }

  ghost function After(list: seq<Session>, i: int): Session? {
    if -1 <= i < |list| - 1 then list[i + 1] else null
  }

  ghost predicate Distinct(list: seq<Session>) {
    forall i, j :: 0 <= i < |list| && 0 <= j < |list| && list[i] == list[j] ==> i == j
  }

  ghost function Removed(list: seq<Session>, i: nat): (r: seq<Session>)
    requires i < |list|
    ensures |r| == |list| - 1
  {
    list[..i] + list[i + 1..]
  }

  // Where the elements of a list stand after position i is removed.
  lemma RemovedAt(list: seq<Session>, i: nat, k: nat)
    requires Distinct(list) && i < |list| && k < |list| - 1
    ensures var (r, j) := (Removed(list, i), if k < i then k else k + 1);
      && r[k] == list[j] && r[k] != list[i]
      && Before(r, k) == (if j == i + 1 then Before(list, i) else Before(list, j))
      && After(r, k) == (if j == i - 1 then After(list, i) else After(list, j))
  {
  }

  lemma RemovedEnds(list: seq<Session>, i: nat)
    requires Distinct(list) && i < |list|
    ensures var r := Removed(list, i);
      && Distinct(r) && list[i] !in r
      && After(r, -1) == (if i == 0 then After(list, 0) else After(list, -1))
      && Before(r, |r|) == (if i == |list| - 1 then Before(list, i) else Before(list, |list|))
  {
  }

  // Where the elements of a list stand after one is appended.
  lemma AppendedAt(list: seq<Session>, s: Session, k: nat)
    requires Distinct(list) && s !in list && k <= |list|
    ensures var r := list + [s];
      && r[k] == (if k < |list| then list[k] else s)
      && Before(r, k) == Before(list, k)
      && After(r, k) == (if k == |list| - 1 then s else After(list, k))
      && (k < |list| && list[k] == Before(list, |list|) <==> k == |list| - 1)
  {
  }

  lemma AppendedEnds(list: seq<Session>, s: Session)
    requires Distinct(list) && s !in list
    ensures var r := list + [s];
      && Distinct(r) && Before(r, |r|) == s && After(r, -1) == (if list == [] then s else After(list, -1))
  {
  }

  class LiveSessions {
    var head: Session?
    var tail: Session?
    ghost var list: seq<Session>

    ghost predicate LinkedAt(i: nat)
      requires i < |list|
      reads this, list
    {
      list[i].linked && list[i].prev == Before(list, i) && list[i].next == After(list, i)
    }

    // The pointers spell out the list, which has no duplicates.
    ghost predicate Valid()
      reads this, list
    {
      && Distinct(list)
      && (forall i :: 0 <= i < |list| ==> LinkedAt(i))
      && head == After(list, -1)
      && tail == Before(list, |list|)
    }

    lemma NotListed(s: Session)
      requires Valid() && !s.linked
      ensures s !in list
    {
      forall i | 0 <= i < |list| ensures list[i] != s {
        assert LinkedAt(i);
      }
    }

    constructor ()
      ensures Valid() && list == []
    {
      head, tail, list := null, null, [];
    }

    // Appends an unlinked session that has its callbacks; anything else stops
    // the process.
    method Link(session: Session) returns (aborted: bool)
      requires Valid()
      modifies this, list, session
      ensures aborted <==> !(session.hasCallbacks && old(session.Unlinked()))
      ensures aborted ==> unchanged(this) && unchanged(session) && unchanged(old(list))
      ensures Valid() && list == (if aborted then old(list) else old(list) + [session])
    {
      if !session.hasCallbacks || session.linked || session.prev != null || session.next != null { return true; }
      ghost var was, last := list, tail;
      NotListed(session);
      AppendedEnds(was, session);
      session.prev := tail;
      if tail == null {
        head := session;
      } else {
        tail.next := session;
      }
      tail := session;
      session.linked := true;
      list := list + [session];
      forall k | 0 <= k < |list| ensures LinkedAt(k) {
        AppendedAt(was, session, k);
        if k < |was| {
          assert old(LinkedAt(k));
          assert was[k] == last <==> k == |was| - 1;
        }
      }
      return false;
    }

    // Removes one linked session and clears its links; an unlinked session
    // stops the process.
    method Unlink(session: Session) returns (aborted: bool)
      requires Valid() && (session.linked ==> session in list)
      modifies this, list, session
      ensures aborted <==> old(!session.linked)
      ensures aborted ==> unchanged(this) && unchanged(session) && unchanged(old(list))
      ensures Valid()
      ensures !aborted ==> exists i :: 0 <= i < |old(list)| && old(list)[i] == session && list == Removed(old(list), i)
      ensures !aborted ==> session !in list && session.Unlinked()
    {
      if !session.linked { return true; }
      ghost var i :| 0 <= i < |list| && list[i] == session;
      ghost var was := list;
      assert LinkedAt(i);
      RemovedEnds(was, i);
      if session.prev == null && head != session { return true; }
      if session.next == null && tail != session { return true; }
      ghost var (p, q) := (session.prev, session.next);
      if session.prev == null {
        head := session.next;
      } else {
        session.prev.next := session.next;
      }
      if session.next == null {
        tail := session.prev;
      } else {
        session.next.prev := session.prev;
      }
      session.prev, session.next, session.linked := null, null, false;
      list := Removed(list, i);
      forall k | 0 <= k < |list| ensures LinkedAt(k) {
        RemovedAt(was, i, k);
        ghost var j := if k < i then k else k + 1;
        assert old(LinkedAt(j));
        assert was[j] == p <==> j == i - 1;
        assert was[j] == q <==> j == i + 1;
      }
      return false;
    }
  }
}
