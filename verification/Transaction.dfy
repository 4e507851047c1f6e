// The optimizer transaction: compile, prepare every region, reserve IDs,
// check the budget, stage the rewrite, lock, publish, commit.  Every exit
// gives back exactly what the callback holds, once.

module Transaction {
  import opened Registry
  import opened Words

  datatype Status = Applied | Declined | Failed | Unknown

  // What the backend answers for one region; present: the plan has a program
  // for it.
  datatype RegionAnswer = RegionAnswer(present: bool, status: Status, payload: Option<nat>)

  // What every call the callback makes answers, and what other threads do to
  // the registry before the reservation and, given the reservation, between
  // it and the commit.
  datatype Answers = Answers(
    claim: bool, compile: Status, plan: Option<seq<RegionAnswer>>, arrayMemory: bool,
    before: History<nat> -> seq<Op<nat>>, admitted: bool, memory: bool, wrappers: nat,
    budget: Status, stage: Status,
    between: (History<nat>, Range) -> seq<Op<nat>>, attached: bool, localsAdded: bool)

  // What the callback holds, and what has become of what it held.
  //   held        payloads by region
  //   ids         the reservation
  //   destroyed   how often each region's payload was destroyed
  //   published   the ID each published region was given
  //   locals      the function has the rewrite's locals
  datatype Books = Books(
    claim: bool, plan: bool, prepared: bool, held: map<nat, nat>, ids: Option<Range>, rewrite: bool, locked: bool,
    destroyed: multiset<nat>, published: map<nat, nat>, locals: bool, committed: bool, registry: History<nat>)

  // ------------------------------------------------------------------
  // Ownership: what each call needs and what it changes
  // ------------------------------------------------------------------

  function FreePlan(b: Books): Books
    requires b.plan
  {
    b.(plan := false)
  }

  function FreeArray(b: Books): Books
    requires b.prepared && b.held == map[]
  {
    b.(prepared := false)
  }

  function Receive(b: Books, region: nat, payload: Option<nat>): Books
    requires b.prepared && region !in b.held
  {
    if payload.Some? then b.(held := b.held[region := payload.value]) else b
  }

  // Destroying an entry without a payload does nothing.
  function DestroyEntry(b: Books, region: nat): Books
    requires b.prepared
  {
    if region in b.held then b.(held := b.held - {region}, destroyed := b.destroyed + multiset{region}) else b
  }

  function LockMutex(b: Books): Books
    requires !b.locked
  {
    b.(locked := true)
  }

  function UnlockMutex(b: Books): Books
    requires b.locked
  {
    b.(locked := false)
  }

  // The reservation consumes IDs with the mutex held.
  function TakeIds(b: Books, count: nat, admitted: bool, memory: bool, wrappers: nat): Books
    requires b.locked && b.ids.None?
  {
    var op := ReserveOp(count, admitted, memory, wrappers);
    b.(registry := Apply(b.registry, op), ids := Reserve(b.registry.table, count, admitted, memory, wrappers).1)
  }

  function GiveBackIds(b: Books): Books
    requires b.locked && b.ids.Some? && b.ids.value in b.registry.outstanding
  {
    b.(registry := Apply(b.registry, CancelOp(b.ids.value)), ids := None)
  }

  function StageRewrite(b: Books): Books
    requires !b.rewrite
  {
    b.(rewrite := true)
  }

  function FreeRewrite(b: Books): Books
    requires b.rewrite
  {
    b.(rewrite := false)
  }

  // Moves the payloads of regions 0 .. n - 1 into the registry, region i
  // under the i-th reserved ID.
  function PublishAll(b: Books, n: nat): Books
    requires b.locked && b.ids.Some? && b.ids.value.count == n && b.ids.value in b.registry.outstanding
    requires forall i: nat :: i in b.held <==> i < n
  {
    var r := b.ids.value;
    b.(registry := Apply(b.registry, PublishOp(r, PayloadsOf(b.held, n))),
       published := map i | i in b.held :: r.first + i,
       held := map[], ids := None)
  }

  function PayloadsOf(held: map<nat, nat>, n: nat): (r: seq<nat>)
    requires forall i: nat :: i in held <==> i < n
    ensures |r| == n && forall i :: 0 <= i < n ==> r[i] == held[i]
  {
    seq(n, (i: nat) requires i < n => held[i])
  }

  // The whole chain of new locals is linked at once.
  function AddLocals(b: Books): Books
    requires b.locked && b.rewrite && !b.locals && !b.committed
  {
    b.(locals := true)
  }

  function CommitRewrite(b: Books): Books
    requires b.locked && b.rewrite && b.locals && !b.committed
  {
    b.(committed := true)
  }

  // Other threads cancel and publish their own reservations only: their steps
  // are allowed, and this callback's reservation outlives them.
  ghost predicate Respectful(a: Answers) {
    && (forall h: History<nat> :: Replay(h, a.before(h)).Some?)
    && (forall h: History<nat>, r: Range :: r in h.outstanding ==>
         Replay(h, a.between(h, r)).Some? && r in Replay(h, a.between(h, r)).value.outstanding)
  }

  // ------------------------------------------------------------------
  // Conservation
  // ------------------------------------------------------------------

  predicate Good(r: RegionAnswer) { r.present && r.status.Applied? && r.payload.Some? }

  // The callback came to hold a payload for region i.
  predicate Obtained(regions: seq<RegionAnswer>, i: nat) {
    i < |regions| && regions[i].present && regions[i].payload.Some? && forall j :: 0 <= j < i ==> Good(regions[j])
  }

  function Times(b: Books, i: nat): nat {
    b.destroyed[i] + (if i in b.published then 1 else 0) + (if i in b.held then 1 else 0)
  }

  // Every payload obtained from the first n regions is held, or was
  // destroyed once, or was published once.
  ghost predicate Accounted(b: Books, regions: seq<RegionAnswer>, n: nat) {
    forall i: nat :: Times(b, i) == (if i < n && Obtained(regions, i) then 1 else 0)
  }

  // Nothing is held any more.
  predicate HandsEmpty(b: Books) {
    !b.claim && !b.plan && !b.prepared && b.held == map[] && b.ids.None? && !b.rewrite && !b.locked
  }

  function RegionsOf(a: Answers): seq<RegionAnswer> {
    if a.claim && a.compile.Applied? && a.plan.Some? && a.arrayMemory then a.plan.value else []
  }

  function Opening(registry: History<nat>): Books {
    Books(false, false, false, map[], None, false, false, multiset{}, map[], false, false, registry)
  }

  // ------------------------------------------------------------------
  // The callback
  // ------------------------------------------------------------------

  // Destroys the entries of the first count regions.
  method DestroyPrepared(b0: Books, regions: seq<RegionAnswer>, n: nat, count: nat) returns (b: Books)
    requires b0.prepared && Accounted(b0, regions, n)
    ensures Accounted(b, regions, n)
    ensures b == b0.(held := b.held, destroyed := b.destroyed)
    ensures forall i: nat :: i in b.held <==> i in b0.held && i >= count
  {
    hide Accounted;
    b := b0;
    for i := 0 to count
      invariant Accounted(b, regions, n)
      invariant b == b0.(held := b.held, destroyed := b.destroyed)
      invariant forall j: nat :: j in b.held <==> j in b0.held && j >= i
    {
      EntryDestroyed(b, regions, i, n);
      b := DestroyEntry(b, i);
    }
  }

  // Gives back the payloads, the array and the plan.
  method Abandon(b0: Books, regions: seq<RegionAnswer>, n: nat, count: nat) returns (b: Books)
    requires b0.prepared && b0.plan && Accounted(b0, regions, n)
    requires forall i: nat :: i in b0.held ==> i < count
    ensures Accounted(b, regions, n)
    ensures b == b0.(held := map[], destroyed := b.destroyed, prepared := false, plan := false)
  {
    b := DestroyPrepared(b0, regions, n, count);
    assert b.held == map[];
    ghost var was := b;
    b := FreeArray(b);
    b := FreePlan(b);
    SameTimes(was, b, regions, n);
  }

  // The first region that is not good was declined by the backend.
  ghost predicate FirstRefusalDeclined(regions: seq<RegionAnswer>) {
    exists i :: 0 <= i < |regions| && regions[i].present && regions[i].status == Declined && forall j :: 0 <= j < i ==> Good(regions[j])
  }

  // No other region is the first that is not good.
  lemma FirstRefusal(regions: seq<RegionAnswer>, i: nat)
    requires i < |regions| && !Good(regions[i]) && forall j :: 0 <= j < i ==> Good(regions[j])
    ensures FirstRefusalDeclined(regions) <==> regions[i].present && regions[i].status == Declined
  {
    if FirstRefusalDeclined(regions) {
      var k :| 0 <= k < |regions| && regions[k].present && regions[k].status == Declined && forall j :: 0 <= j < k ==> Good(regions[j]);
      assert !(k < i) && !(i < k);
    }
  }

  // The prepare loop.  None: every region was prepared; otherwise everything
  // was given back and the callback returns the value.
  method PrepareRegions(b0: Books, regions: seq<RegionAnswer>) returns (b: Books, exit: Option<bool>)
    requires b0.prepared && b0.plan && b0.held == map[] && Accounted(b0, regions, 0)
    ensures Accounted(b, regions, |regions|)
    ensures exit.None? <==> AllGood(regions)
    ensures exit.None? ==> b == b0.(held := b.held) && forall i: nat :: i in b.held <==> i < |regions|
    ensures exit.None? ==> forall i :: 0 <= i < |regions| ==> b.held[i] == regions[i].payload.value
    ensures exit == Some(true) <==> FirstRefusalDeclined(regions)
    ensures exit.Some? ==> b == b0.(held := map[], destroyed := b.destroyed, prepared := false, plan := false)
  {
    b, exit := b0, None;
    for i := 0 to |regions|
      invariant exit.None? && Accounted(b, regions, i) && b == b0.(held := b.held)
      invariant forall j :: 0 <= j < i ==> Good(regions[j])
      invariant forall j: nat :: j in b.held <==> j < i
      invariant forall j :: 0 <= j < i ==> b.held[j] == regions[j].payload.value
    {
      var answer := regions[i];
      if !Good(answer) { FirstRefusal(regions, i); }
      if !answer.present {
        SkipFrom(b, regions, i);
        b := Abandon(b, regions, |regions|, i);
        return b, Some(false);
      }
      ghost var was := b;
      b := Receive(b, i, answer.payload);
      ReceiveAccounts(was, regions, i);
      if answer.status.Applied? && answer.payload.Some? { continue; }
      b, exit := Refuse(b, regions, i);
      return;
    }
  }

  // Region i was not prepared: its payload, if any, goes first, then those of
  // the regions before it.
  method Refuse(b0: Books, regions: seq<RegionAnswer>, i: nat) returns (b: Books, exit: Option<bool>)
    requires b0.prepared && b0.plan && Accounted(b0, regions, i + 1)
    requires i < |regions| && regions[i].present && !Good(regions[i]) && forall j: nat :: j in b0.held ==> j <= i
    ensures Accounted(b, regions, |regions|)
    ensures exit == Some(regions[i].status.Declined?)
    ensures b == b0.(held := map[], destroyed := b.destroyed, prepared := false, plan := false)
  {
    hide Accounted, Obtained, Times;
    SkipFrom(b0, regions, i + 1);
    var answer := regions[i];
    if answer.status.Applied? {
      b := Abandon(b0, regions, |regions|, i + 1);
      return b, Some(false);
    }
    b := DestroyEntry(b0, i);
    EntryDestroyed(b0, regions, i, |regions|);
    b := Abandon(b, regions, |regions|, i);
    return b, Some(answer.status.Declined?);
  }

  lemma EntryDestroyed(b: Books, regions: seq<RegionAnswer>, i: nat, n: nat)
    requires b.prepared && Accounted(b, regions, n)
    ensures Accounted(DestroyEntry(b, i), regions, n)
  {
    hide Times, DestroyEntry, Obtained;
    forall j: nat ensures Times(DestroyEntry(b, i), j) == Times(b, j) {
      TimesDestroyed(b, i, j);
    }
  }

  lemma SameTimes(a: Books, b: Books, regions: seq<RegionAnswer>, n: nat)
    requires Accounted(a, regions, n)
    requires a.held.Keys == b.held.Keys && a.destroyed == b.destroyed && a.published == b.published
    ensures Accounted(b, regions, n)
  {
    forall i: nat ensures Times(b, i) == (if i < n && Obtained(regions, i) then 1 else 0) {
      assert Times(a, i) == Times(b, i);
    }
  }

  lemma TimesReceived(b: Books, i: nat, payload: Option<nat>, j: nat)
    requires b.prepared && i !in b.held
    ensures Times(Receive(b, i, payload), j) == Times(b, j) + (if j == i && payload.Some? then 1 else 0)
  {
  }

  lemma TimesDestroyed(b: Books, i: nat, j: nat)
    requires b.prepared
    ensures Times(DestroyEntry(b, i), j) == Times(b, j)
  {
  }

  lemma ReceiveAccounts(b: Books, regions: seq<RegionAnswer>, i: nat)
    requires b.prepared && i < |regions| && i !in b.held && regions[i].present
    requires Accounted(b, regions, i) && forall j :: 0 <= j < i ==> Good(regions[j])
    ensures Accounted(Receive(b, i, regions[i].payload), regions, i + 1)
  {
    hide Times, Receive;
    var next := Receive(b, i, regions[i].payload);
    forall j: nat ensures Times(next, j) == (if j < i + 1 && Obtained(regions, j) then 1 else 0) {
      TimesReceived(b, i, regions[i].payload, j);
    }
  }

  // Past a region that is not good nothing is obtained.
  lemma SkipFrom(b: Books, regions: seq<RegionAnswer>, n: nat)
    requires Accounted(b, regions, n) && n <= |regions|
    requires (n < |regions| && !regions[n].present) || exists j :: 0 <= j < n && !Good(regions[j])
    ensures Accounted(b, regions, |regions|)
  {
    forall i: nat ensures Times(b, i) == (if i < |regions| && Obtained(regions, i) then 1 else 0) {
      assert Times(b, i) == (if i < n && Obtained(regions, i) then 1 else 0);
    }
  }

  // Everything the callback may not do to a registry it shares: it leaves no
  // reservation behind, and publishes nothing unless it commits.
  ghost predicate Settled(b: Books, start: History<nat>, own: Option<Range>) {
    && Consistent(b.registry) && Later(start, b.registry)
    && (own.Some? ==> own.value in b.registry.granted && own.value !in b.registry.outstanding)
    && (own.Some? && !b.committed ==> forall id: nat :: own.value.Has(id) ==> Lookup(b.registry.table, id).None?)
  }

  // The other threads' steps between two of the callback's sections.
  method Interleave(b0: Books, ops: seq<Op<nat>>, ghost start: History<nat>) returns (b: Books)
    requires !b0.locked && Replay(b0.registry, ops).Some? && Consistent(b0.registry) && Later(start, b0.registry)
    ensures b == b0.(registry := Replay(b0.registry, ops).value) && Consistent(b.registry) && Later(start, b.registry)
  {
    hide Consistent, Later;
    ReplayKeeps(b0.registry, ops);
    LaterAfter(start, b0.registry, Replay(b0.registry, ops).value);
    b := b0.(registry := Replay(b0.registry, ops).value);
  }

  // IDs can be had for count programs: none passes the largest int, and the
  // table and every wrapper can be allocated.
  ghost predicate CanReserve(t: Table<nat>, count: nat, admitted: bool, memory: bool, wrappers: nat) {
    && count > 0 && admitted && 1 <= t.next && t.next + count - 1 <= 0x7FFF_FFFF
    && (t.next + count <= t.capacity || memory) && wrappers >= count
  }

  // Locks, reserves, unlocks.
  method ReserveIds(b0: Books, count: nat, admitted: bool, memory: bool, wrappers: nat, ghost start: History<nat>) returns (b: Books)
    requires !b0.locked && b0.ids.None? && Consistent(b0.registry) && Later(start, b0.registry)
    ensures b == b0.(registry := b.registry, ids := b.ids) && Consistent(b.registry) && Later(start, b.registry)
    ensures b.ids.Some? ==> b.ids.value in b.registry.outstanding && b.ids.value.count == count
    ensures b.ids == if CanReserve(b0.registry.table, count, admitted, memory, wrappers) then Some(Range(b0.registry.table.next, count)) else None
    ensures b.registry == Apply(b0.registry, ReserveOp(count, admitted, memory, wrappers))
  {
    hide Consistent, Later;
    ReserveExact(b0.registry.table, count, admitted, memory, wrappers);
    b := LockMutex(b0);
    b := TakeIds(b, count, admitted, memory, wrappers);
    b := UnlockMutex(b);
    ReserveStep(b0.registry, count, admitted, memory, wrappers);
    LaterAfter(start, b0.registry, b.registry);
  }

  // Locks, gives the IDs back, unlocks.
  method CancelIds(b0: Books, ghost start: History<nat>) returns (b: Books)
    requires !b0.locked && b0.ids.Some? && b0.ids.value in b0.registry.outstanding && !b0.committed
    requires Consistent(b0.registry) && Later(start, b0.registry)
    ensures b == b0.(registry := b.registry, ids := None) && Settled(b, start, b0.ids)
  {
    b := LockMutex(b0);
    b := GiveBackIds(b);
    b := UnlockMutex(b);
    CancelStep(b0.registry, b0.ids.value);
    LaterAfter(start, b0.registry, b.registry);
  }

  // Program i is published under the i-th ID of the range.
  ghost predicate PublishedUnder(b: Books, regions: seq<RegionAnswer>, r: Range) {
    forall i :: 0 <= i < |regions| ==>
      && i in b.published && b.published[i] == r.first + i
      && regions[i].payload.Some? && Lookup(b.registry.table, r.first + i) == Some(regions[i].payload.value)
  }

  // Publishing and committing under the lock accounts for every payload.
  lemma PublishSettles(ready: Books, regions: seq<RegionAnswer>, start: History<nat>)
    requires ready.locked && ready.rewrite && ready.locals && !ready.committed && Accounted(ready, regions, |regions|) && ready.published == map[]
    requires Consistent(ready.registry) && Later(start, ready.registry)
    requires ready.ids.Some? && ready.ids.value in ready.registry.outstanding && ready.ids.value.count == |regions|
    requires forall i: nat :: i in ready.held <==> i < |regions|
    requires forall i :: 0 <= i < |regions| ==> regions[i].payload.Some? && ready.held[i] == regions[i].payload.value
    ensures var b := CommitRewrite(PublishAll(ready, |regions|));
      Accounted(b, regions, |regions|) && Settled(b, start, ready.ids) && PublishedUnder(b, regions, ready.ids.value)
  {
    hide Consistent, Later, Lookup, Publish;
    var b := CommitRewrite(PublishAll(ready, |regions|));
    PublishStep(ready.registry, ready.ids.value, PayloadsOf(ready.held, |regions|));
    LaterAfter(start, ready.registry, b.registry);
    OutstandingGranted(ready.registry, ready.ids.value);
    forall i: nat ensures Times(b, i) == (if i < |regions| && Obtained(regions, i) then 1 else 0) {
      assert Times(ready, i) == (if i < |regions| && Obtained(regions, i) then 1 else 0);
    }
  }

  lemma OutstandingGranted(h: History<nat>, r: Range)
    requires Consistent(h) && r in h.outstanding
    ensures r in h.granted
  {
  }

  // Cancels the reservation, if one is held, and abandons the rest.
  method GiveUp(b0: Books, regions: seq<RegionAnswer>, ghost start: History<nat>) returns (b: Books)
    requires b0.prepared && b0.plan && !b0.locked && !b0.rewrite && !b0.committed && Accounted(b0, regions, |regions|)
    requires forall i: nat :: i in b0.held ==> i < |regions|
    requires b0.ids.Some? && b0.ids.value in b0.registry.outstanding
    requires Consistent(b0.registry) && Later(start, b0.registry)
    ensures Accounted(b, regions, |regions|) && Settled(b, start, b0.ids)
    ensures b == b0.(held := map[], destroyed := b.destroyed, prepared := false, plan := false, registry := b.registry, ids := None)
  {
    hide Consistent, Later;
    b := CancelIds(b0, start);
    SameTimes(b0, b, regions, |regions|);
    b := Abandon(b, regions, |regions|, |regions|);
  }

  // Everything a commit needs, with the mutex held or not.
  ghost predicate Committable(b: Books, regions: seq<RegionAnswer>, start: History<nat>) {
    && b.prepared && b.plan && b.rewrite && !b.locals && !b.committed && Accounted(b, regions, |regions|) && b.published == map[]
    && b.ids.Some? && b.ids.value in b.registry.outstanding && b.ids.value.count == |regions|
    && Consistent(b.registry) && Later(start, b.registry)
    && (forall i: nat :: i in b.held <==> i < |regions|)
    && (forall i :: 0 <= i < |regions| ==> regions[i].payload.Some? && b.held[i] == regions[i].payload.value)
  }

  // Links the locals, publishes, commits and unlocks.
  method PublishAndCommit(b0: Books, regions: seq<RegionAnswer>, ghost start: History<nat>) returns (b: Books)
    requires b0.locked && Committable(b0, regions, start)
    ensures Accounted(b, regions, |regions|) && Settled(b, start, b0.ids) && PublishedUnder(b, regions, b0.ids.value)
    ensures b == b0.(
      held := map[], ids := None, locked := false, locals := true, committed := true, published := b.published, registry := b.registry)
  {
    hide Accounted, Settled, Apply, PayloadsOf, Consistent, Later, Lookup, PublishedUnder;
    b := AddLocals(b0);
    SameTimes(b0, b, regions, |regions|);
    PublishSettles(b, regions, start);
    b := PublishAll(b, |regions|);
    b := CommitRewrite(b);
    ghost var done := b;
    b := UnlockMutex(b);
    Unlocked(done, b, regions, start, b0.ids);
  }

  lemma Unlocked(a: Books, b: Books, regions: seq<RegionAnswer>, start: History<nat>, own: Option<Range>)
    requires Accounted(a, regions, |regions|) && Settled(a, start, own) && own.Some? && PublishedUnder(a, regions, own.value)
    requires a.held == b.held && a.destroyed == b.destroyed && a.published == b.published
    requires a.registry == b.registry && a.committed == b.committed
    ensures Accounted(b, regions, |regions|) && Settled(b, start, own) && PublishedUnder(b, regions, own.value)
  {
    hide Consistent, Later, Lookup;
    SameTimes(a, b, regions, |regions|);
  }

  // The commit: lock, revalidate, add locals, publish, commit, unlock.
  method CommitPhase(b0: Books, a: Answers, regions: seq<RegionAnswer>, ghost start: History<nat>) returns (b: Books, success: bool)
    requires !b0.locked && Committable(b0, regions, start)
    ensures Accounted(b, regions, |regions|) && Settled(b, start, b0.ids) && (success <==> b.committed)
    ensures b == Books(b0.claim, false, false, map[], None, false, false, b.destroyed, b.published, b.committed, b.committed, b.registry)
    ensures b.committed <==> a.attached && a.localsAdded
    ensures b.committed ==> PublishedUnder(b, regions, b0.ids.value)
    ensures !b.committed ==> b.published == map[]
  {
    hide Consistent, Later, Accounted, Settled, PublishedUnder;
    b := LockMutex(b0);
    if !a.attached || !a.localsAdded {
      b := UnlockMutex(b);
      b := FreeRewrite(b);
      SameTimes(b0, b, regions, |regions|);
      b := GiveUp(b, regions, start);
      return b, false;
    }
    SameTimes(b0, b, regions, |regions|);
    b := PublishAndCommit(b, regions, start);
    b := Release(b, regions, start, b0.ids);
    return b, true;
  }

  // What is left to free after a commit.
  method Release(b0: Books, regions: seq<RegionAnswer>, ghost start: History<nat>, ghost own: Option<Range>) returns (b: Books)
    requires b0.rewrite && b0.prepared && b0.plan && b0.held == map[] && own.Some?
    requires Accounted(b0, regions, |regions|) && Settled(b0, start, own) && PublishedUnder(b0, regions, own.value)
    ensures Accounted(b, regions, |regions|) && Settled(b, start, own) && PublishedUnder(b, regions, own.value)
    ensures b == b0.(rewrite := false, prepared := false, plan := false)
  {
    b := FreeRewrite(b0);
    b := FreeArray(b);
    b := FreePlan(b);
    hide Accounted, Settled, Consistent, Later, Lookup, PublishedUnder;
    Unlocked(b0, b, regions, start, own);
  }

  predicate AllGood(regions: seq<RegionAnswer>) { forall i :: 0 <= i < |regions| ==> Good(regions[i]) }

  // Everything after the reservation answers for a commit.
  predicate Commits(a: Answers) { a.budget.Applied? && a.stage.Applied? && a.attached && a.localsAdded }

  lemma NothingReserved(b: Books, start: History<nat>)
    requires Consistent(b.registry) && Later(start, b.registry)
    ensures Settled(b, start, None)
  {
  }

  // Prepared regions reserve, pass the budget, stage and commit.
  method ReserveAndCommit(b0: Books, a: Answers, regions: seq<RegionAnswer>, ghost start: History<nat>)
    returns (b: Books, success: bool, ghost own: Option<Range>)
    requires b0.prepared && b0.plan && !b0.rewrite && !b0.locked && !b0.locals && !b0.committed && b0.ids.None? && b0.published == map[]
    requires Accounted(b0, regions, |regions|) && Respectful(a)
    requires Consistent(b0.registry) && Later(start, b0.registry)
    requires forall i: nat :: i in b0.held <==> i < |regions|
    requires forall i :: 0 <= i < |regions| ==> regions[i].payload.Some? && b0.held[i] == regions[i].payload.value
    ensures Accounted(b, regions, |regions|) && Settled(b, start, own)
    ensures own.Some? <==> CanReserve(Replay(b0.registry, a.before(b0.registry)).value.table, |regions|, a.admitted, a.memory, a.wrappers)
    ensures b == Books(b0.claim, false, false, map[], None, false, false, b.destroyed, b.published, b.committed, b.committed, b.registry)
    ensures b.committed <==> own.Some? && Commits(a)
    ensures b.committed ==> own.value.count == |regions| && PublishedUnder(b, regions, own.value)
    ensures !b.committed ==> b.published == map[]
    ensures success <==> b.committed || (own.Some? && (a.budget == Declined || (a.budget == Applied && a.stage == Declined)))
  {
    hide Consistent, Later, Accounted, CanReserve, Apply, PublishedUnder, Settled;
    b := Interleave(b0, a.before(b0.registry), start);
    b := ReserveIds(b, |regions|, a.admitted, a.memory, a.wrappers, start);
    own := b.ids;
    SameTimes(b0, b, regions, |regions|);
    if b.ids.None? {
      b := Abandon(b, regions, |regions|, |regions|);
      NothingReserved(b, start);
      return b, false, own;
    }
    if !a.budget.Applied? || !a.stage.Applied? {
      b := GiveUp(b, regions, start);
      return b, (if a.budget.Applied? then a.stage.Declined? else a.budget.Declined?), own;
    }
    b := StageRewrite(b);
    b := Interleave(b, a.between(b.registry, b.ids.value), start);
    SameTimes(b0, b, regions, |regions|);
    b, success := CommitPhase(b, a, regions, start);
  }

  // The table as the callback finds it when it reserves.
  ghost function TableFound(registry: History<nat>, a: Answers): Table<nat>
    requires Respectful(a)
  {
    Replay(registry, a.before(registry)).value.table
  }

  // One function optimized under a claim.  own: the range reserved, if one was.
  method OptimizeClaimed(b0: Books, a: Answers) returns (b: Books, success: bool, ghost own: Option<Range>)
    requires b0 == Opening(b0.registry).(claim := true) && a.claim && Consistent(b0.registry) && Respectful(a)
    ensures HandsEmpty(b.(claim := false)) && b.claim && (b.locals <==> b.committed)
    ensures Accounted(b, RegionsOf(a), |RegionsOf(a)|) && Settled(b, b0.registry, own)
    ensures own.Some? <==>
      && RegionsOf(a) != [] && AllGood(RegionsOf(a))
      && CanReserve(TableFound(b0.registry, a), |RegionsOf(a)|, a.admitted, a.memory, a.wrappers)
    ensures b.committed <==> own.Some? && Commits(a)
    ensures b.committed ==> own.value.count == |RegionsOf(a)| && PublishedUnder(b, RegionsOf(a), own.value)
    ensures !b.committed ==> b.published == map[]
    ensures success <==>
      || b.committed || a.compile == Declined || FirstRefusalDeclined(RegionsOf(a))
      || (own.Some? && (a.budget == Declined || (a.budget == Applied && a.stage == Declined)))
  {
    hide Consistent, Later, CanReserve, TableFound;
    b, own := b0, None;
    LaterSelf(b0.registry);
    if a.plan.Some? { b := b.(plan := true); }
    if !a.compile.Applied? || a.plan.None? || |a.plan.value| == 0 {
      if a.plan.Some? { b := FreePlan(b); }
      return b, a.compile.Declined?, own;
    }
    if !a.arrayMemory {
      b := FreePlan(b);
      return b, false, own;
    }
    b := b.(prepared := true);
    var regions := a.plan.value;
    assert RegionsOf(a) == regions;
    var exit: Option<bool>;
    b, exit := PrepareRegions(b, regions);
    if exit.Some? { return b, exit.value, own; }
    NoRefusal(regions);
    b, success, own := ReserveAndCommit(b, a, regions, b0.registry);
    FoundTable(b0.registry, a);
  }

  lemma NoRefusal(regions: seq<RegionAnswer>)
    requires AllGood(regions)
    ensures !FirstRefusalDeclined(regions)
  {
  }

  lemma FoundTable(registry: History<nat>, a: Answers)
    requires Respectful(a)
    ensures TableFound(registry, a) == Replay(registry, a.before(registry)).value.table
  {
  }

  // The callback: it claims the context for its whole run, and every exit
  // leaves it holding nothing, every payload destroyed once or published
  // once, and its reservation given back or published whole.  The rewrite is
  // committed exactly when every step answers for it and the registry, as
  // the other threads left it, has IDs to give; the callback succeeds
  // exactly when it commits or the first step that stops it declined.
  method OptimizeCallback(registry: History<nat>, a: Answers) returns (b: Books, success: bool, ghost own: Option<Range>)
    requires Consistent(registry) && Respectful(a)
    ensures HandsEmpty(b) && (b.locals <==> b.committed)
    ensures Accounted(b, RegionsOf(a), |RegionsOf(a)|) && Settled(b, registry, own)
    ensures b.committed <==>
      && a.claim && a.compile == Applied && a.plan.Some? && a.plan.value != [] && a.arrayMemory
      && (forall i :: 0 <= i < |a.plan.value| ==>
           a.plan.value[i].present && a.plan.value[i].status == Applied && a.plan.value[i].payload.Some?)
      && CanReserve(TableFound(registry, a), |a.plan.value|, a.admitted, a.memory, a.wrappers)
      && a.budget == Applied && a.stage == Applied && a.attached && a.localsAdded
    ensures b.committed ==> own.Some? && own.value.count == |RegionsOf(a)| && PublishedUnder(b, RegionsOf(a), own.value)
    ensures !b.committed ==> b.published == map[]
    ensures success <==> b.committed || StopsDeclined(registry, a)
  {
    hide Consistent, Later, CanReserve, TableFound, FirstRefusalDeclined;
    b, own := Opening(registry), None;
    if !a.claim {
      LaterSelf(registry);
      return b, false, own;
    }
    b := b.(claim := true);
    b, success, own := OptimizeClaimed(b, a);
    ghost var was := b;
    b := b.(claim := false);
    SameTimes(was, b, RegionsOf(a), |RegionsOf(a)|);
    DeclinesMean(registry, a);
  }

  // The step that stops the run declined: the compiler, the backend at the
  // first region it did not prepare, the budget or the staging.
  ghost predicate StopsDeclined(registry: History<nat>, a: Answers)
    requires Respectful(a)
  {
    a.claim && (
      || a.compile == Declined
      || (a.compile == Applied && a.plan.Some? && a.plan.value != [] && a.arrayMemory && (
           var regions := a.plan.value;
           || (exists i :: 0 <= i < |regions| && regions[i].present && regions[i].status == Declined && forall j :: 0 <= j < i ==> Good(regions[j]))
           || ((forall i :: 0 <= i < |regions| ==> Good(regions[i]))
               && CanReserve(TableFound(registry, a), |regions|, a.admitted, a.memory, a.wrappers)
               && (a.budget == Declined || (a.budget == Applied && a.stage == Declined))))))
  }

  lemma DeclinesMean(registry: History<nat>, a: Answers)
    requires a.claim && Respectful(a)
    ensures StopsDeclined(registry, a) <==>
      || a.compile == Declined || FirstRefusalDeclined(RegionsOf(a))
      || (RegionsOf(a) != [] && AllGood(RegionsOf(a)) && CanReserve(TableFound(registry, a), |RegionsOf(a)|, a.admitted, a.memory, a.wrappers)
          && (a.budget == Declined || (a.budget == Applied && a.stage == Declined)))
  {
    hide CanReserve, TableFound;
  }
}
