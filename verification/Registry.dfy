// The program registry: stable IDs are reserved before anything is
// published, and a growable table maps published IDs to their entries.

module Registry {
  import opened Words

  newtype uint32 = x: int | 0 <= x < 0x1_0000_0000

  // ------------------------------------------------------------------
  // Abstract state and operations
  // ------------------------------------------------------------------

  // The IDs first .. first + count - 1.
  datatype Range = Range(first: nat, count: nat) {
    predicate Has(id: nat) { first <= id < first + count }
  }

  // slots maps published IDs to their entries.
  datatype Table<E> = Table(next: nat, capacity: nat, slots: map<nat, E>)

  predicate RangeFits(next: nat, count: nat) { 1 <= next <= INT_MAX && count <= INT_MAX - next + 1 }

  // Doubles from at least eight until the request fits, or takes the request
  // itself rather than double past the largest int.
  function Doubled(capacity: nat, required: nat): nat
    requires 0 < capacity
    decreases required - capacity
  {
    if capacity >= required then capacity
    else if capacity > INT_MAX / 2 then required
    else Doubled(2 * capacity, required)
  }

  function GrownCapacity(capacity: nat, required: nat): nat {
    if required <= capacity then capacity else Doubled(if capacity < 8 then 8 else capacity, required)
  }

  // admitted: the context is attached and not shutting down; memory: the
  // table could be grown if it had to be; wrappers: how many entry
  // allocations would succeed.
  function Reserve<E>(t: Table<E>, count: nat, admitted: bool, memory: bool, wrappers: nat): (Table<E>, Option<Range>) {
    if count == 0 || !admitted || !RangeFits(t.next, count) then (t, None)
    else
      var required := t.next + count;
      if required > t.capacity && !memory then (t, None)
      else
        var grown := t.(capacity := GrownCapacity(t.capacity, required));
        if wrappers < count then (grown, None)
        else (grown.(next := t.next + count), Some(Range(t.next, count)))
  }

  function IdsOf(r: Range): set<nat> { set id: nat | id < r.first + r.count && r.Has(id) }

  function Publish<E>(t: Table<E>, r: Range, entries: seq<E>): Table<E>
    requires |entries| == r.count
  {
    t.(slots := map id: nat | id in t.slots.Keys + IdsOf(r) ::
      if r.Has(id) then entries[id - r.first] else t.slots[id])
  }

  function Lookup<E>(t: Table<E>, id: nat): Option<E> {
    if id == 0 || id >= t.capacity || id !in t.slots then None else Some(t.slots[id])
  }

  // The slot checks made when a commit is locked.
  ghost predicate SlotsFree<E>(t: Table<E>, r: Range) {
    r.count != 0 && forall id: nat :: r.Has(id) ==> id != 0 && id < t.capacity && id !in t.slots
  }

  lemma {:induction false} DoubledFits(capacity: nat, required: nat)
    requires 0 < capacity && required <= 0x8000_0000
    ensures var c := Doubled(capacity, required);
      c >= required && c >= capacity && (capacity <= 0xFFFF_FFFF ==> c <= 0xFFFF_FFFF)
      && (c == capacity || c < 2 * required)
    decreases required - capacity
  {
    if capacity < required && capacity <= INT_MAX / 2 {
      DoubledFits(2 * capacity, required);
    }
  }

  // A reservation, in numbers: it gives the next IDs exactly when none
  // passes the largest int and the table and every wrapper can be had.
  lemma ReserveExact<E>(t: Table<E>, count: nat, admitted: bool, memory: bool, wrappers: nat)
    ensures var (after, r) := Reserve(t, count, admitted, memory, wrappers);
      var numbered := count > 0 && admitted && 1 <= t.next && t.next + count - 1 <= 0x7FFF_FFFF;
      var granted := numbered && (t.next + count <= t.capacity || memory) && count <= wrappers;
      && r == (if granted then Some(Range(t.next, count)) else None)
      && after.next == (if granted then t.next + count else t.next) && after.slots == t.slots
      && (numbered && memory && t.next + count > t.capacity ==> after.capacity >= t.next + count)
      && (!(numbered && memory && t.next + count > t.capacity) ==> after.capacity == t.capacity)
  {
    if t.next + count <= 0x8000_0000 {
      DoubledFits(if t.capacity < 8 then 8 else t.capacity, t.next + count);
    }
  }

  // The table doubles the fewest times that reach the request, except that
  // it never doubles past the largest int: then it takes the request itself.
  lemma {:induction false} DoublingExact(capacity: nat, required: nat) returns (k: nat)
    requires 0 < capacity
    ensures forall j: nat :: j < k ==> capacity * Power2(j) < required && capacity * Power2(j) <= 0x3FFF_FFFF
    ensures Doubled(capacity, required) ==
      if capacity * Power2(k) >= required then capacity * Power2(k) else required
    ensures capacity * Power2(k) < required ==> capacity * Power2(k) > 0x3FFF_FFFF
    decreases required - capacity
  {
    k := 0;
    if capacity < required && capacity <= INT_MAX / 2 {
      var m := DoublingExact(2 * capacity, required);
      k := m + 1;
      forall j: nat | j < k ensures capacity * Power2(j) < required && capacity * Power2(j) <= 0x3FFF_FFFF {
        if j > 0 {
          DoubleStep(capacity, j - 1);
        }
      }
      DoubleStep(capacity, m);
    }
  }

  // A table that has to grow starts over from at least eight entries.
  lemma GrownExact(capacity: nat, required: nat) returns (k: nat)
    requires capacity < required
    ensures var start := if capacity < 8 then 8 else capacity;
      && (forall j: nat :: j < k ==> start * Power2(j) < required && start * Power2(j) <= 0x3FFF_FFFF)
      && (start * Power2(k) < required ==> start * Power2(k) > 0x3FFF_FFFF)
      && GrownCapacity(capacity, required) == if start * Power2(k) >= required then start * Power2(k) else required
  {
    k := DoublingExact(if capacity < 8 then 8 else capacity, required);
  }

  lemma DoubleStep(capacity: nat, j: nat)
    ensures capacity * Power2(j + 1) == 2 * capacity * Power2(j)
  {
  }

  // ------------------------------------------------------------------
  // Histories
  // ------------------------------------------------------------------

  datatype Op<E> =
    | ReserveOp(count: nat, admitted: bool, memory: bool, wrappers: nat)
    | CancelOp(cancelled: Range)
    | PublishOp(published: Range, entries: seq<E>)

  // outstanding: granted and neither cancelled nor published.
  datatype History<E> = History(table: Table<E>, granted: seq<Range>, outstanding: set<Range>)

  function Fresh<E>(): History<E> { History(Table(1, 0, map[]), [], {}) }

  // A reservation is cancelled or published once, with one program an ID.
  predicate Allowed<E>(h: History<E>, op: Op<E>) {
    match op
    case ReserveOp(_, _, _, _) => true
    case CancelOp(r) => r in h.outstanding
    case PublishOp(r, entries) => r in h.outstanding && |entries| == r.count
  }

  function Apply<E>(h: History<E>, op: Op<E>): History<E>
    requires Allowed(h, op)
  {
    match op
    case ReserveOp(count, admitted, memory, wrappers) =>
      (match Reserve(h.table, count, admitted, memory, wrappers)
       case (t, None) => h.(table := t)
       case (t, Some(r)) => History(t, h.granted + [r], h.outstanding + {r}))
    case CancelOp(r) => h.(outstanding := h.outstanding - {r})
    case PublishOp(r, entries) => h.(table := Publish(h.table, r, entries), outstanding := h.outstanding - {r})
  }

  function Replay<E>(h: History<E>, ops: seq<Op<E>>): Option<History<E>>
    decreases |ops|
  {
    if ops == [] then Some(h)
    else
      match Replay(h, ops[..|ops| - 1])
      case None => None
      case Some(before) => if Allowed(before, ops[|ops| - 1]) then Some(Apply(before, ops[|ops| - 1])) else None
  }

  // Counters and ranges of one history.
  ghost predicate Ranged<E>(h: History<E>) {
    && 1 <= h.table.next <= INT_MAX + 1
    && h.table.capacity <= 0xFFFF_FFFF
    && (h.granted != [] ==> h.table.next <= h.table.capacity)
    && (forall i :: 0 <= i < |h.granted| ==>
         h.granted[i].count > 0 && 1 <= h.granted[i].first && h.granted[i].first + h.granted[i].count <= h.table.next)
    && (forall i, j :: 0 <= i < j < |h.granted| ==> h.granted[i].first + h.granted[i].count <= h.granted[j].first)
  }

  // A slot is used exactly by a range no longer outstanding.
  ghost predicate Slotted<E>(h: History<E>) {
    && (forall r :: r in h.outstanding ==> r in h.granted)
    && (forall r, id: nat :: r in h.outstanding && r.Has(id) ==> id !in h.table.slots)
    && (forall id :: id in h.table.slots ==> Settled(h, id))
  }

  ghost predicate Settled<E>(h: History<E>, id: nat) {
    exists r :: r in h.granted && r !in h.outstanding && r.Has(id)
  }

  ghost predicate Consistent<E>(h: History<E>) { Ranged(h) && Slotted(h) }

  // What no later step undoes: published entries, and that a range given
  // back or published is never outstanding again.
  ghost predicate Later<E>(a: History<E>, b: History<E>) {
    && a.table.next <= b.table.next && a.table.capacity <= b.table.capacity
    && a.granted <= b.granted
    && (forall id: nat :: Lookup(a.table, id).Some? ==> Lookup(b.table, id) == Lookup(a.table, id))
    && (forall r :: r in a.granted && r !in a.outstanding ==> r !in b.outstanding)
    && (forall r, id: nat :: r in a.granted && r !in a.outstanding && r.Has(id) && id !in a.table.slots ==> id !in b.table.slots)
  }

  lemma SameRange<E>(h: History<E>, r: Range, s: Range, id: nat)
    requires Ranged(h) && r in h.granted && s in h.granted && r.Has(id) && s.Has(id)
    ensures r == s
  {
    var i :| 0 <= i < |h.granted| && h.granted[i] == r;
    var j :| 0 <= j < |h.granted| && h.granted[j] == s;
  }

  lemma SlotBelow<E>(h: History<E>, id: nat)
    requires Consistent(h) && id in h.table.slots
    ensures id < h.table.next
  {
    assert Settled(h, id);
    var r :| r in h.granted && r !in h.outstanding && r.Has(id);
    var i :| 0 <= i < |h.granted| && h.granted[i] == r;
  }

  // The table grows: nothing else changes.
  lemma GrowStep<E>(h: History<E>, capacity: nat)
    requires Consistent(h) && h.table.capacity <= capacity <= 0xFFFF_FFFF
    ensures var next := h.(table := h.table.(capacity := capacity)); Consistent(next) && Later(h, next)
  {
    var next := h.(table := h.table.(capacity := capacity));
    forall id | id in next.table.slots ensures Settled(next, id) {
      assert Settled(h, id);
    }
  }

  function Granting<E>(h: History<E>, count: nat): History<E> {
    var r := Range(h.table.next, count);
    History(h.table.(next := h.table.next + count), h.granted + [r], h.outstanding + {r})
  }

  ghost predicate CanGrant<E>(h: History<E>, count: nat) {
    count > 0 && RangeFits(h.table.next, count) && h.table.next + count <= h.table.capacity
  }

  lemma GrantRanged<E>(h: History<E>, count: nat)
    requires Ranged(h) && CanGrant(h, count)
    ensures Ranged(Granting(h, count)) && Range(h.table.next, count) !in h.granted
    ensures forall s :: s in Granting(h, count).granted <==> s in h.granted || s == Range(h.table.next, count)
  {
    var r := Range(h.table.next, count);
    assert Granting(h, count).granted[|h.granted|] == r;
    forall i | 0 <= i < |h.granted| ensures h.granted[i] != r && Granting(h, count).granted[i] == h.granted[i] {
    }
  }

  lemma SlotsBelow<E>(h: History<E>)
    requires Consistent(h)
    ensures Slotted(h) && forall id :: id in h.table.slots ==> id < h.table.next
  {
    forall id | id in h.table.slots ensures id < h.table.next {
      SlotBelow(h, id);
    }
  }

  lemma StillSettled<E>(h: History<E>, count: nat, id: nat)
    requires Settled(h, id) && Range(h.table.next, count) !in h.granted
    ensures Settled(Granting(h, count), id)
  {
    var s :| s in h.granted && s !in h.outstanding && s.Has(id);
    assert s in Granting(h, count).granted && s !in Granting(h, count).outstanding;
  }

  lemma GrantSlotted<E>(h: History<E>, count: nat)
    requires Consistent(h) && CanGrant(h, count)
    ensures Slotted(Granting(h, count))
  {
    hide Ranged, Consistent, Settled;
    SlotsBelow(h);
    ConsistentParts(h);
    GrantRanged(h, count);
    forall id | id in h.table.slots ensures Settled(Granting(h, count), id) {
      assert Settled(h, id);
      StillSettled(h, count, id);
    }
  }

  // The next IDs are granted.
  lemma GrantStep<E>(h: History<E>, count: nat)
    requires Consistent(h) && CanGrant(h, count)
    ensures Consistent(Granting(h, count)) && Later(h, Granting(h, count))
  {
    hide Slotted, Ranged, Settled;
    ConsistentParts(h);
    GrantRanged(h, count);
    GrantSlotted(h, count);
  }

  lemma ConsistentParts<E>(h: History<E>)
    requires Consistent(h)
    ensures Ranged(h) && forall r :: r in h.outstanding ==> r in h.granted
  {
  }

  lemma ReserveStep<E>(h: History<E>, count: nat, admitted: bool, memory: bool, wrappers: nat)
    requires Consistent(h)
    ensures var next := Apply(h, ReserveOp(count, admitted, memory, wrappers));
      Consistent(next) && Later(h, next)
  {
    hide Consistent, Later, Doubled;
    var required := h.table.next + count;
    CapacityBound(h);
    if count != 0 && admitted && RangeFits(h.table.next, count) && (required <= h.table.capacity || memory) {
      DoubledFits(if h.table.capacity < 8 then 8 else h.table.capacity, required);
      var grown := h.(table := h.table.(capacity := GrownCapacity(h.table.capacity, required)));
      GrowStep(h, grown.table.capacity);
      if wrappers >= count {
        GrantStep(grown, count);
        LaterAfter(h, grown, Apply(h, ReserveOp(count, admitted, memory, wrappers)));
      }
    } else {
      LaterSelf(h);
    }
  }

  lemma CapacityBound<E>(h: History<E>)
    requires Consistent(h)
    ensures h.table.capacity <= 0xFFFF_FFFF
  {
  }

  lemma CancelStep<E>(h: History<E>, r: Range)
    requires Consistent(h) && r in h.outstanding
    ensures var next := Apply(h, CancelOp(r)); Consistent(next) && Later(h, next)
  {
    var next := Apply(h, CancelOp(r));
    forall id | id in next.table.slots ensures Settled(next, id) {
      assert Settled(h, id);
      var s :| s in h.granted && s !in h.outstanding && s.Has(id);
      assert s in next.granted && s !in next.outstanding;
    }
  }

  lemma PublishSlotted<E>(h: History<E>, r: Range, entries: seq<E>)
    requires Consistent(h) && r in h.outstanding && |entries| == r.count
    ensures Slotted(Apply(h, PublishOp(r, entries)))
  {
    var next := Apply(h, PublishOp(r, entries));
    forall s, id: nat | s in next.outstanding && s.Has(id) ensures id !in next.table.slots {
      if r.Has(id) {
        SameRange(h, r, s, id);
      }
    }
    forall id | id in next.table.slots ensures Settled(next, id) {
      if r.Has(id) {
        assert r in next.granted && r !in next.outstanding;
      } else {
        assert Settled(h, id);
        var s :| s in h.granted && s !in h.outstanding && s.Has(id);
        assert s in next.granted && s !in next.outstanding;
      }
    }
  }

  lemma PublishStep<E>(h: History<E>, r: Range, entries: seq<E>)
    requires Consistent(h) && r in h.outstanding && |entries| == r.count
    ensures var next := Apply(h, PublishOp(r, entries)); Consistent(next) && Later(h, next)
    ensures var t := Apply(h, PublishOp(r, entries)).table;
      forall i :: 0 <= i < r.count ==> Lookup(t, r.first + i) == Some(entries[i])
  {
    hide Settled;
    var next := Apply(h, PublishOp(r, entries));
    PublishSlotted(h, r, entries);
    var k :| 0 <= k < |h.granted| && h.granted[k] == r;
    forall id: nat | Lookup(h.table, id).Some? ensures Lookup(next.table, id) == Lookup(h.table, id) {
      assert id in h.table.slots;
    }
    forall s, id: nat | s in h.granted && s !in h.outstanding && s.Has(id) && id !in h.table.slots
      ensures id !in next.table.slots
    {
      if r.Has(id) {
        SameRange(h, r, s, id);
      }
    }
  }

  lemma StepKeeps<E>(h: History<E>, op: Op<E>)
    requires Consistent(h) && Allowed(h, op)
    ensures Consistent(Apply(h, op)) && Later(h, Apply(h, op))
  {
    hide Consistent, Later, Apply;
    match op
    case ReserveOp(count, admitted, memory, wrappers) => ReserveStep(h, count, admitted, memory, wrappers);
    case CancelOp(r) => AllowedRange(h, op); CancelStep(h, r);
    case PublishOp(r, entries) => AllowedRange(h, op); PublishStep(h, r, entries);
  }

  lemma AllowedRange<E>(h: History<E>, op: Op<E>)
    requires Allowed(h, op)
    ensures op.CancelOp? ==> op.cancelled in h.outstanding
    ensures op.PublishOp? ==> op.published in h.outstanding && |op.entries| == op.published.count
  {
  }

  lemma LaterAfter<E>(a: History<E>, b: History<E>, c: History<E>)
    requires Later(a, b) && Later(b, c)
    ensures Later(a, c)
  {
    hide Lookup;
    forall r | r in a.granted ensures r in b.granted {
      var i :| 0 <= i < |a.granted| && a.granted[i] == r;
      assert b.granted[i] == r;
    }
  }

  lemma FreshConsistent<E>()
    ensures Consistent<E>(Fresh())
  {
  }

  lemma {:induction false} ReplayKeeps<E>(h: History<E>, ops: seq<Op<E>>)
    requires Consistent(h) && Replay(h, ops).Some?
    ensures Consistent(Replay(h, ops).value) && Later(h, Replay(h, ops).value)
    decreases |ops|
  {
    hide Consistent, Apply, Allowed, Later;
    if ops == [] {
      LaterSelf(h);
    } else {
      var before := Replay(h, ops[..|ops| - 1]).value;
      ReplayKeeps(h, ops[..|ops| - 1]);
      StepKeeps(before, ops[|ops| - 1]);
      LaterAfter(h, before, Replay(h, ops).value);
    }
  }

  lemma LaterSelf<E>(h: History<E>)
    requires Consistent(h)
    ensures Later(h, h)
  {
  }

  // In every history of reservations, cancellations and publications the
  // granted ranges are disjoint and within 1..INT_MAX, and the table covers
  // every granted ID without its capacity ever leaving 32 bits.
  lemma GrantedRanges<E>(ops: seq<Op<E>>, i: nat, j: nat)
    requires Replay(Fresh(), ops).Some?
    requires i < j < |Replay<E>(Fresh(), ops).value.granted|
    ensures var h := Replay(Fresh(), ops).value;
      var (r, s) := (h.granted[i], h.granted[j]);
      && (forall id: nat :: !(r.Has(id) && s.Has(id)))
      && (forall id: nat :: r.Has(id) || s.Has(id) ==> 1 <= id <= INT_MAX && id < h.table.capacity)
      && h.table.capacity <= 0xFFFF_FFFF
  {
    hide Replay;
    FreshConsistent<E>();
    ReplayKeeps(Fresh(), ops);
  }

  // A published ID keeps its entry for as long as the registry lives.
  lemma PublishedStable<E>(ops: seq<Op<E>>, more: seq<Op<E>>, id: nat)
    requires Replay(Fresh(), ops).Some? && Replay(Replay(Fresh(), ops).value, more).Some?
    requires Lookup(Replay<E>(Fresh(), ops).value.table, id).Some?
    ensures Lookup(Replay(Replay(Fresh(), ops).value, more).value.table, id) == Lookup(Replay(Fresh(), ops).value.table, id)
  {
    hide Replay, Lookup, Consistent;
    FreshConsistent<E>();
    ReplayKeeps(Fresh(), ops);
    ReplayKeeps(Replay(Fresh(), ops).value, more);
  }

  // A cancelled ID is never published and never granted again.
  lemma CancelledNeverReused<E>(ops: seq<Op<E>>, more: seq<Op<E>>, r: Range, id: nat)
    requires Replay(Fresh(), ops).Some?
    requires r in Replay<E>(Fresh(), ops).value.outstanding && r.Has(id)
    requires Replay(Apply(Replay(Fresh(), ops).value, CancelOp(r)), more).Some?
    ensures var before := Replay(Fresh(), ops).value;
      var after := Replay(Apply(before, CancelOp(r)), more).value;
      && Lookup(after.table, id).None?
      && (forall k :: |before.granted| <= k < |after.granted| ==> !after.granted[k].Has(id))
      && (forall s :: s in after.outstanding ==> !s.Has(id))
  {
    hide Replay;
    FreshConsistent<E>();
    ReplayKeeps(Fresh(), ops);
    var before := Replay(Fresh(), ops).value;
    CancelStep(before, r);
    var cancelled := Apply(before, CancelOp(r));
    ReplayKeeps(cancelled, more);
    var after := Replay(cancelled, more).value;
    var i :| 0 <= i < |before.granted| && before.granted[i] == r;
    assert after.granted[i] == r;
    forall s | s in after.outstanding ensures !s.Has(id) {
      if s.Has(id) {
        SameRange(after, r, s, id);
      }
    }
  }

  // A reservation that fails consumes no ID and leaves every entry alone.
  lemma FailedReserve<E>(t: Table<E>, count: nat, admitted: bool, memory: bool, wrappers: nat)
    requires Reserve(t, count, admitted, memory, wrappers).1.None?
    ensures var after := Reserve(t, count, admitted, memory, wrappers).0; after.next == t.next && after.slots == t.slots
  {
  }

  // The slot checks of a commit cannot fail for a reservation still held.
  lemma CommitSlotsFree<E>(ops: seq<Op<E>>, r: Range)
    requires Replay(Fresh(), ops).Some? && r in Replay<E>(Fresh(), ops).value.outstanding
    ensures SlotsFree(Replay(Fresh(), ops).value.table, r)
  {
    hide Replay;
    FreshConsistent<E>();
    ReplayKeeps(Fresh(), ops);
  }

  // ------------------------------------------------------------------
  // The registry object
  // ------------------------------------------------------------------

  const ID_MAX: uint32 := 0x7FFF_FFFF

  // A backend program; no payload once it has been handed over or destroyed.
  datatype Program = Program(payload: Option<nat>)

  class Entry {
    var programId: uint32
    var program: Program

    constructor ()
      ensures programId == 0 && program == Program(None)
    {
      programId, program := 0, Program(None);
    }
  }

  ghost function SlotsOf(slots: seq<Entry?>): map<nat, Entry> {
    map id: nat | id < |slots| && slots[id] != null :: slots[id]
  }

  class ProgramRegistry {
    var table: array<Entry?>
    var nextProgramId: uint32

    ghost predicate Valid()
      reads this, table
    {
      table.Length <= 0xFFFF_FFFF
    }

    ghost function Abs(): Table<Entry>
      reads this, table
    {
      Table(nextProgramId as nat, table.Length, SlotsOf(table[..]))
    }

    constructor ()
      ensures Valid() && Abs() == Table(1, 0, map[])
    {
      table := new Entry?[0];
      nextProgramId := 1;
    }

    // The last ID of the range and the table size it needs, in 32-bit
    // arithmetic that never wraps.
    method ReservationRange(count: uint32) returns (r: Option<(uint32, uint32)>)
      requires count != 0
      ensures r.Some? <==> nextProgramId != 0 && nextProgramId as int + count as int - 1 <= 0x7FFF_FFFF
      ensures r.Some? ==> r.value.0 as int == nextProgramId as int + count as int - 1 && r.value.1 as int == r.value.0 as int + 1
    {
      if nextProgramId == 0 || nextProgramId > ID_MAX { return None; }
      var available := ID_MAX - nextProgramId + 1;
      if count > available { return None; }
      var last := nextProgramId + (count - 1);
      return Some((last, last + 1));
    }

    method NewCapacity(current: uint32, required: uint32) returns (capacity: uint32)
      requires required > current && required <= 0x8000_0000
      ensures capacity as int == GrownCapacity(current as nat, required as nat)
    {
      capacity := current;
      if capacity < 8 { capacity := 8; }
      ghost var start: nat := capacity as nat;
      while capacity < required
        invariant capacity > 0
        invariant Doubled(capacity as nat, required as nat) == Doubled(start, required as nat)
        decreases required as int - capacity as int
      {
        if capacity > ID_MAX / 2 {
          capacity := required;
          break;
        }
        capacity := capacity * 2;
      }
    }

    // Grows the table without moving a published entry.
    method Grow(required: uint32, memory: bool) returns (ok: bool)
      requires Valid() && required <= 0x8000_0000
      modifies this`table
      ensures Valid() && (ok <==> required as int <= old(table.Length) || memory)
      ensures ok ==> Abs() == old(Abs()).(capacity := GrownCapacity(old(table.Length), required as nat))
      ensures !ok ==> table == old(table)
      ensures table == old(table) || fresh(table)
    {
      if required as int <= table.Length { return true; }
      if !memory { return false; }
      var capacity := NewCapacity(table.Length as uint32, required);
      DoubledFits(if table.Length < 8 then 8 else table.Length, required as nat);
      var larger := new Entry?[capacity as int](_ => null);
      for i := 0 to table.Length
        invariant table == old(table) && larger.Length == capacity as int > table.Length
        invariant forall k :: 0 <= k < larger.Length ==> larger[k] == (if k < i then table[k] else null)
      {
        larger[i] := table[i];
      }
      table := larger;
      assert forall id: nat :: id < old(table.Length) && old(table[id]) != null ==> table[id] == old(table[id]);
      return true;
    }

    // The wrappers carry the IDs from first on.
    ghost predicate Numbered(entries: seq<Entry>, first: nat)
      reads entries
    {
      forall i :: 0 <= i < |entries| ==> entries[i].programId as int == first + i
    }

    // The entry allocations; None once the allocator fails.
    method AllocateWrappers(count: uint32, wrappers: uint32) returns (made: Option<seq<Entry>>)
      ensures made.Some? <==> count <= wrappers
      ensures made.Some? ==> |made.value| == count as int
      ensures made.Some? ==> forall i :: 0 <= i < |made.value| ==> fresh(made.value[i])
      ensures made.Some? ==> forall i, j :: 0 <= i < j < |made.value| ==> made.value[i] != made.value[j]
    {
      var entries: seq<Entry> := [];
      var i: uint32 := 0;
      while i < count
        invariant i <= count && |entries| == i as int && i <= wrappers
        invariant forall k :: 0 <= k < |entries| ==> fresh(entries[k])
        invariant forall j, k :: 0 <= j < k < |entries| ==> entries[j] != entries[k]
      {
        if i >= wrappers { return None; }
        var entry := new Entry();
        entries := entries + [entry];
        i := i + 1;
      }
      return Some(entries);
    }

    method AssignIds(entries: seq<Entry>, first: uint32)
      requires first as int + |entries| <= 0x8000_0000
      requires forall i, j :: 0 <= i < j < |entries| ==> entries[i] != entries[j]
      modifies entries
      ensures Numbered(entries, first as nat)
    {
      for i := 0 to |entries|
        invariant forall k :: 0 <= k < i ==> entries[k].programId as int == first as int + k
      {
        entries[i].programId := first + i as uint32;
      }
    }

    // Allocates every wrapper, then assigns the stable IDs.
    method ReserveLocked(count: uint32, memory: bool, wrappers: uint32) returns (entries: Option<seq<Entry>>)
      requires Valid() && count != 0
      modifies this`table, this`nextProgramId
      ensures Valid()
      ensures var (t, r) := Reserve(old(Abs()), count as nat, true, memory, wrappers as nat);
        Abs() == t && entries.Some? == r.Some?
      ensures entries.Some? <==>
        && old(nextProgramId) != 0 && old(nextProgramId) as int + count as int - 1 <= 0x7FFF_FFFF
        && (old(nextProgramId) as int + count as int <= old(table.Length) || memory) && count <= wrappers
      ensures nextProgramId as int == old(nextProgramId) as int + (if entries.Some? then count as int else 0)
      ensures entries.Some? ==> |entries.value| == count as int && Numbered(entries.value, old(nextProgramId) as nat)
      ensures entries.Some? ==> forall i :: 0 <= i < |entries.value| ==> fresh(entries.value[i])
      ensures entries.Some? ==> forall i, j :: 0 <= i < j < |entries.value| ==> entries.value[i] != entries.value[j]
    {
      var range := ReservationRange(count);
      if range.None? { return None; }
      var ok := Grow(range.value.1, memory);
      if !ok { return None; }
      entries := AllocateWrappers(count, wrappers);
      if entries.None? { return None; }
      AssignIds(entries.value, nextProgramId);
      nextProgramId := range.value.0 + 1;
    }

    // Every reserved wrapper still names an empty slot of the table.
    method SlotsValid(entries: seq<Entry>) returns (ok: bool)
      requires Valid()
      ensures ok <==> |entries| != 0 && forall i :: 0 <= i < |entries| ==>
        0 < entries[i].programId as int < table.Length && table[entries[i].programId as int] == null
    {
      if |entries| == 0 { return false; }
      for i := 0 to |entries|
        invariant forall k :: 0 <= k < i ==>
          0 < entries[k].programId as int < table.Length && table[entries[k].programId as int] == null
      {
        var id := entries[i].programId as int;
        if id == 0 || id >= table.Length || table[id] != null { return false; }
      }
      return true;
    }

    ghost predicate SlotEmpty(id: nat)
      reads this, table
    {
      id != 0 && id < table.Length && table[id] == null
    }

    // A table whose slots first .. hold the entries is the published one.
    lemma PublishedAbs(before: Table<Entry>, was: seq<Entry?>, first: nat, entries: seq<Entry>)
      requires before == Table(nextProgramId as nat, |was|, SlotsOf(was))
      requires first + |entries| <= |was| == table.Length
      requires forall id :: 0 <= id < |was| ==> table[id] == (if first <= id < first + |entries| then entries[id - first] else was[id])
      ensures Abs() == Publish(before, Range(first, |entries|), entries)
    {
    }

    // Moves every prepared payload into its wrapper, and every wrapper into
    // its slot.
    method PublishLocked(entries: seq<Entry>, first: nat, prepared: array<Program>)
      requires Valid() && prepared.Length == |entries|
      requires Numbered(entries, first) && first + |entries| <= table.Length
      requires forall id :: first <= id < first + |entries| ==> SlotEmpty(id)
      requires forall i, j :: 0 <= i < j < |entries| ==> entries[i] != entries[j]
      modifies table, entries, prepared
      ensures Valid() && table == old(table) && nextProgramId == old(nextProgramId)
      ensures Abs() == Publish(old(Abs()), Range(first, |entries|), entries)
      ensures forall i :: 0 <= i < |entries| ==> entries[i].program == old(prepared[i]) && prepared[i] == Program(None)
    {
      ghost var was, given := table[..], prepared[..];
      for i := 0 to |entries|
        invariant Numbered(entries, first)
        invariant forall k :: 0 <= k < i ==> entries[k].program == given[k] && prepared[k] == Program(None)
        invariant forall k :: i <= k < |entries| ==> prepared[k] == given[k]
        invariant forall id :: 0 <= id < table.Length ==> table[id] == (if first <= id < first + i then entries[id - first] else was[id])
      {
        entries[i].program := prepared[i];
        prepared[i] := prepared[i].(payload := None);
        table[entries[i].programId as int] := entries[i];
      }
      PublishedAbs(old(Abs()), was, first, entries);
    }

    method Find(id: uint32) returns (entry: Entry?)
      requires Valid()
      ensures Lookup(Abs(), id as nat) == (if entry == null then None else Some(entry as Entry))
    {
      if id == 0 || id as int >= table.Length { return null; }
      return table[id as int];
    }
  }
}
