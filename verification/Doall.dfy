// The DOALL classifier: a loop is DOALL exactly when no scalar is carried
// between iterations and no two accesses of its body can meet in different
// iterations.

module Doall {
  import opened Words
  import opened Hir
  import opened LoweringMeaning
  import opened LoopMeaning

  const MAX_DEPENDENCES: nat := 256

  datatype AliasKind = MayAlias | Unique | CheckedNoAlias

  datatype Object = Object(id: int, alias: AliasKind)

  datatype ScalarEffect = ScalarEffect(isCounter: bool, declaredInside: bool, readBeforeWrite: bool, readCount: nat, writeCount: nat)

  datatype MemoryAccess = MemoryAccess(objectId: int, write: bool, index: Affine)

  datatype Summary = Summary(complete: bool, scalars: seq<ScalarEffect>, accesses: seq<MemoryAccess>, objects: seq<Object>)

  datatype DependenceKind = Raw | War | Waw

  // Positions of the two accesses, in body order.
  datatype Dependence = Dependence(first: nat, second: nat, kind: DependenceKind, distance: Option<int>)

  datatype Classification = IsDoall | IsDependent | IsUnknown

  datatype Reason =
    | NoReason | Incomplete | UnknownMemory | DependenceLimit | ScalarCarried | OuterScalarWrite
    | MemoryDependence(kind: DependenceKind) | MayAliasObjects

  // ------------------------------------------------------------------
  // Scalars
  // ------------------------------------------------------------------

  function ScalarReason(s: ScalarEffect): Option<Reason> {
    if s.isCounter || s.writeCount == 0 then None
    else if s.declaredInside then (if s.readBeforeWrite then Some(ScalarCarried) else None)
    else Some(if s.readCount != 0 then ScalarCarried else OuterScalarWrite)
  }

  predicate ScalarsClean(scalars: seq<ScalarEffect>) { forall k :: 0 <= k < |scalars| ==> ScalarReason(scalars[k]).None? }

  // The first scalar that offends does so for this reason.
  ghost predicate OffendsFirst(scalars: seq<ScalarEffect>, reason: Reason) {
    exists k :: 0 <= k < |scalars| && ScalarReason(scalars[k]) == Some(reason) && ScalarsClean(scalars[..k])
  }

  method FirstOffender(scalars: seq<ScalarEffect>) returns (reason: Option<Reason>)
    ensures reason.None? <==> ScalarsClean(scalars)
    ensures reason.Some? ==> OffendsFirst(scalars, reason.value)
    ensures reason.None? <==> forall k :: 0 <= k < |scalars| ==>
      var e := scalars[k]; e.isCounter || e.writeCount == 0 || (e.declaredInside && !e.readBeforeWrite)
    ensures reason.Some? ==> exists k ::
      && 0 <= k < |scalars| && ScalarsClean(scalars[..k])
      && !scalars[k].isCounter && scalars[k].writeCount != 0 && (scalars[k].declaredInside ==> scalars[k].readBeforeWrite)
      && reason.value == (if !scalars[k].declaredInside && scalars[k].readCount == 0 then OuterScalarWrite else ScalarCarried)
  {
    for k := 0 to |scalars|
      invariant ScalarsClean(scalars[..k])
    {
      reason := ScalarReason(scalars[k]);
      if reason.Some? { return; }
    }
    return None;
  }

  // ------------------------------------------------------------------
  // Pairs of accesses
  // ------------------------------------------------------------------

  function FindObject(objects: seq<Object>, id: int): Option<Object> {
    if objects == [] then None
    else if objects[0].id == id then Some(objects[0])
    else FindObject(objects[1..], id)
  }

  // Entry p is the object with the id.
  ghost predicate Names(objects: seq<Object>, p: nat, id: int) {
    p < |objects| && objects[p].id == id && forall q :: 0 <= q < p ==> objects[q].id != id
  }

  lemma {:induction false} FoundAt(objects: seq<Object>, id: int) returns (p: nat)
    ensures FindObject(objects, id).None? <==> forall q :: 0 <= q < |objects| ==> objects[q].id != id
    ensures FindObject(objects, id).Some? ==> Names(objects, p, id) && FindObject(objects, id).value == objects[p]
  {
    p := 0;
    if objects != [] && objects[0].id != id {
      var q := FoundAt(objects[1..], id);
      p := q + 1;
      assert forall k :: 0 < k < |objects| ==> objects[1..][k - 1] == objects[k];
    }
  }

  // Two objects with different ids that cannot be one buffer.
  ghost predicate KnownApart(objects: seq<Object>, x: int, y: int) {
    exists p: nat, q: nat :: Names(objects, p, x) && Names(objects, q, y) &&
      (objects[p].alias == Unique || objects[q].alias == Unique
       || (objects[p].alias == CheckedNoAlias && objects[q].alias == CheckedNoAlias))
  }

  predicate Disjoint(a: Object, b: Object) {
    a.id != b.id && (a.alias.Unique? || b.alias.Unique? || (a.alias.CheckedNoAlias? && b.alias.CheckedNoAlias?))
  }

  // Both indices are the counter plus a constant.
  predicate DistanceKnown(a: MemoryAccess, b: MemoryAccess) {
    a.index.kind.CounterOffset? && b.index.kind.CounterOffset? && a.index.symbol.None? && b.index.symbol.None?
  }

  function DependenceOf(a: MemoryAccess, b: MemoryAccess, i: nat, j: nat): (d: Dependence)
    ensures d.first == i && d.second == j
  {
    if !DistanceKnown(a, b) then Dependence(i, j, if !a.write then War else if b.write then Waw else Raw, None)
    else if a.write && b.write then Dependence(i, j, Waw, Some(a.index.offset - b.index.offset))
    else
      var delta := (if a.write then a.index.offset - b.index.offset else b.index.offset - a.index.offset);
      if delta > 0 then Dependence(i, j, Raw, Some(delta)) else Dependence(i, j, War, Some(0 - delta))
  }

  datatype Meeting = Apart | Aliasing(low: int, high: int) | Meeting(dependence: Dependence) | UnknownObject

  // What the classifier finds for access i and a later access j.
  function MeetingOf(s: Summary, i: nat, j: nat): Meeting
    requires i < j < |s.accesses|
  {
    var (a, b) := (s.accesses[i], s.accesses[j]);
    if !a.write && !b.write then Apart
    else
      match FindObject(s.objects, a.objectId)
      case None => UnknownObject
      case Some(x) =>
        match FindObject(s.objects, b.objectId)
        case None => UnknownObject
        case Some(y) =>
          if Disjoint(x, y) then Apart
          else if x.id != y.id then (if x.id > y.id then Aliasing(y.id, x.id) else Aliasing(x.id, y.id))
          else if a.index.kind.CounterOffset? && b.index.kind.CounterOffset? && a.index == b.index then Apart
          else Meeting(DependenceOf(a, b, i, j))
  }

  predicate FixedWrite(s: Summary, i: nat)
    requires i < |s.accesses|
  {
    s.accesses[i].write && s.accesses[i].index.kind.AffineInvariant?
  }

  // ------------------------------------------------------------------
  // The walk over all pairs
  // ------------------------------------------------------------------

  // The pair comes before (i, j) in the walk.
  predicate Done(s: Summary, i: nat, j: nat, k: nat, m: nat) {
    k < m < |s.accesses| && (k < i || (k == i && m < j))
  }

  // Every pair before (i, j) and every fixed write up to there is recorded.
  ghost predicate Recorded(s: Summary, deps: seq<Dependence>, aliases: seq<(int, int)>, i: nat, j: nat) {
    && (forall k, m :: Done(s, i, j, k, m) ==>
         match MeetingOf(s, k, m)
         case Apart => true
         case Aliasing(a, b) => (a, b) in aliases
         case Meeting(d) => d in deps
         case UnknownObject => false)
    && (forall k :: 0 <= k < |s.accesses| && (k < i || (k == i && j > i)) && FixedWrite(s, k) ==>
         Dependence(k, k, Waw, None) in deps)
  }

  // The records stand in the order of the walk, all before (i, j).
  ghost predicate InOrder(deps: seq<Dependence>, i: nat, j: nat) {
    && (forall x :: 0 <= x < |deps| ==> Earlier(deps[x], i, j))
    && (forall x, y :: 0 <= x < y < |deps| ==> Earlier(deps[x], deps[y].first, deps[y].second))
  }

  predicate Earlier(d: Dependence, i: nat, j: nat) { d.first < i || (d.first == i && d.second < j) }

  // Every record comes from the body.
  ghost predicate Genuine(s: Summary, deps: seq<Dependence>, aliases: seq<(int, int)>) {
    && (forall d :: d in deps ==> Dependent(s, d))
    && (forall p :: p in aliases ==> Aliases(s, p))
  }

  ghost predicate Dependent(s: Summary, d: Dependence) {
    || (d.first == d.second < |s.accesses| && FixedWrite(s, d.first))
    || (d.first < d.second < |s.accesses| && MeetingOf(s, d.first, d.second) == Meeting(d))
  }

  ghost predicate Aliases(s: Summary, p: (int, int)) {
    exists k, m :: 0 <= k < m < |s.accesses| && MeetingOf(s, k, m) == Aliasing(p.0, p.1)
  }

  ghost predicate MissesObject(s: Summary) {
    exists k, m :: 0 <= k < m < |s.accesses| && MeetingOf(s, k, m).UnknownObject?
  }

  // No two accesses meet in different iterations.
  ghost predicate MemoryFree(s: Summary) {
    && (forall k :: 0 <= k < |s.accesses| ==> !FixedWrite(s, k))
    && (forall k, m :: 0 <= k < m < |s.accesses| ==> MeetingOf(s, k, m).Apart?)
  }

  // What stops the walk, if anything does.
  ghost predicate Stopped(s: Summary, deps: seq<Dependence>, aliases: seq<(int, int)>, stop: Reason) {
    match stop
    case NoReason => Recorded(s, deps, aliases, |s.accesses|, 0)
    case UnknownMemory => MissesObject(s)
    case DependenceLimit => |deps| == 256 || |aliases| == 256
    case _ => false
  }

  method AddPair(s: Summary, i: nat, j: nat, deps0: seq<Dependence>, aliases0: seq<(int, int)>)
    returns (deps: seq<Dependence>, aliases: seq<(int, int)>, stop: Reason)
    requires i < j < |s.accesses| && Genuine(s, deps0, aliases0) && Recorded(s, deps0, aliases0, i, j)
    requires |deps0| <= MAX_DEPENDENCES && |aliases0| <= MAX_DEPENDENCES
    ensures Genuine(s, deps, aliases) && |deps| <= MAX_DEPENDENCES && |aliases| <= MAX_DEPENDENCES
    requires InOrder(deps0, i, j)
    ensures stop.NoReason? ==> Recorded(s, deps, aliases, i, j + 1)
    ensures InOrder(deps, i, j + 1)
    ensures stop.NoReason? || (!MemoryFree(s) && Stopped(s, deps, aliases, stop))
  {
    hide FindObject, DependenceOf, Disjoint;
    deps, aliases, stop := deps0, aliases0, NoReason;
    match MeetingOf(s, i, j)
    case Apart =>
    case UnknownObject => stop := UnknownMemory;
    case Aliasing(a, b) =>
      if (a, b) !in aliases {
        if |aliases| >= MAX_DEPENDENCES { return deps, aliases, DependenceLimit; }
        aliases := aliases + [(a, b)];
      }
    case Meeting(d) =>
      if |deps| >= MAX_DEPENDENCES { return deps, aliases, DependenceLimit; }
      deps := deps + [d];
  }

  // Compares access i with itself and with every later access.
  method AddRow(s: Summary, i: nat, deps0: seq<Dependence>, aliases0: seq<(int, int)>)
    returns (deps: seq<Dependence>, aliases: seq<(int, int)>, stop: Reason)
    requires i < |s.accesses| && Genuine(s, deps0, aliases0) && Recorded(s, deps0, aliases0, i, 0)
    requires |deps0| <= MAX_DEPENDENCES && |aliases0| <= MAX_DEPENDENCES
    ensures Genuine(s, deps, aliases) && |deps| <= MAX_DEPENDENCES && |aliases| <= MAX_DEPENDENCES
    requires InOrder(deps0, i, 0)
    ensures stop.NoReason? ==> Recorded(s, deps, aliases, i + 1, 0)
    ensures InOrder(deps, i + 1, 0)
    ensures stop.NoReason? || (!MemoryFree(s) && Stopped(s, deps, aliases, stop))
  {
    hide MeetingOf;
    deps, aliases, stop := deps0, aliases0, NoReason;
    if FixedWrite(s, i) {
      if |deps| >= MAX_DEPENDENCES { return deps, aliases, DependenceLimit; }
      deps := deps + [Dependence(i, i, Waw, None)];
    }
    for j := i + 1 to |s.accesses|
      invariant Genuine(s, deps, aliases) && Recorded(s, deps, aliases, i, j) && InOrder(deps, i, j)
      invariant |deps| <= MAX_DEPENDENCES && |aliases| <= MAX_DEPENDENCES
    {
      deps, aliases, stop := AddPair(s, i, j, deps, aliases);
      if !stop.NoReason? { return; }
    }
    stop := NoReason;
  }

  // The whole classification.
  datatype Verdict = Verdict(class_: Classification, reason: Reason, deps: seq<Dependence>, aliases: seq<(int, int)>)

  // Nothing recorded contradicts the class: a memory verdict names the kind
  // of the first dependence of the walk, or that objects may alias, or what
  // stopped the walk.
  ghost predicate MemoryVerdict(s: Summary, v: Verdict) {
    && Genuine(s, v.deps, v.aliases) && InOrder(v.deps, |s.accesses|, 0)
    && match v.class_
       case IsDoall => MemoryFree(s) && v.reason.NoReason?
       case IsDependent =>
         v.deps != [] && Recorded(s, v.deps, v.aliases, |s.accesses|, 0) && v.reason == MemoryDependence(v.deps[0].kind)
       case IsUnknown =>
         || (v.reason.MayAliasObjects? && v.deps == [] && v.aliases != [] && Recorded(s, v.deps, v.aliases, |s.accesses|, 0))
         || (!v.reason.NoReason? && Stopped(s, v.deps, v.aliases, v.reason))
  }

  method Classify(s: Summary, checkScalars: bool) returns (v: Verdict)
    ensures v.class_.IsDoall? <==> s.complete && (checkScalars ==> ScalarsClean(s.scalars)) && MemoryFree(s)
    ensures !s.complete ==> v == Verdict(IsUnknown, Incomplete, [], [])
    ensures s.complete && checkScalars && !ScalarsClean(s.scalars) ==>
      v == Verdict(IsDependent, v.reason, [], []) && OffendsFirst(s.scalars, v.reason)
    ensures s.complete && (checkScalars ==> ScalarsClean(s.scalars)) ==> MemoryVerdict(s, v)
    ensures v.class_.IsDoall? ==> forall k, m :: 0 <= k < |s.accesses| && 0 <= m < |s.accesses| ==>
      (s.accesses[k].write || s.accesses[m].write) && s.accesses[k].objectId != s.accesses[m].objectId ==>
        KnownApart(s.objects, s.accesses[k].objectId, s.accesses[m].objectId)
    ensures v.reason.MayAliasObjects? ==> exists k, m ::
      && 0 <= k < m < |s.accesses|
      && (s.accesses[k].write || s.accesses[m].write) && s.accesses[k].objectId != s.accesses[m].objectId
      && !KnownApart(s.objects, s.accesses[k].objectId, s.accesses[m].objectId)
  {
    hide MeetingOf, FixedWrite;
    if !s.complete { return Verdict(IsUnknown, Incomplete, [], []); }
    if checkScalars {
      var offender := FirstOffender(s.scalars);
      if offender.Some? { return Verdict(IsDependent, offender.value, [], []); }
    }
    var deps: seq<Dependence> := [];
    var aliases: seq<(int, int)> := [];
    for i := 0 to |s.accesses|
      invariant Genuine(s, deps, aliases) && Recorded(s, deps, aliases, i, 0) && InOrder(deps, i, 0)
      invariant |deps| <= MAX_DEPENDENCES && |aliases| <= MAX_DEPENDENCES
    {
      var stop;
      deps, aliases, stop := AddRow(s, i, deps, aliases);
      if !stop.NoReason? { return Verdict(IsUnknown, stop, deps, aliases); }
    }
    FreeIff(s, deps, aliases);
    AliasVerdict(s, aliases);
    if deps != [] { return Verdict(IsDependent, MemoryDependence(deps[0].kind), deps, aliases); }
    if aliases != [] { return Verdict(IsUnknown, MayAliasObjects, deps, aliases); }
    return Verdict(IsDoall, NoReason, deps, aliases);
  }

  // Once every pair is recorded, the body is free exactly when nothing is.
  lemma FreeIff(s: Summary, deps: seq<Dependence>, aliases: seq<(int, int)>)
    requires Genuine(s, deps, aliases) && Recorded(s, deps, aliases, |s.accesses|, 0)
    ensures MemoryFree(s) <==> deps == [] && aliases == []
  {
    hide MeetingOf, FixedWrite;
    if deps == [] && aliases == [] {
      forall k, m | 0 <= k < m < |s.accesses| ensures MeetingOf(s, k, m).Apart? {
        assert Done(s, |s.accesses|, 0, k, m);
      }
    } else if deps != [] {
      assert deps[0] in deps && Dependent(s, deps[0]);
    } else {
      assert aliases[0] in aliases && Aliases(s, aliases[0]);
    }
  }

  lemma NamedOnce(objects: seq<Object>, p: nat, q: nat, id: int)
    requires Names(objects, p, id) && Names(objects, q, id)
    ensures p == q
  {
  }

  ghost predicate Known(objects: seq<Object>, id: int) { exists p: nat :: Names(objects, p, id) }

  // Neither access writes, or they are at the same counter offset of one
  // known object, or in two known objects that cannot be one buffer.
  ghost predicate Harmless(s: Summary, k: nat, m: nat)
    requires k < |s.accesses| && m < |s.accesses|
  {
    var (a, b) := (s.accesses[k], s.accesses[m]);
    a.write || b.write ==>
      && Known(s.objects, a.objectId) && Known(s.objects, b.objectId)
      && if a.objectId == b.objectId then a.index.kind == CounterOffset && a.index == b.index
         else KnownApart(s.objects, a.objectId, b.objectId)
  }

  lemma FoundKnown(objects: seq<Object>, id: int)
    ensures FindObject(objects, id).Some? <==> Known(objects, id)
  {
    var p := FoundAt(objects, id);
  }

  lemma ApartMeans(objects: seq<Object>, x: int, y: int)
    requires FindObject(objects, x).Some? && FindObject(objects, y).Some? && x != y
    ensures Disjoint(FindObject(objects, x).value, FindObject(objects, y).value) <==> KnownApart(objects, x, y)
    ensures FindObject(objects, x).value.id == x && FindObject(objects, y).value.id == y
  {
    var p := FoundAt(objects, x);
    var q := FoundAt(objects, y);
    if KnownApart(objects, x, y) {
      var i: nat, j: nat :| Names(objects, i, x) && Names(objects, j, y) &&
        (objects[i].alias == Unique || objects[j].alias == Unique
         || (objects[i].alias == CheckedNoAlias && objects[j].alias == CheckedNoAlias));
      NamedOnce(objects, i, p, x);
      NamedOnce(objects, j, q, y);
    }
  }

  // What the classifier finds for a pair of accesses, in terms of the
  // summary's entries alone.
  lemma PairMeaning(s: Summary, k: nat, m: nat)
    requires k < m < |s.accesses|
    ensures var (a, b) := (s.accesses[k], s.accesses[m]);
      var known := Known(s.objects, a.objectId) && Known(s.objects, b.objectId);
      match MeetingOf(s, k, m)
      case Apart => Harmless(s, k, m)
      case UnknownObject => (a.write || b.write) && !known
      case Aliasing(x, y) => (a.write || b.write) && known && x < y && {x, y} == {a.objectId, b.objectId} && !KnownApart(s.objects, a.objectId, b.objectId)
      case Meeting(d) => (a.write || b.write) && known && a.objectId == b.objectId && !Harmless(s, k, m) && d == DependenceOf(a, b, k, m)
  {
    hide KnownApart, Disjoint, Known, FindObject;
    var (a, b) := (s.accesses[k], s.accesses[m]);
    FoundKnown(s.objects, a.objectId);
    FoundKnown(s.objects, b.objectId);
    if FindObject(s.objects, a.objectId).Some? && FindObject(s.objects, b.objectId).Some? {
      if a.objectId != b.objectId {
        ApartMeans(s.objects, a.objectId, b.objectId);
      } else {
        SameObject(s.objects, a.objectId);
      }
    }
  }

  lemma SameObject(objects: seq<Object>, id: int)
    requires FindObject(objects, id).Some?
    ensures FindObject(objects, id).value.id == id
    ensures !Disjoint(FindObject(objects, id).value, FindObject(objects, id).value)
  {
    var p := FoundAt(objects, id);
  }

  lemma KnownApartSwaps(objects: seq<Object>, x: int, y: int)
    ensures KnownApart(objects, x, y) <==> KnownApart(objects, y, x)
  {
  }

  // A body is free exactly when no write has a fixed index and every pair of
  // its accesses is harmless.
  lemma FreeMeans(s: Summary)
    ensures MemoryFree(s) <==>
      && (forall k :: 0 <= k < |s.accesses| && s.accesses[k].write ==> s.accesses[k].index.kind != AffineInvariant)
      && (forall k, m :: 0 <= k < m < |s.accesses| ==> Harmless(s, k, m))
  {
    hide MeetingOf, Known, KnownApart;
    forall k | 0 <= k < |s.accesses| ensures FixedWrite(s, k) <==> s.accesses[k].write && s.accesses[k].index.kind == AffineInvariant {
    }
    forall k, m | 0 <= k < m < |s.accesses| ensures MeetingOf(s, k, m).Apart? <==> Harmless(s, k, m) {
      PairMeaning(s, k, m);
    }
  }

  // Free bodies have no two accesses that may alias, and a recorded alias
  // pair is one.
  lemma AliasVerdict(s: Summary, aliases: seq<(int, int)>)
    requires forall p :: p in aliases ==> Aliases(s, p)
    ensures MemoryFree(s) ==> forall k, m :: 0 <= k < |s.accesses| && 0 <= m < |s.accesses| ==>
      (s.accesses[k].write || s.accesses[m].write) && s.accesses[k].objectId != s.accesses[m].objectId ==>
        KnownApart(s.objects, s.accesses[k].objectId, s.accesses[m].objectId)
    ensures aliases != [] ==> exists k, m ::
      && 0 <= k < m < |s.accesses|
      && (s.accesses[k].write || s.accesses[m].write) && s.accesses[k].objectId != s.accesses[m].objectId
      && !KnownApart(s.objects, s.accesses[k].objectId, s.accesses[m].objectId)
  {
    hide MeetingOf, KnownApart, Names;
    if MemoryFree(s) {
      forall k, m | 0 <= k < |s.accesses| && 0 <= m < |s.accesses|
        && (s.accesses[k].write || s.accesses[m].write) && s.accesses[k].objectId != s.accesses[m].objectId
        ensures KnownApart(s.objects, s.accesses[k].objectId, s.accesses[m].objectId)
      {
        KnownApartSwaps(s.objects, s.accesses[k].objectId, s.accesses[m].objectId);
        if k < m { PairMeaning(s, k, m); } else { PairMeaning(s, m, k); }
      }
    }
    if aliases != [] {
      assert aliases[0] in aliases;
      var k, m :| 0 <= k < m < |s.accesses| && MeetingOf(s, k, m) == Aliasing(aliases[0].0, aliases[0].1);
      PairMeaning(s, k, m);
    }
  }

  // ------------------------------------------------------------------
  // What the records mean
  // ------------------------------------------------------------------

  // The element an index names when the counter has value c.
  function ElementAt(index: Affine, c: Word, args: map<string, Value>): Word { AffineWord(index, c, args) }

  // The kind of a recorded dependence is two writes, or the order in which
  // the write and the read reach the element where that is known, or their
  // order in the body.  A known distance is how many iterations after the
  // first access's, or the read's for a WAR, or the write's for a RAW, the
  // same element is met.
  lemma DistanceMeaning(a: MemoryAccess, b: MemoryAccess, i: nat, j: nat, c: Word, args: map<string, Value>)
    requires a.write || b.write
    ensures var d := DependenceOf(a, b, i, j);
      var (write, other) := if a.write then (a, b) else (b, a);
      var known := a.index.kind == CounterOffset && b.index.kind == CounterOffset && a.index.symbol == None && b.index.symbol == None;
      && (d.kind == Waw <==> a.write && b.write)
      && (d.kind == Raw <==> a.write != b.write && if known then write.index.offset > other.index.offset else a.write)
      && (d.distance.Some? <==> known)
      && (known && !d.kind.War? ==> ElementAt(write.index, c, args) == ElementAt(other.index, Wrap(c + d.distance.value), args))
      && (known && d.kind.War? ==> ElementAt(other.index, c, args) == ElementAt(write.index, Wrap(c + d.distance.value), args))
      && (known && d.kind.War? ==> d.distance.value >= 0) && (known && d.kind.Raw? ==> d.distance.value > 0)
  {
    hide Wrap;
    if DistanceKnown(a, b) {
      var d := DependenceOf(a, b, i, j).distance.value;
      WrapOfSum(c + d, a.index.offset);
      WrapOfSum(c + d, b.index.offset);
    }
  }

  // The accesses of a body and their summary.  One object is one buffer;
  // two objects may be one buffer too, unless they are known to be apart.
  ghost predicate Summarises(s: Summary, accesses: seq<Access>) {
    && |s.accesses| == |accesses|
    && (forall k :: 0 <= k < |accesses| ==>
         && s.accesses[k].write == accesses[k].write && s.accesses[k].index == accesses[k].index
         && FindObject(s.objects, s.accesses[k].objectId).Some?)
    && (forall k, m :: 0 <= k < |accesses| && 0 <= m < |accesses| ==>
         var (x, y) := (s.accesses[k].objectId, s.accesses[m].objectId);
         && (x == y ==> accesses[k].buffer == accesses[m].buffer)
         && (x != y && KnownApart(s.objects, x, y) ==> accesses[k].buffer != accesses[m].buffer))
  }

  // A body classified as free has independent iterations, whichever objects
  // turn out to be one buffer.
  lemma FreeIsIndependent(s: Summary, accesses: seq<Access>)
    requires Summarises(s, accesses) && MemoryFree(s)
    ensures Independent(accesses)
  {
    hide KnownApart, Known, MemoryFree, FindObject;
    FreeMeans(s);
    forall i, j | 0 <= i < j < |accesses| ensures !MayConflict(accesses[i], accesses[j]) {
      assert Harmless(s, i, j);
    }
  }

  // Where no object may alias, the classifier accepts every independent body
  // without a write at a fixed index.
  lemma IndependentIsFree(s: Summary, accesses: seq<Access>)
    requires Summarises(s, accesses) && Independent(accesses)
    requires forall k :: 0 <= k < |accesses| && accesses[k].write ==> accesses[k].index.kind != AffineInvariant
    requires forall k :: 0 <= k < |s.objects| ==> s.objects[k].alias != MayAlias
    ensures MemoryFree(s)
  {
    hide MemoryFree, FindObject, KnownApart, Known;
    forall i, j | 0 <= i < j < |s.accesses| ensures Harmless(s, i, j) {
      assert !MayConflict(accesses[i], accesses[j]);
      FoundKnown(s.objects, s.accesses[i].objectId);
      FoundKnown(s.objects, s.accesses[j].objectId);
      NoneMayAlias(s.objects, s.accesses[i].objectId, s.accesses[j].objectId);
    }
    FreeMeans(s);
  }

  lemma NoneMayAlias(objects: seq<Object>, x: int, y: int)
    requires FindObject(objects, x).Some? && FindObject(objects, y).Some?
    requires forall k :: 0 <= k < |objects| ==> objects[k].alias != MayAlias
    ensures KnownApart(objects, x, y)
  {
    var p := FoundAt(objects, x);
    var q := FoundAt(objects, y);
    assert Names(objects, p, x) && Names(objects, q, y);
  }

  // ------------------------------------------------------------------
  // Every refusal has a reason in memory
  // ------------------------------------------------------------------

  // The buffers when the objects x and y are one and all others are apart.
  function BufferOf(id: int, x: int, y: int): nat {
    if id == y then (if x >= 0 then 2 * x else -2 * x - 1) else if id >= 0 then 2 * id else -2 * id - 1
  }

  function Placed(s: Summary, x: int, y: int): seq<Access> {
    seq(|s.accesses|, (k: nat) requires k < |s.accesses| =>
      Access(BufferOf(s.accesses[k].objectId, x, y), s.accesses[k].write, s.accesses[k].index))
  }

  // A body whose objects are all known and whose writes have no fixed index,
  // refused all the same, has two accesses, one a write, that reach one
  // buffer in some placement of its objects the summary allows, and not at
  // the same counter offset of one object.
  lemma RefusalNeeded(s: Summary) returns (accesses: seq<Access>, i: nat, j: nat)
    requires !MemoryFree(s)
    requires forall k :: 0 <= k < |s.accesses| ==> FindObject(s.objects, s.accesses[k].objectId).Some?
    requires forall k :: 0 <= k < |s.accesses| && s.accesses[k].write ==> s.accesses[k].index.kind != AffineInvariant
    ensures Summarises(s, accesses) && i < j < |accesses|
    ensures (accesses[i].write || accesses[j].write) && accesses[i].buffer == accesses[j].buffer
    ensures s.accesses[i].objectId != s.accesses[j].objectId || !Independent(accesses)
    ensures accesses[i].index != accesses[j].index ==> !Independent(accesses)
  {
    hide MemoryFree, KnownApart, Known, FindObject;
    FreeMeans(s);
    i, j :| 0 <= i < j < |s.accesses| && !Harmless(s, i, j);
    var x, y := s.accesses[i].objectId, s.accesses[j].objectId;
    FoundKnown(s.objects, x);
    FoundKnown(s.objects, y);
    PlacedSummarises(s, x, y);
    accesses := Placed(s, x, y);
    assert MayConflict(accesses[i], accesses[j]) || (x != y && accesses[i].index == accesses[j].index);
  }

  lemma PlacedSummarises(s: Summary, x: int, y: int)
    requires forall k :: 0 <= k < |s.accesses| ==> FindObject(s.objects, s.accesses[k].objectId).Some?
    requires x != y ==> !KnownApart(s.objects, x, y)
    ensures Summarises(s, Placed(s, x, y))
  {
    hide KnownApart;
    KnownApartSwaps(s.objects, x, y);
  }
}
