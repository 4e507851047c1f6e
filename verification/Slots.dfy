// The runtime argument slots of a region: parameters keep their positions,
// host-backed locals and then scalar results follow them one after another,
// and device-local buffers have none.

module Slots {
  import opened Words
  import opened Lowering

  const PARAM_SIZE: nat := 32

  // Where a buffer lives.
  datatype Class = ParameterHost | LocalHost | LocalDevice | Unsupported

  datatype Param = Param(name: string, packed: bool)

  datatype Entry = Entry(symbol: string, gpuRead: bool, gpuWrite: bool, class_: Class)

  datatype Binding = Binding(symbol: string, class_: Class, slot: Option<nat>)

  predicate Visible(e: Entry) { e.gpuRead || e.gpuWrite }

  // The first parameter with the name.
  function ParamSlot(params: seq<Param>, symbol: string, from: nat := 0): (r: Option<nat>)
    ensures r.Some? ==> from <= r.value < |params| && params[r.value].name == symbol
    decreases |params| - from
  {
    if from >= |params| then None
    else if params[from].name == symbol then Some(from)
    else ParamSlot(params, symbol, from + 1)
  }

  // The n slots from first on.
  function Consecutive(first: nat, n: nat): seq<nat> { seq(n, i => first + i) }

  function VisibleLocals(catalog: seq<Entry>): nat {
    if catalog == [] then 0
    else
      var last := catalog[|catalog| - 1];
      VisibleLocals(catalog[..|catalog| - 1]) + if Visible(last) && last.class_.LocalHost? then 1 else 0
  }

  predicate Escaping(e: Entry) { Visible(e) && e.class_.Unsupported? }

  predicate Slotless(params: seq<Param>, e: Entry) {
    Visible(e) && e.class_.ParameterHost? && ParamSlot(params, e.symbol).None?
  }

  predicate Bindable(params: seq<Param>, catalog: seq<Entry>) {
    forall e :: e in catalog ==> !Escaping(e) && !Slotless(params, e)
  }

  // ------------------------------------------------------------------
  // Which buffers the kernels touch
  // ------------------------------------------------------------------

  datatype EffectKind = ReadEffect | WriteEffect | OtherEffect

  datatype Effect = Effect(objectId: int, kind: EffectKind)

  datatype Touched = Touched(read: bool, write: bool)

  // Catalog entry p is the object with the id.
  ghost predicate Names(ids: seq<int>, p: nat, id: int) {
    p < |ids| && ids[p] == id && forall q :: 0 <= q < p ==> ids[q] != id
  }

  // Some access of a kernel from the list has this effect on entry p.
  ghost predicate Touches(ids: seq<int>, effects: seq<Effect>, p: nat, kind: EffectKind) {
    exists j :: 0 <= j < |effects| && effects[j].kind == kind && Names(ids, p, effects[j].objectId)
  }

  ghost predicate Known(ids: seq<int>, e: Effect) { e.kind != OtherEffect && exists p: nat :: Names(ids, p, e.objectId) }

  method FindEntry(ids: seq<int>, id: int) returns (p: Option<nat>)
    ensures p.Some? ==> Names(ids, p.value, id)
    ensures p.None? ==> forall q: nat :: !Names(ids, q, id)
  {
    for k := 0 to |ids|
      invariant forall q :: 0 <= q < k ==> ids[q] != id
    {
      if ids[k] == id { return Some(k); }
    }
    return None;
  }

  // Marks the effects of one kernel's accesses.
  method MarkKernel(ids: seq<int>, marks0: seq<Touched>, effects: seq<Effect>) returns (r: Status<seq<Touched>>)
    requires |marks0| == |ids|
    ensures r.Success? <==> forall j :: 0 <= j < |effects| ==> Known(ids, effects[j])
    ensures r.Failure? ==> r == Status.Failure(HardError)
    ensures r.Success? ==> |r.value| == |ids| && forall p :: 0 <= p < |ids| ==>
      && (r.value[p].read <==> marks0[p].read || Touches(ids, effects, p, ReadEffect))
      && (r.value[p].write <==> marks0[p].write || Touches(ids, effects, p, WriteEffect))
  {
    var marks := marks0;
    assert effects[..0] == [];
    for j := 0 to |effects|
      invariant |marks| == |ids| && forall i :: 0 <= i < j ==> Known(ids, effects[i])
      invariant forall p :: 0 <= p < |ids| ==>
        && (marks[p].read <==> marks0[p].read || Touches(ids, effects[..j], p, ReadEffect))
        && (marks[p].write <==> marks0[p].write || Touches(ids, effects[..j], p, WriteEffect))
    {
      var e := effects[j];
      var p := FindEntry(ids, e.objectId);
      if p.None? || e.kind.OtherEffect? { return Status.Failure(HardError); }
      forall q: nat, kind | q < |ids| ensures
        Touches(ids, effects[..j + 1], q, kind) <==> Touches(ids, effects[..j], q, kind) || (q == p.value && kind == e.kind)
      {
        TouchStep(ids, effects, j, q, p.value, kind);
      }
      marks := marks[p.value := if e.kind.ReadEffect? then marks[p.value].(read := true) else marks[p.value].(write := true)];
    }
    assert effects[..|effects|] == effects;
    return Success(marks);
  }

  lemma TouchStep(ids: seq<int>, effects: seq<Effect>, j: nat, q: nat, p: nat, kind: EffectKind)
    requires j < |effects| && Names(ids, p, effects[j].objectId)
    ensures Touches(ids, effects[..j + 1], q, kind) <==> Touches(ids, effects[..j], q, kind) || (q == p && kind == effects[j].kind)
  {
    var longer := effects[..j + 1];
    if Touches(ids, effects[..j], q, kind) {
      var i :| 0 <= i < j && effects[..j][i].kind == kind && Names(ids, q, effects[..j][i].objectId);
      assert longer[i] == effects[..j][i];
    }
    if q == p && kind == effects[j].kind {
      assert longer[j] == effects[j];
    }
    if Touches(ids, longer, q, kind) {
      var i :| 0 <= i < j + 1 && longer[i].kind == kind && Names(ids, q, longer[i].objectId);
      if i < j {
        assert effects[..j][i] == longer[i];
      } else {
        NamedOnce(ids, p, q, effects[j].objectId);
      }
    }
  }

  lemma NamedOnce(ids: seq<int>, p: nat, q: nat, id: int)
    requires Names(ids, p, id) && Names(ids, q, id)
    ensures p == q
  {
  }

  // Marks every access of every kernel: an entry is read or written exactly
  // when some kernel's access list has such an access to it.
  method MarkBuffers(ids: seq<int>, kernels: seq<seq<Effect>>) returns (r: Status<seq<Touched>>)
    ensures r.Success? <==> forall k, j :: 0 <= k < |kernels| && 0 <= j < |kernels[k]| ==> Known(ids, kernels[k][j])
    ensures r.Failure? ==> r == Status.Failure(HardError)
    ensures r.Success? ==> |r.value| == |ids| && forall p :: 0 <= p < |ids| ==>
      && (r.value[p].read <==> exists k :: 0 <= k < |kernels| && Touches(ids, kernels[k], p, ReadEffect))
      && (r.value[p].write <==> exists k :: 0 <= k < |kernels| && Touches(ids, kernels[k], p, WriteEffect))
  {
    hide Touches, Known;
    var marks := seq(|ids|, _ => Touched(false, false));
    for k := 0 to |kernels|
      invariant |marks| == |ids|
      invariant forall i, j :: 0 <= i < k && 0 <= j < |kernels[i]| ==> Known(ids, kernels[i][j])
      invariant forall p :: 0 <= p < |ids| ==>
        && (marks[p].read <==> exists i :: 0 <= i < k && Touches(ids, kernels[i], p, ReadEffect))
        && (marks[p].write <==> exists i :: 0 <= i < k && Touches(ids, kernels[i], p, WriteEffect))
    {
      r := MarkKernel(ids, marks, kernels[k]);
      if r.Failure? { return; }
      marks := r.value;
    }
    return Success(marks);
  }

  // ------------------------------------------------------------------
  // Buffer bindings
  // ------------------------------------------------------------------

  function SlotOf(params: seq<Param>, e: Entry, locals: nat): Option<nat> {
    match e.class_
    case LocalDevice => None
    case LocalHost => Some(|params| + locals)
    case _ => ParamSlot(params, e.symbol)
  }

  function BindingsOf(params: seq<Param>, catalog: seq<Entry>): seq<Binding> {
    if catalog == [] then []
    else
      var (front, last) := (catalog[..|catalog| - 1], catalog[|catalog| - 1]);
      BindingsOf(params, front) +
      if Visible(last) then [Binding(last.symbol, last.class_, SlotOf(params, last, VisibleLocals(front)))] else []
  }

  predicate BufferBindingsExist(params: seq<Param>, catalog: seq<Entry>, hasReduction: bool) {
    && Bindable(params, catalog)
    && |params| + VisibleLocals(catalog) <= PARAM_SIZE
    && (BindingsOf(params, catalog) != [] || hasReduction)
  }

  // The entries up to n that some kernel touches and that stay on the host.
  ghost function HostLocals(catalog: seq<Entry>, n: nat): set<nat>
    requires n <= |catalog|
  {
    set i: nat | i < n && (catalog[i].gpuRead || catalog[i].gpuWrite) && catalog[i].class_ == LocalHost
  }

  // Binding i stands for catalog entry pos[i]: the entries some kernel reads
  // or writes, in catalog order, each once and each in its slot.
  ghost predicate Projects(params: seq<Param>, catalog: seq<Entry>, bindings: seq<Binding>, pos: seq<nat>) {
    && |pos| == |bindings|
    && (forall i, j :: 0 <= i < j < |pos| ==> pos[i] < pos[j])
    && (forall k: nat :: k in pos <==> k < |catalog| && (catalog[k].gpuRead || catalog[k].gpuWrite))
    && (forall i :: 0 <= i < |pos| ==> Bound(params, catalog, bindings[i], pos[i]))
  }

  // The binding of one entry: its parameter's slot, the slot after those of
  // the parameters and the earlier host locals, or none.
  ghost predicate Bound(params: seq<Param>, catalog: seq<Entry>, b: Binding, k: nat) {
    && k < |catalog| && b.symbol == catalog[k].symbol && b.class_ == catalog[k].class_
    && (b.class_ == LocalDevice ==> b.slot == None)
    && (b.class_ == LocalHost ==> b.slot == Some(|params| + |HostLocals(catalog, k)|))
    && (b.class_ == ParameterHost && b.slot.Some? ==>
         b.slot.value < |params| && params[b.slot.value].name == b.symbol && forall q :: 0 <= q < b.slot.value ==> params[q].name != b.symbol)
  }

  lemma NothingListed(params: seq<Param>)
    ensures BindingsOf(params, []) == [] && VisibleLocals([]) == 0
  {
  }

  lemma EntryStep(params: seq<Param>, catalog: seq<Entry>, i: nat)
    requires i < |catalog|
    ensures BindingsOf(params, catalog[..i + 1]) == BindingsOf(params, catalog[..i]) +
      if Visible(catalog[i]) then [Binding(catalog[i].symbol, catalog[i].class_, SlotOf(params, catalog[i], VisibleLocals(catalog[..i])))] else []
    ensures VisibleLocals(catalog[..i + 1]) ==
      VisibleLocals(catalog[..i]) + if Visible(catalog[i]) && catalog[i].class_.LocalHost? then 1 else 0
  {
    assert catalog[..i + 1][..i] == catalog[..i];
  }

  // Every touched buffer has a supported class and, as a parameter, a slot;
  // the host locals fit; and there is something to do.
  ghost predicate Supported(params: seq<Param>, catalog: seq<Entry>, hasReduction: bool) {
    && (forall e :: e in catalog && (e.gpuRead || e.gpuWrite) ==>
         && e.class_ != Unsupported
         && (e.class_ == ParameterHost ==> exists k :: 0 <= k < |params| && params[k].name == e.symbol))
    && |params| + |HostLocals(catalog, |catalog|)| <= 32
    && (hasReduction || exists e :: e in catalog && (e.gpuRead || e.gpuWrite))
  }

  method AddBufferBindings(params: seq<Param>, catalog: seq<Entry>, hasReduction: bool)
    returns (r: Status<seq<Binding>>)
    requires |params| <= PARAM_SIZE
    ensures r.Success? <==> Supported(params, catalog, hasReduction)
    ensures r.Success? ==> exists pos :: Projects(params, catalog, r.value, pos)
    ensures r.Success? <==> BufferBindingsExist(params, catalog, hasReduction)
    ensures r.Success? ==> r.value == BindingsOf(params, catalog)
    ensures r == Decline(BufferEscape) ==>
      exists e :: e in catalog && (e.gpuRead || e.gpuWrite) && e.class_ == Unsupported
    ensures r == Status.Failure(HardError) ==>
      exists e :: e in catalog && (e.gpuRead || e.gpuWrite) && e.class_ == ParameterHost
        && forall k :: 0 <= k < |params| ==> params[k].name != e.symbol
    ensures r == Decline(Limit) ==> |params| + |HostLocals(catalog, |catalog|)| > 32
    ensures r == Decline(Expression) ==> !hasReduction && forall e :: e in catalog ==> !e.gpuRead && !e.gpuWrite
    ensures r.Failure? ==> r.error in {Declined(BufferEscape), HardError, Declined(Limit), Declined(Expression)}
  {
    hide Projects, Supported, ParamSlot, BindingsOf, VisibleLocals;
    ExistMeans(params, catalog, hasReduction);
    ghost var pos := Projection(params, catalog);
    NothingListed(params);
    assert catalog[..0] == [];
    var bindings: seq<Binding> := [];
    var next := |params|;
    for i := 0 to |catalog|
      invariant bindings == BindingsOf(params, catalog[..i])
      invariant next == |params| + VisibleLocals(catalog[..i]) <= PARAM_SIZE
      invariant Bindable(params, catalog[..i])
    {
      var e := catalog[i];
      EntryStep(params, catalog, i);
      if !Visible(e) { continue; }
      if e.class_.Unsupported? { assert Escaping(e); return Decline(BufferEscape); }
      var slot := ParamSlot(params, e.symbol);
      if e.class_.ParameterHost? && slot.None? {
        assert Slotless(params, e);
        ParamMeans(params, e.symbol, 0);
        return Status.Failure(HardError);
      }
      if e.class_.LocalHost? {
        if next >= PARAM_SIZE {
          LocalsMonotone(catalog, i + 1);
          AllLocals(catalog);
          return Decline(Limit);
        }
        slot, next := Some(next), next + 1;
      }
      if e.class_.LocalDevice? { slot := None; }
      bindings := bindings + [Binding(e.symbol, e.class_, slot)];
    }
    assert catalog[..|catalog|] == catalog;
    if bindings == [] && !hasReduction {
      NothingTouched(params, catalog);
      return Decline(Expression);
    }
    return Success(bindings);
  }

  lemma {:induction false} ParamMeans(params: seq<Param>, symbol: string, from: nat)
    requires from <= |params|
    ensures ParamSlot(params, symbol, from).None? <==> forall k :: from <= k < |params| ==> params[k].name != symbol
    ensures ParamSlot(params, symbol, from).Some? ==>
      forall k :: from <= k < ParamSlot(params, symbol, from).value ==> params[k].name != symbol
    decreases |params| - from
  {
    if from < |params| && params[from].name != symbol {
      ParamMeans(params, symbol, from + 1);
    }
  }

  lemma HostLocalsStep(catalog: seq<Entry>, n: nat)
    requires n < |catalog|
    ensures n !in HostLocals(catalog, n)
    ensures HostLocals(catalog, n + 1) ==
      HostLocals(catalog, n) + if (catalog[n].gpuRead || catalog[n].gpuWrite) && catalog[n].class_ == LocalHost then {n} else {}
  {
  }

  lemma {:induction false} LocalsCount(catalog: seq<Entry>, n: nat)
    requires n <= |catalog|
    ensures VisibleLocals(catalog[..n]) == |HostLocals(catalog, n)|
  {
    hide HostLocals;
    if n == 0 {
      NoHostLocals(catalog);
    } else {
      LocalsCount(catalog, n - 1);
      assert catalog[..n][..n - 1] == catalog[..n - 1];
      HostLocalsStep(catalog, n - 1);
    }
  }

  lemma NoHostLocals(catalog: seq<Entry>)
    ensures HostLocals(catalog, 0) == {}
  {
  }

  lemma StillBound(params: seq<Param>, catalog: seq<Entry>, b: Binding, k: nat)
    requires catalog != [] && Bound(params, catalog[..|catalog| - 1], b, k)
    ensures Bound(params, catalog, b, k)
  {
    assert HostLocals(catalog[..|catalog| - 1], k) == HostLocals(catalog, k);
  }

  lemma LastBound(params: seq<Param>, catalog: seq<Entry>)
    requires catalog != []
    ensures var n := |catalog| - 1;
      Bound(params, catalog, Binding(catalog[n].symbol, catalog[n].class_, SlotOf(params, catalog[n], VisibleLocals(catalog[..n]))), n)
  {
    hide VisibleLocals;
    LocalsCount(catalog, |catalog| - 1);
    ParamMeans(params, catalog[|catalog| - 1].symbol, 0);
  }

  lemma AllLocals(catalog: seq<Entry>)
    ensures VisibleLocals(catalog) == |HostLocals(catalog, |catalog|)|
  {
    LocalsCount(catalog, |catalog|);
    assert catalog[..|catalog|] == catalog;
  }

  lemma NothingTouched(params: seq<Param>, catalog: seq<Entry>)
    requires BindingsOf(params, catalog) == []
    ensures forall e :: e in catalog ==> !e.gpuRead && !e.gpuWrite
  {
    hide BindingsOf, Bound;
    var pos := Projection(params, catalog);
    forall e | e in catalog ensures !e.gpuRead && !e.gpuWrite {
      var k :| 0 <= k < |catalog| && catalog[k] == e;
      assert k !in pos;
    }
  }

  lemma ProjectsKept(params: seq<Param>, catalog: seq<Entry>, bindings: seq<Binding>, pos: seq<nat>)
    requires catalog != [] && Projects(params, catalog[..|catalog| - 1], bindings, pos)
    requires !catalog[|catalog| - 1].gpuRead && !catalog[|catalog| - 1].gpuWrite
    ensures Projects(params, catalog, bindings, pos)
  {
    hide Bound;
    forall i | 0 <= i < |pos| ensures Bound(params, catalog, bindings[i], pos[i]) {
      StillBound(params, catalog, bindings[i], pos[i]);
    }
  }

  lemma PositionsGrow(catalog: seq<Entry>, pos: seq<nat>)
    requires catalog != []
    requires forall k: nat :: k in pos <==> k < |catalog| - 1 && (catalog[..|catalog| - 1][k].gpuRead || catalog[..|catalog| - 1][k].gpuWrite)
    requires catalog[|catalog| - 1].gpuRead || catalog[|catalog| - 1].gpuWrite
    ensures forall k: nat :: k in pos + [|catalog| - 1] <==> k < |catalog| && (catalog[k].gpuRead || catalog[k].gpuWrite)
    ensures forall i :: 0 <= i < |pos| ==> pos[i] < |catalog| - 1
  {
    forall i | 0 <= i < |pos| ensures pos[i] < |catalog| - 1 {
      assert pos[i] in pos;
    }
  }

  lemma ProjectsGrown(params: seq<Param>, catalog: seq<Entry>, bindings: seq<Binding>, pos: seq<nat>, b: Binding)
    requires catalog != [] && Projects(params, catalog[..|catalog| - 1], bindings, pos)
    requires catalog[|catalog| - 1].gpuRead || catalog[|catalog| - 1].gpuWrite
    requires Bound(params, catalog, b, |catalog| - 1)
    ensures Projects(params, catalog, bindings + [b], pos + [|catalog| - 1])
  {
    hide Bound;
    PositionsGrow(catalog, pos);
    var longer := pos + [|catalog| - 1];
    forall i | 0 <= i < |longer| ensures Bound(params, catalog, (bindings + [b])[i], longer[i]) {
      if i < |pos| { StillBound(params, catalog, bindings[i], pos[i]); }
    }
  }

  lemma {:induction false} Projection(params: seq<Param>, catalog: seq<Entry>) returns (pos: seq<nat>)
    ensures Projects(params, catalog, BindingsOf(params, catalog), pos)
  {
    hide Projects, Bound, SlotOf, VisibleLocals;
    if catalog == [] {
      pos := [];
      NoProjection(params);
    } else {
      var last := catalog[|catalog| - 1];
      var front := Projection(params, catalog[..|catalog| - 1]);
      LastBound(params, catalog);
      if last.gpuRead || last.gpuWrite {
        pos := front + [|catalog| - 1];
        ProjectsGrown(params, catalog, BindingsOf(params, catalog[..|catalog| - 1]), front,
          Binding(last.symbol, last.class_, SlotOf(params, last, VisibleLocals(catalog[..|catalog| - 1]))));
      } else {
        pos := front;
        ProjectsKept(params, catalog, BindingsOf(params, catalog[..|catalog| - 1]), front);
        assert BindingsOf(params, catalog) == BindingsOf(params, catalog[..|catalog| - 1]);
      }
    }
  }

  lemma NoProjection(params: seq<Param>)
    ensures Projects(params, [], [], [])
  {
  }

  // When bindings exist, in terms of the catalog's flags and classes alone.
  lemma ExistMeans(params: seq<Param>, catalog: seq<Entry>, hasReduction: bool)
    ensures BufferBindingsExist(params, catalog, hasReduction) <==> Supported(params, catalog, hasReduction)
  {
    hide ParamSlot, BindingsOf, VisibleLocals, HostLocals, Bound;
    LocalsCount(catalog, |catalog|);
    assert catalog[..|catalog|] == catalog;
    forall e | e in catalog
      ensures ParamSlot(params, e.symbol).None? <==> forall k :: 0 <= k < |params| ==> params[k].name != e.symbol
    {
      ParamMeans(params, e.symbol, 0);
    }
    var pos := Projection(params, catalog);
    if BindingsOf(params, catalog) != [] {
      assert pos[0] in pos;
    } else {
      assert forall k: nat :: k !in pos;
    }
  }

  // Every buffer an access of some kernel touches has exactly one binding.
  lemma AccessedIsBound(
    ids: seq<int>, kernels: seq<seq<Effect>>, marks: seq<Touched>, params: seq<Param>, catalog: seq<Entry>,
    k: nat, j: nat) returns (p: nat, i: nat)
    requires |marks| == |ids| == |catalog| && k < |kernels| && j < |kernels[k]| && Known(ids, kernels[k][j])
    requires forall q :: 0 <= q < |ids| ==>
      && (marks[q].read <==> exists k :: 0 <= k < |kernels| && Touches(ids, kernels[k], q, ReadEffect))
      && (marks[q].write <==> exists k :: 0 <= k < |kernels| && Touches(ids, kernels[k], q, WriteEffect))
    requires forall q :: 0 <= q < |catalog| ==> catalog[q].gpuRead == marks[q].read && catalog[q].gpuWrite == marks[q].write
    requires forall a, b :: 0 <= a < b < |catalog| ==> catalog[a].symbol != catalog[b].symbol
    ensures p < |ids| && ids[p] == kernels[k][j].objectId && i < |BindingsOf(params, catalog)|
    ensures forall m :: 0 <= m < |BindingsOf(params, catalog)| ==>
      (BindingsOf(params, catalog)[m].symbol == catalog[p].symbol <==> m == i)
    ensures BindingsOf(params, catalog)[i].class_ == catalog[p].class_
  {
    hide BindingsOf;
    p :| Names(ids, p, kernels[k][j].objectId);
    assert Touches(ids, kernels[k], p, kernels[k][j].kind);
    var pos := Projection(params, catalog);
    assert p in pos;
    i :| 0 <= i < |pos| && pos[i] == p;
    assert Bound(params, catalog, BindingsOf(params, catalog)[i], pos[i]);
    forall m | 0 <= m < |pos| ensures BindingsOf(params, catalog)[m].symbol == catalog[p].symbol <==> m == i {
      assert Bound(params, catalog, BindingsOf(params, catalog)[m], pos[m]);
    }
  }

  lemma {:induction false} LocalsMonotone(catalog: seq<Entry>, n: nat)
    requires n <= |catalog|
    ensures VisibleLocals(catalog[..n]) <= VisibleLocals(catalog)
  {
    if n < |catalog| {
      assert catalog[..|catalog| - 1][..n] == catalog[..n];
      LocalsMonotone(catalog[..|catalog| - 1], n);
    } else {
      assert catalog[..n] == catalog;
    }
  }

  // ------------------------------------------------------------------
  // Scalar results
  // ------------------------------------------------------------------

  function NextSlot(paramCount: nat, bindings: seq<Binding>): nat {
    if bindings == [] then paramCount
    else
      var (so, slot) := (NextSlot(paramCount, bindings[..|bindings| - 1]), bindings[|bindings| - 1].slot);
      if slot.Some? && slot.value >= so then slot.value + 1 else so
  }

  function Reductions(loops: seq<bool>): nat {
    if loops == [] then 0 else Reductions(loops[..|loops| - 1]) + if loops[|loops| - 1] then 1 else 0
  }

  ghost function ReductionLoops(loops: seq<bool>, n: nat): set<nat>
    requires n <= |loops|
  {
    set i: nat | i < n && loops[i]
  }

  lemma ReductionLoopsStep(loops: seq<bool>, n: nat)
    requires n < |loops|
    ensures n !in ReductionLoops(loops, n)
    ensures ReductionLoops(loops, n + 1) == ReductionLoops(loops, n) + if loops[n] then {n} else {}
  {
  }

  lemma {:induction false} ReductionsCount(loops: seq<bool>, n: nat)
    requires n <= |loops|
    ensures Reductions(loops[..n]) == |ReductionLoops(loops, n)|
  {
    hide ReductionLoops;
    if n == 0 {
      NoReductionLoops(loops);
    } else {
      ReductionsCount(loops, n - 1);
      assert loops[..n][..n - 1] == loops[..n - 1];
      ReductionLoopsStep(loops, n - 1);
    }
  }

  lemma NoReductionLoops(loops: seq<bool>)
    ensures ReductionLoops(loops, 0) == {}
  {
  }

  // One slot a reduction loop, after every slot the buffers took.
  method AddScalarResults(paramCount: nat, bindings: seq<Binding>, loops: seq<bool>) returns (r: Status<seq<nat>>)
    ensures r.Success? <==> Reductions(loops) == 0 || NextSlot(paramCount, bindings) + Reductions(loops) <= PARAM_SIZE
    ensures r == if r.Success? then Success(Consecutive(NextSlot(paramCount, bindings), Reductions(loops))) else Decline(Limit)
  {
    var next := paramCount;
    for i := 0 to |bindings|
      invariant next == NextSlot(paramCount, bindings[..i])
    {
      assert bindings[..i + 1][..i] == bindings[..i];
      if bindings[i].slot.Some? && bindings[i].slot.value >= next {
        next := bindings[i].slot.value + 1;
      }
    }
    assert bindings[..|bindings|] == bindings;
    ghost var first := next;
    var slots: seq<nat> := [];
    for i := 0 to |loops|
      invariant slots == Consecutive(first, Reductions(loops[..i])) && next == first + |slots|
      invariant slots == [] || next <= PARAM_SIZE
    {
      assert loops[..i + 1][..i] == loops[..i];
      if loops[i] {
        if next >= PARAM_SIZE {
          ReductionsMonotone(loops, i + 1);
          return Decline(Limit);
        }
        slots := slots + [next];
        next := next + 1;
      }
    }
    assert loops[..|loops|] == loops;
    return Success(slots);
  }

  lemma {:induction false} ReductionsMonotone(loops: seq<bool>, n: nat)
    requires n <= |loops|
    ensures Reductions(loops[..n]) <= Reductions(loops)
  {
    if n < |loops| {
      assert loops[..|loops| - 1][..n] == loops[..n];
      ReductionsMonotone(loops[..|loops| - 1], n);
    } else {
      assert loops[..n] == loops;
    }
  }

  // ------------------------------------------------------------------
  // The program's own check of its argument array
  // ------------------------------------------------------------------

  // The slots bindings claim beyond the parameters, in order.
  function Claimed(bindings: seq<Binding>): seq<nat> {
    if bindings == [] then []
    else
      var last := bindings[|bindings| - 1];
      Claimed(bindings[..|bindings| - 1]) + if last.slot.Some? && !last.class_.ParameterHost? then [last.slot.value] else []
  }

  function Scalars(params: seq<Param>): seq<nat> {
    if params == [] then []
    else Scalars(params[..|params| - 1]) + if params[|params| - 1].packed then [] else [|params| - 1]
  }

  ghost predicate NoRepeats(s: seq<nat>) { forall i, j :: 0 <= i < j < |s| ==> s[i] != s[j] }

  ghost predicate Fresh(paramCount: nat, owned: seq<nat>) {
    NoRepeats(owned) && forall s :: s in owned ==> paramCount <= s < PARAM_SIZE
  }

  ghost predicate InPrefix(paramCount: nat, bindings: seq<Binding>) {
    forall b :: b in bindings && b.class_.ParameterHost? && b.slot.Some? ==> b.slot.value < paramCount
  }

  // No slot is claimed twice and none below the last is left out.
  ghost predicate DenseNamespace(paramCount: nat, scalars: seq<nat>, bindings: seq<Binding>, results: seq<nat>) {
    var owned := Claimed(bindings) + results;
    && (forall s :: s in scalars ==> s < paramCount)
    && InPrefix(paramCount, bindings)
    && Fresh(paramCount, owned)
    && forall s :: paramCount <= s < paramCount + |owned| ==> s in owned
  }

  ghost predicate Marks(occupied: seq<bool>, paramCount: nat, owned: seq<nat>) {
    && |occupied| == PARAM_SIZE && Fresh(paramCount, owned)
    && forall k :: 0 <= k < PARAM_SIZE ==> (occupied[k] <==> k < paramCount || k in owned)
  }

  lemma MarkOne(occupied: seq<bool>, paramCount: nat, owned: seq<nat>, slot: nat)
    requires Marks(occupied, paramCount, owned) && paramCount <= slot < PARAM_SIZE && !occupied[slot]
    ensures Marks(occupied[slot := true], paramCount, owned + [slot])
  {
  }

  // Claiming a slot that cannot be claimed breaks every longer claim list.
  lemma CannotClaim(occupied: seq<bool>, paramCount: nat, owned: seq<nat>, slot: nat, rest: seq<nat>)
    requires Marks(occupied, paramCount, owned)
    requires slot >= PARAM_SIZE || slot < paramCount || occupied[slot]
    ensures !Fresh(paramCount, owned + [slot] + rest)
  {
    var all := owned + [slot] + rest;
    assert all[|owned|] == slot && slot in all;
    if paramCount <= slot < PARAM_SIZE {
      var k :| 0 <= k < |owned| && owned[k] == slot;
      assert all[k] == all[|owned|];
    }
  }

  // The claim count cannot pass the end of the array.
  lemma {:induction false} FreshFits(owned: seq<nat>, lo: nat, hi: nat)
    requires lo <= hi && NoRepeats(owned) && forall s :: s in owned ==> lo <= s < hi
    ensures lo + |owned| <= hi
    decreases hi
  {
    assert owned != [] ==> owned[0] in owned;
    if lo < hi && hi - 1 in owned {
      var k :| 0 <= k < |owned| && owned[k] == hi - 1;
      var rest := owned[..k] + owned[k + 1..];
      forall s | s in rest ensures lo <= s < hi - 1 {
        assert s in owned && s != owned[k];
      }
      FreshFits(rest, lo, hi - 1);
    } else if lo < hi {
      FreshFits(owned, lo, hi - 1);
    }
  }

  function Claim(b: Binding): seq<nat> {
    if b.slot.Some? && !b.class_.ParameterHost? then [b.slot.value] else []
  }

  lemma {:induction false} ClaimedFrom(bindings: seq<Binding>, i: nat) returns (rest: seq<nat>)
    requires i < |bindings|
    ensures Claimed(bindings[..i + 1]) == Claimed(bindings[..i]) + Claim(bindings[i])
    ensures Claimed(bindings) == Claimed(bindings[..i]) + Claim(bindings[i]) + rest
    decreases |bindings| - i
  {
    assert bindings[..i + 1][..i] == bindings[..i];
    if i + 1 == |bindings| {
      assert bindings[..i + 1] == bindings;
      rest := [];
    } else {
      var r := ClaimedFrom(bindings, i + 1);
      rest := Claim(bindings[i + 1]) + r;
    }
  }

  method ValidateNamespace(paramCount: nat, scalars: seq<nat>, bindings: seq<Binding>, results: seq<nat>) returns (ok: bool)
    requires paramCount <= PARAM_SIZE
    ensures ok <==> DenseNamespace(paramCount, scalars, bindings, results)
  {
    hide Fresh, Claimed;
    var occupied := new bool[PARAM_SIZE](i => i < paramCount);
    var count := paramCount;
    for i := 0 to |scalars|
      invariant forall k :: 0 <= k < i ==> scalars[k] < paramCount
    {
      if scalars[i] >= paramCount { assert scalars[i] in scalars; return false; }
    }
    ghost var owned: seq<nat> := [];
    NothingMarked(occupied[..], paramCount, bindings);
    for i := 0 to |bindings|
      invariant owned == Claimed(bindings[..i]) && count == paramCount + |owned|
      invariant Marks(occupied[..], paramCount, owned) && InPrefix(paramCount, bindings[..i])
    {
      ghost var rest := ClaimedFrom(bindings, i);
      if bindings[i].slot.None? { continue; }
      var slot := bindings[i].slot.value;
      if bindings[i].class_.ParameterHost? {
        if slot >= paramCount { return false; }
        continue;
      }
      if slot < paramCount || slot >= PARAM_SIZE || occupied[slot] {
        CannotClaim(occupied[..], paramCount, owned, slot, rest + results);
        assert Claimed(bindings) + results == owned + [slot] + (rest + results);
        return false;
      }
      MarkOne(occupied[..], paramCount, owned, slot);
      occupied[slot] := true;
      owned, count := owned + [slot], count + 1;
    }
    assert bindings[..|bindings|] == bindings;
    for i := 0 to |results|
      invariant owned == Claimed(bindings) + results[..i] && count == paramCount + |owned|
      invariant Marks(occupied[..], paramCount, owned)
    {
      if results[i] >= PARAM_SIZE || occupied[results[i]] {
        CannotClaim(occupied[..], paramCount, owned, results[i], results[i + 1..]);
        assert Claimed(bindings) + results == owned + [results[i]] + results[i + 1..];
        return false;
      }
      MarkOne(occupied[..], paramCount, owned, results[i]);
      occupied[results[i]] := true;
      owned, count := owned + [results[i]], count + 1;
    }
    assert results[..|results|] == results;
    MarkedFits(occupied[..], paramCount, owned);
    for i := 0 to count
      invariant forall k :: 0 <= k < i ==> occupied[k]
    {
      if !occupied[i] { assert i !in owned; return false; }
    }
    assert forall s: nat :: paramCount <= s < count ==> occupied[..][s] && s in owned;
    return true;
  }

  // Binding i claims slot s beyond the parameters.
  predicate Claims(bindings: seq<Binding>, i: nat, s: nat) {
    i < |bindings| && bindings[i].class_ != ParameterHost && bindings[i].slot == Some(s)
  }

  lemma MeetTwice(a: seq<nat>, b: seq<nat>, x: nat)
    requires x in a && x in b
    ensures !NoRepeats(a + b)
  {
    var i :| 0 <= i < |a| && a[i] == x;
    var j :| 0 <= j < |b| && b[j] == x;
    assert (a + b)[i] == (a + b)[|a| + j];
  }

  lemma JoinNoRepeats(a: seq<nat>, b: seq<nat>)
    ensures NoRepeats(a + b) <==> NoRepeats(a) && NoRepeats(b) && forall s :: s in a ==> s !in b
  {
    var all := a + b;
    if NoRepeats(all) {
      forall s | s in a ensures s !in b {
        if s in b { MeetTwice(a, b, s); }
      }
      forall i, j | 0 <= i < j < |b| ensures b[i] != b[j] {
        assert b[i] == all[|a| + i] && b[j] == all[|a| + j];
      }
      forall i, j | 0 <= i < j < |a| ensures a[i] != a[j] {
        assert a[i] == all[i] && a[j] == all[j];
      }
    } else if NoRepeats(a) && NoRepeats(b) {
      var i, j :| 0 <= i < j < |all| && all[i] == all[j];
      assert i < |a| <= j;
      assert a[i] in a && b[j - |a|] in b;
    }
  }

  lemma NoClaims()
    ensures forall i: nat, s: nat :: !Claims([], i, s)
  {
  }

  lemma ClaimsStep(bindings: seq<Binding>)
    requires bindings != []
    ensures forall i: nat, s: nat {:trigger Claims(bindings, i, s)} :: Claims(bindings, i, s) <==>
      if i == |bindings| - 1 then s in Claim(bindings[i]) else Claims(bindings[..|bindings| - 1], i, s)
    ensures forall i: nat, s: nat {:trigger Claims(bindings[..|bindings| - 1], i, s)} ::
      Claims(bindings[..|bindings| - 1], i, s) ==> Claims(bindings, i, s) && i < |bindings| - 1
    ensures NoRepeats(Claim(bindings[|bindings| - 1]))
    ensures Claimed(bindings) == Claimed(bindings[..|bindings| - 1]) + Claim(bindings[|bindings| - 1])
  {
  }

  lemma {:induction false} ClaimedMeans(bindings: seq<Binding>)
    ensures forall s: nat :: s in Claimed(bindings) <==> exists i: nat :: Claims(bindings, i, s)
    ensures NoRepeats(Claimed(bindings)) <==> forall i: nat, j: nat, s: nat :: i < j && Claims(bindings, i, s) ==> !Claims(bindings, j, s)
  {
    hide Claims, Claim;
    if bindings == [] {
      NoClaims();
    } else {
      var n := |bindings| - 1;
      var front, claim := bindings[..n], Claim(bindings[n]);
      ClaimedMeans(front);
      JoinNoRepeats(Claimed(front), claim);
      ClaimsStep(bindings);
      forall s: nat ensures Claims(bindings, n, s) <==> s in claim {
      }
    }
  }

  function Dropped(owned: seq<nat>, k: nat): seq<nat>
    requires k < |owned|
  {
    owned[..k] + owned[k + 1..]
  }

  lemma StillIn(owned: seq<nat>, k: nat, x: nat)
    requires k < |owned| && x in owned && x != owned[k]
    ensures x in Dropped(owned, k)
  {
    var m :| 0 <= m < |owned| && owned[m] == x;
    assert Dropped(owned, k)[if m < k then m else m - 1] == x;
  }

  lemma {:induction false} CoverNeeds(owned: seq<nat>, lo: nat, hi: nat)
    requires lo <= hi && forall s: nat :: lo <= s < hi ==> s in owned
    ensures |owned| >= hi - lo
    decreases hi
  {
    if lo < hi {
      assert hi - 1 in owned;
      var k :| 0 <= k < |owned| && owned[k] == hi - 1;
      forall s: nat | lo <= s < hi - 1 ensures s in Dropped(owned, k) {
        StillIn(owned, k, s);
      }
      CoverNeeds(Dropped(owned, k), lo, hi - 1);
    }
  }

  // Claims fill the slots from the parameters on exactly when none below a
  // claimed one is left out.
  lemma DenseIffNoGap(owned: seq<nat>, lo: nat)
    requires NoRepeats(owned) && forall s :: s in owned ==> lo <= s
    ensures (forall s: nat :: lo <= s < lo + |owned| ==> s in owned) <==>
      forall s: nat, t: nat :: lo <= s < t && t in owned ==> s in owned
  {
    if forall s: nat :: lo <= s < lo + |owned| ==> s in owned {
      forall s: nat, t: nat | lo <= s < t && t in owned ensures s in owned {
        if s !in owned {
          var k :| 0 <= k < |owned| && owned[k] == t;
          forall x: nat | lo <= x < lo + |owned| ensures x in Dropped(owned, k) {
            StillIn(owned, k, x);
          }
          CoverNeeds(Dropped(owned, k), lo, lo + |owned|);
        }
      }
    }
    if forall s: nat, t: nat :: lo <= s < t && t in owned ==> s in owned {
      forall s: nat | lo <= s < lo + |owned| ensures s in owned {
        if s !in owned {
          assert forall t :: t in owned ==> lo <= t < s;
          FreshFits(owned, lo, s);
        }
      }
    }
  }

  ghost predicate Taken(bindings: seq<Binding>, results: seq<nat>, s: nat) {
    s in results || exists i: nat :: Claims(bindings, i, s)
  }

  // An argument array passes exactly when scalars and parameter buffers are
  // parameters, no other slot is claimed twice, and none below a claimed
  // slot is left out.
  lemma NamespaceMeans(paramCount: nat, scalars: seq<nat>, bindings: seq<Binding>, results: seq<nat>)
    ensures DenseNamespace(paramCount, scalars, bindings, results) <==>
      && (forall s :: s in scalars ==> s < paramCount)
      && (forall b :: b in bindings && b.class_ == ParameterHost && b.slot.Some? ==> b.slot.value < paramCount)
      && (forall s: nat :: Taken(bindings, results, s) ==> paramCount <= s < 32)
      && (forall i: nat, j: nat, s: nat :: i < j && Claims(bindings, i, s) ==> !Claims(bindings, j, s))
      && (forall i, j :: 0 <= i < j < |results| ==> results[i] != results[j])
      && (forall i: nat, s: nat :: Claims(bindings, i, s) ==> s !in results)
      && (forall s: nat, t: nat :: paramCount <= s < t && Taken(bindings, results, t) ==> Taken(bindings, results, s))
  {
    hide Claims, Claimed;
    var claimed := Claimed(bindings);
    var owned := claimed + results;
    ClaimedMeans(bindings);
    JoinNoRepeats(claimed, results);
    assert forall s: nat :: s in owned <==> Taken(bindings, results, s);
    if Fresh(paramCount, owned) {
      DenseIffNoGap(owned, paramCount);
    }
  }

  lemma MarkedFits(occupied: seq<bool>, paramCount: nat, owned: seq<nat>)
    requires paramCount <= PARAM_SIZE && Marks(occupied, paramCount, owned)
    ensures paramCount + |owned| <= PARAM_SIZE
  {
    FreshFits(owned, paramCount, PARAM_SIZE);
  }

  lemma NothingMarked(occupied: seq<bool>, paramCount: nat, bindings: seq<Binding>)
    requires |occupied| == PARAM_SIZE && forall k :: 0 <= k < PARAM_SIZE ==> (occupied[k] <==> k < paramCount)
    ensures Marks(occupied, paramCount, []) && Claimed(bindings[..0]) == []
  {
  }

  // ------------------------------------------------------------------
  // The slots a region gets
  // ------------------------------------------------------------------

  lemma BindOne(paramCount: nat, bindings: seq<Binding>, b: Binding)
    ensures Claimed(bindings + [b]) == Claimed(bindings) + Claim(b)
    ensures NextSlot(paramCount, bindings + [b]) ==
      if b.slot.Some? && b.slot.value >= NextSlot(paramCount, bindings) then b.slot.value + 1 else NextSlot(paramCount, bindings)
  {
    assert (bindings + [b])[..|bindings|] == bindings;
  }

  // The locals of a region take consecutive slots after the parameters.
  lemma {:induction false} LayoutClaims(params: seq<Param>, catalog: seq<Entry>)
    requires Bindable(params, catalog)
    ensures Claimed(BindingsOf(params, catalog)) == Consecutive(|params|, VisibleLocals(catalog))
    ensures NextSlot(|params|, BindingsOf(params, catalog)) == |params| + VisibleLocals(catalog)
  {
    hide Claimed, NextSlot, ParamSlot;
    if catalog == [] {
      assert Claimed([]) == [] && NextSlot(|params|, []) == |params| by { NothingBound(|params|); }
    } else {
      var (front, last) := (catalog[..|catalog| - 1], catalog[|catalog| - 1]);
      LayoutClaims(params, front);
      if Visible(last) {
        assert !Escaping(last) && !Slotless(params, last);
        BindOne(|params|, BindingsOf(params, front), Binding(last.symbol, last.class_, SlotOf(params, last, VisibleLocals(front))));
      } else {
        assert BindingsOf(params, catalog) == BindingsOf(params, front);
      }
    }
  }

  lemma NothingBound(paramCount: nat)
    ensures Claimed([]) == [] && NextSlot(paramCount, []) == paramCount
  {
  }

  // Which entry each binding comes from.
  lemma {:induction false} BindingSource(params: seq<Param>, catalog: seq<Entry>, i: nat) returns (k: nat)
    requires i < |BindingsOf(params, catalog)|
    ensures k < |catalog| && Visible(catalog[k])
    ensures BindingsOf(params, catalog)[i] == Binding(catalog[k].symbol, catalog[k].class_, SlotOf(params, catalog[k], VisibleLocals(catalog[..k])))
    ensures i == |BindingsOf(params, catalog[..k])|
  {
    var front := catalog[..|catalog| - 1];
    if i < |BindingsOf(params, front)| {
      k := BindingSource(params, front, i);
      assert front[..k] == catalog[..k];
    } else {
      k := |catalog| - 1;
    }
  }

  lemma {:induction false} BindingsGrow(params: seq<Param>, catalog: seq<Entry>, i: nat, j: nat)
    requires i <= j <= |catalog|
    ensures |BindingsOf(params, catalog[..i])| <= |BindingsOf(params, catalog[..j])|
    ensures VisibleLocals(catalog[..i]) <= VisibleLocals(catalog[..j])
    decreases j
  {
    if i < j {
      assert catalog[..j][..j - 1] == catalog[..j - 1];
      BindingsGrow(params, catalog, i, j - 1);
    }
  }

  // Symbols of the catalog are distinct, and a parameter buffer is a packed
  // parameter.
  ghost predicate Cataloged(params: seq<Param>, catalog: seq<Entry>) {
    && (forall i, j :: 0 <= i < j < |catalog| ==> catalog[i].symbol != catalog[j].symbol)
    && forall e :: e in catalog && e.class_.ParameterHost? && ParamSlot(params, e.symbol).Some? ==>
         params[ParamSlot(params, e.symbol).value].packed
  }

  // No two bindings share a slot, and none is a scalar parameter's.
  lemma BindingSlotsDistinct(params: seq<Param>, catalog: seq<Entry>, i: nat, j: nat)
    requires Bindable(params, catalog) && Cataloged(params, catalog)
    requires i < j < |BindingsOf(params, catalog)| && BindingsOf(params, catalog)[i].slot.Some?
    ensures BindingsOf(params, catalog)[i].slot != BindingsOf(params, catalog)[j].slot
  {
    hide BindingsOf, VisibleLocals, ParamSlot;
    var k := BindingSource(params, catalog, i);
    var l := BindingSource(params, catalog, j);
    if l <= k {
      BindingsGrow(params, catalog, l, k);
      assert false;
    }
    BindingsGrow(params, catalog, k, l);
    if catalog[k].class_.LocalHost? && catalog[l].class_.LocalHost? {
      LocalCounts(catalog, k, l);
      BindingsGrow(params, catalog, k + 1, l);
    }
  }

  lemma LocalCounts(catalog: seq<Entry>, k: nat, l: nat)
    requires k < l <= |catalog| && Visible(catalog[k]) && catalog[k].class_.LocalHost?
    ensures VisibleLocals(catalog[..k + 1]) == VisibleLocals(catalog[..k]) + 1
  {
    assert catalog[..k + 1][..k] == catalog[..k];
  }

  // The scalar slots are the positions of the unpacked parameters.
  lemma {:induction false} ScalarsAre(params: seq<Param>, s: nat)
    ensures s in Scalars(params) <==> s < |params| && !params[s].packed
  {
    if params != [] {
      var front := params[..|params| - 1];
      ScalarsAre(front, s);
      if s < |front| {
        assert front[s] == params[s];
      }
    }
  }

  lemma NotAScalar(params: seq<Param>, catalog: seq<Entry>, i: nat)
    requires Bindable(params, catalog) && Cataloged(params, catalog) && i < |BindingsOf(params, catalog)|
    ensures BindingsOf(params, catalog)[i].slot.Some? ==> BindingsOf(params, catalog)[i].slot.value !in Scalars(params)
    ensures BindingsOf(params, catalog)[i].slot.None? <==> BindingsOf(params, catalog)[i].class_.LocalDevice?
  {
    hide BindingsOf, VisibleLocals, Scalars;
    var k := BindingSource(params, catalog, i);
    assert !Escaping(catalog[k]) && !Slotless(params, catalog[k]);
    if catalog[k].class_.ParameterHost? {
      ScalarsAre(params, ParamSlot(params, catalog[k].symbol).value);
    } else if catalog[k].class_.LocalHost? {
      ScalarsAre(params, |params| + VisibleLocals(catalog[..k]));
    }
  }

  // What the compiler lays out is exactly what the program's own check
  // demands: locals and then results fill the slots after the parameters
  // without a gap.
  lemma RegionNamespaceDense(params: seq<Param>, catalog: seq<Entry>, hasReduction: bool, loops: seq<bool>)
    requires BufferBindingsExist(params, catalog, hasReduction)
    requires |params| + |HostLocals(catalog, |catalog|)| + |ReductionLoops(loops, |loops|)| <= PARAM_SIZE
    ensures NextSlot(|params|, BindingsOf(params, catalog)) == |params| + |HostLocals(catalog, |catalog|)|
    ensures Reductions(loops) == |ReductionLoops(loops, |loops|)|
    ensures var bindings := BindingsOf(params, catalog);
      && DenseNamespace(|params|, Scalars(params), bindings, Consecutive(NextSlot(|params|, bindings), Reductions(loops)))
      && Claimed(bindings) + Consecutive(NextSlot(|params|, bindings), Reductions(loops))
         == Consecutive(|params|, |HostLocals(catalog, |catalog|)| + |ReductionLoops(loops, |loops|)|)
  {
    hide BindingsOf, Claimed, NextSlot, VisibleLocals, Reductions, Scalars, Bindable, HostLocals, ReductionLoops, DenseNamespace, Consecutive;
    LocalsCount(catalog, |catalog|);
    ReductionsCount(loops, |loops|);
    assert catalog[..|catalog|] == catalog && loops[..|loops|] == loops;
    LayoutClaims(params, catalog);
    LayoutDense(params, catalog, hasReduction, loops);
  }

  lemma LayoutDense(params: seq<Param>, catalog: seq<Entry>, hasReduction: bool, loops: seq<bool>)
    requires BufferBindingsExist(params, catalog, hasReduction)
    requires |params| + VisibleLocals(catalog) + Reductions(loops) <= PARAM_SIZE
    ensures var bindings := BindingsOf(params, catalog);
      && DenseNamespace(|params|, Scalars(params), bindings, Consecutive(NextSlot(|params|, bindings), Reductions(loops)))
      && Claimed(bindings) + Consecutive(NextSlot(|params|, bindings), Reductions(loops))
         == Consecutive(|params|, VisibleLocals(catalog) + Reductions(loops))
  {
    hide BindingsOf, Claimed, NextSlot, VisibleLocals, Reductions, Scalars, Bindable;
    var bindings := BindingsOf(params, catalog);
    LayoutClaims(params, catalog);
    forall s | s in Scalars(params) ensures s < |params| { ScalarsAre(params, s); }
    var owned := Claimed(bindings) + Consecutive(NextSlot(|params|, bindings), Reductions(loops));
    var total := VisibleLocals(catalog) + Reductions(loops);
    assert owned == Consecutive(|params|, total);
    forall s: nat | |params| <= s < |params| + total ensures s in owned {
      assert owned[s - |params|] == s;
    }
    LayoutPrefix(params, catalog);
  }

  lemma LayoutPrefix(params: seq<Param>, catalog: seq<Entry>)
    ensures InPrefix(|params|, BindingsOf(params, catalog))
  {
    hide BindingsOf, VisibleLocals;
    var bindings := BindingsOf(params, catalog);
    forall b | b in bindings && b.class_.ParameterHost? && b.slot.Some? ensures b.slot.value < |params| {
      var i :| 0 <= i < |bindings| && bindings[i] == b;
      var k := BindingSource(params, catalog, i);
    }
  }
}
