// Required ranges of every buffer: the table the compiler builds from the
// access summaries of a region's loops, and why it bounds every access.

module Ranges {
  import opened Words
  import opened Hir
  import opened Lowering
  import opened SizeDag
  import opened LoweringMeaning

  const MAX_KERNELS: nat := 32

  datatype Span = Span(first: Option<nat>, end: Option<nat>)

  const NO_SPAN := Span(None, None)

  datatype Effect = Effect(read: bool, write: bool, readBeforeWrite: bool, fullOverwrite: bool)

  const NO_EFFECT := Effect(false, false, false, false)

  datatype Row = Row(all: Span, kernel: seq<Span>, effect: seq<Effect>)

  const EMPTY_ROW := Row(NO_SPAN, seq(MAX_KERNELS, _ => NO_SPAN), seq(MAX_KERNELS, _ => NO_EFFECT))

  // ------------------------------------------------------------------
  // Merging one access
  // ------------------------------------------------------------------

  function MergePair(nodes: Table, span: Span, first: nat, end: nat): Status<(Table, Span)> {
    var (n1, f) :- if span.first.None? then Success((nodes, first)) else AddSize(nodes, MinNode(span.first.value, first));
    var (n2, e) :- if span.end.None? then Success((n1, end)) else AddSize(n1, MaxNode(span.end.value, end));
    Success((n2, Span(Some(f), Some(e))))
  }

  function Noted(effect: Effect, write: bool): Effect {
    if write then effect.(write := true)
    else effect.(read := true, readBeforeWrite := effect.readBeforeWrite || !effect.write)
  }

  predicate RowShaped(row: Row) { |row.kernel| == MAX_KERNELS && |row.effect| == MAX_KERNELS }

  predicate Shaped(rows: seq<Row>) { forall b :: 0 <= b < |rows| ==> RowShaped(rows[b]) }

  function AddAccess(nodes: Table, rows: seq<Row>, scalars: seq<Scalar>, k: nat, start: nat, stop: nat, a: Access): (r: Status<(Table, seq<Row>)>)
    requires Shaped(rows)
    ensures r.Success? ==> Shaped(r.value.1) && |r.value.1| == |rows|
  {
    if a.buffer >= |rows| then Status.Failure(HardError)
    else
      var row := rows[a.buffer];
      var (n1, first) :- ApplyAffine(nodes, scalars, start, a.index);
      var (n2, end) :- ApplyAffine(n1, scalars, stop, a.index);
      if k >= MAX_KERNELS then Status.Failure(HardError)
      else
        var (n3, all) :- MergePair(n2, row.all, first, end);
        var (n4, own) :- MergePair(n3, row.kernel[k], first, end);
        Success((n4, rows[a.buffer := Row(all, row.kernel[k := own], row.effect[k := Noted(row.effect[k], a.write)])]))
  }

  function AddAccesses(nodes: Table, rows: seq<Row>, scalars: seq<Scalar>, k: nat, start: nat, stop: nat, accesses: seq<Access>):
    (r: Status<(Table, seq<Row>)>)
    requires Shaped(rows)
    ensures r.Success? ==> Shaped(r.value.1) && |r.value.1| == |rows|
    decreases |accesses|
  {
    if accesses == [] then Success((nodes, rows))
    else
      var (n1, rows1) :- AddAccesses(nodes, rows, scalars, k, start, stop, accesses[..|accesses| - 1]);
      AddAccess(n1, rows1, scalars, k, start, stop, accesses[|accesses| - 1])
  }

  // ------------------------------------------------------------------
  // What the spans mean
  // ------------------------------------------------------------------

  type Interval = Option<(int, int)>

  function Join(a: Interval, b: Interval): Interval {
    match (a, b)
    case (None, _) => b
    case (_, None) => a
    case (Some(x), Some(y)) => Some((Min(x.0, y.0), Max(x.1, y.1)))
  }

  predicate SpanBuilt(nodes: Table, span: Span) {
    span.first.Some? == span.end.Some?
    && (span.first.Some? ==> span.first.value < |nodes| && span.end.value < |nodes|)
  }

  function SpanValue(nodes: Table, span: Span, vals: seq<int>): Interval
    requires SpanBuilt(nodes, span) && Ordered(nodes, |vals|)
  {
    if span.first.None? then None
    else Some((Exact(nodes, span.first.value, vals), Exact(nodes, span.end.value, vals)))
  }

  ghost predicate RowBuilt(nodes: Table, row: Row) {
    RowShaped(row) && SpanBuilt(nodes, row.all) && forall k :: 0 <= k < MAX_KERNELS ==> SpanBuilt(nodes, row.kernel[k])
  }

  // The join of the first n per-kernel intervals of a row.
  function JoinKernels(nodes: Table, row: Row, n: nat, vals: seq<int>): Interval
    requires n <= MAX_KERNELS && RowBuilt(nodes, row) && Ordered(nodes, |vals|)
  {
    if n == 0 then None
    else Join(JoinKernels(nodes, row, n - 1, vals), SpanValue(nodes, row.kernel[n - 1], vals))
  }

  // Every span names existing nodes, and every aggregate is the join of its
  // per-kernel spans.
  ghost predicate RowsBuilt(nodes: Table, rows: seq<Row>, vals: seq<int>) {
    && Sized(nodes, vals)
    && forall b :: 0 <= b < |rows| ==>
         RowBuilt(nodes, rows[b])
         && SpanValue(nodes, rows[b].all, vals) == JoinKernels(nodes, rows[b], MAX_KERNELS, vals)
  }

  lemma SpanOfPrefix(nodes: Table, longer: Table, span: Span, vals: seq<int>)
    requires nodes <= longer && SpanBuilt(nodes, span) && Ordered(nodes, |vals|) && Ordered(longer, |vals|)
    ensures SpanBuilt(longer, span) && SpanValue(longer, span, vals) == SpanValue(nodes, span, vals)
  {
    hide Exact;
    if span.first.Some? {
      ExactOfPrefix(nodes, longer, span.first.value, vals);
      ExactOfPrefix(nodes, longer, span.end.value, vals);
    }
  }

  lemma {:induction false} JoinOfPrefix(nodes: Table, longer: Table, row: Row, n: nat, vals: seq<int>)
    requires nodes <= longer && n <= MAX_KERNELS
    requires RowBuilt(nodes, row) && Ordered(nodes, |vals|) && Ordered(longer, |vals|)
    ensures RowBuilt(longer, row) && JoinKernels(longer, row, n, vals) == JoinKernels(nodes, row, n, vals)
  {
    if n > 0 {
      JoinOfPrefix(nodes, longer, row, n - 1, vals);
      SpanOfPrefix(nodes, longer, row.kernel[n - 1], vals);
    }
  }

  lemma RowsOfPrefix(nodes: Table, longer: Table, rows: seq<Row>, vals: seq<int>)
    requires RowsBuilt(nodes, rows, vals) && nodes <= longer && Sized(longer, vals)
    ensures RowsBuilt(longer, rows, vals)
  {
    forall b | 0 <= b < |rows|
      ensures RowBuilt(longer, rows[b])
        && SpanValue(longer, rows[b].all, vals) == JoinKernels(longer, rows[b], MAX_KERNELS, vals)
    {
      JoinOfPrefix(nodes, longer, rows[b], MAX_KERNELS, vals);
      SpanOfPrefix(nodes, longer, rows[b].all, vals);
    }
  }

  lemma MergeBuilds(nodes: Table, span: Span, first: nat, end: nat, vals: seq<int>)
    requires Sized(nodes, vals) && SpanBuilt(nodes, span) && first < |nodes| && end < |nodes|
    requires MergePair(nodes, span, first, end).Success?
    ensures var (after, merged) := MergePair(nodes, span, first, end).value;
      && nodes <= after && Sized(after, vals) && SpanBuilt(after, merged) && merged.first.Some?
      && SpanValue(after, merged, vals)
         == Join(SpanValue(nodes, span, vals), Some((Exact(nodes, first, vals), Exact(nodes, end, vals))))
  {
    hide Exact, Ordered;
    if span.first.Some? {
      AddBuilds(nodes, MinNode(span.first.value, first), vals);
      var (n1, f) := AddSize(nodes, MinNode(span.first.value, first)).value;
      AddBuilds(n1, MaxNode(span.end.value, end), vals);
    }
  }

  lemma {:induction false} JoinKernelsUpdate(nodes: Table, row: Row, k: nat, own: Span, x: Interval, n: nat, vals: seq<int>)
    requires n <= MAX_KERNELS && k < MAX_KERNELS && RowBuilt(nodes, row) && SpanBuilt(nodes, own) && Ordered(nodes, |vals|)
    requires SpanValue(nodes, own, vals) == Join(SpanValue(nodes, row.kernel[k], vals), x)
    ensures var row1 := row.(kernel := row.kernel[k := own]);
      && RowBuilt(nodes, row1)
      && JoinKernels(nodes, row1, n, vals) ==
         (if k < n then Join(JoinKernels(nodes, row, n, vals), x) else JoinKernels(nodes, row, n, vals))
  {
    hide SpanValue;
    if n > 0 {
      JoinKernelsUpdate(nodes, row, k, own, x, n - 1, vals);
    }
  }

  // ------------------------------------------------------------------
  // One kernel's accesses
  // ------------------------------------------------------------------

  // The half-open interval of elements access a reaches while the counter
  // runs from lo to hi.
  function AccessInterval(a: Access, lo: int, hi: int, scalars: seq<Scalar>, vals: seq<int>): Interval {
    Some((AffineExact(a.index, lo, scalars, vals), AffineExact(a.index, hi, scalars, vals)))
  }

  // The join over the accesses to buffer b.
  function BoundsOf(accesses: seq<Access>, b: nat, lo: int, hi: int, scalars: seq<Scalar>, vals: seq<int>): Interval {
    if accesses == [] then None
    else
      var front, last := BoundsOf(accesses[..|accesses| - 1], b, lo, hi, scalars, vals), accesses[|accesses| - 1];
      if last.buffer == b then Join(front, AccessInterval(last, lo, hi, scalars, vals)) else front
  }

  ghost predicate Merged(
    nodes: Table, rows: seq<Row>, after: Table, rows1: seq<Row>, k: nat, added: nat -> Interval, vals: seq<int>)
  {
    && RowsBuilt(nodes, rows, vals) && RowsBuilt(after, rows1, vals)
    && nodes <= after && |rows1| == |rows| && k < MAX_KERNELS
    && (forall b, j :: 0 <= b < |rows| && 0 <= j < MAX_KERNELS ==>
         SpanValue(after, rows1[b].kernel[j], vals) ==
         (if j == k then Join(SpanValue(nodes, rows[b].kernel[j], vals), added(b))
          else SpanValue(nodes, rows[b].kernel[j], vals)))
  }

  function OnBuffer(a: Access, x: Interval): nat -> Interval { b => if b == a.buffer then x else None }

  // Merging the pair (first, end) into one row.
  lemma RowMerges(nodes: Table, row: Row, first: nat, end: nat, k: nat, vals: seq<int>)
    requires Sized(nodes, vals) && RowBuilt(nodes, row) && k < MAX_KERNELS && first < |nodes| && end < |nodes|
    requires SpanValue(nodes, row.all, vals) == JoinKernels(nodes, row, MAX_KERNELS, vals)
    requires MergePair(nodes, row.all, first, end).Success?
    requires MergePair(MergePair(nodes, row.all, first, end).value.0, row.kernel[k], first, end).Success?
    ensures var (n3, all) := MergePair(nodes, row.all, first, end).value;
      var (n4, own) := MergePair(n3, row.kernel[k], first, end).value;
      var row1 := row.(all := all, kernel := row.kernel[k := own]);
      && nodes <= n4 && Sized(n4, vals) && RowBuilt(n4, row1)
      && SpanValue(n4, all, vals) == JoinKernels(n4, row1, MAX_KERNELS, vals)
      && SpanValue(n4, own, vals) ==
         Join(SpanValue(nodes, row.kernel[k], vals), Some((Exact(nodes, first, vals), Exact(nodes, end, vals))))
      && (forall j :: 0 <= j < MAX_KERNELS && j != k ==>
           SpanValue(n4, row.kernel[j], vals) == SpanValue(nodes, row.kernel[j], vals))
  {
    hide Exact, Ordered, SpanBuilt, SpanValue, MergePair, Join;
    MergeBuilds(nodes, row.all, first, end, vals);
    var (n3, all) := MergePair(nodes, row.all, first, end).value;
    SpanOfPrefix(nodes, n3, row.kernel[k], vals);
    ExactOfPrefix(nodes, n3, first, vals);
    ExactOfPrefix(nodes, n3, end, vals);
    MergeBuilds(n3, row.kernel[k], first, end, vals);
    var (n4, own) := MergePair(n3, row.kernel[k], first, end).value;
    SpanOfPrefix(n3, n4, all, vals);
    JoinOfPrefix(nodes, n4, row, MAX_KERNELS, vals);
    var x := Some((Exact(nodes, first, vals), Exact(nodes, end, vals)));
    SpanOfPrefix(nodes, n4, row.kernel[k], vals);
    JoinKernelsUpdate(n4, row, k, own, x, MAX_KERNELS, vals);
    JoinIgnoresAll(n4, row.(kernel := row.kernel[k := own]), all, MAX_KERNELS, vals);
    forall j | 0 <= j < MAX_KERNELS && j != k
      ensures SpanValue(n4, row.kernel[j], vals) == SpanValue(nodes, row.kernel[j], vals)
    {
      SpanOfPrefix(nodes, n4, row.kernel[j], vals);
    }
  }

  lemma {:induction false} JoinIgnoresAll(nodes: Table, row: Row, all: Span, n: nat, vals: seq<int>)
    requires n <= MAX_KERNELS && RowBuilt(nodes, row) && SpanBuilt(nodes, all) && Ordered(nodes, |vals|)
    ensures RowBuilt(nodes, row.(all := all))
    ensures JoinKernels(nodes, row.(all := all), n, vals) == JoinKernels(nodes, row, n, vals)
  {
    hide SpanValue;
    if n > 0 {
      JoinIgnoresAll(nodes, row, all, n - 1, vals);
    }
  }

  lemma {:induction false} JoinIgnoresEffect(nodes: Table, row: Row, effect: seq<Effect>, n: nat, vals: seq<int>)
    requires n <= MAX_KERNELS && RowBuilt(nodes, row) && |effect| == MAX_KERNELS && Ordered(nodes, |vals|)
    ensures RowBuilt(nodes, row.(effect := effect))
    ensures JoinKernels(nodes, row.(effect := effect), n, vals) == JoinKernels(nodes, row, n, vals)
  {
    hide SpanValue;
    if n > 0 {
      JoinIgnoresEffect(nodes, row, effect, n - 1, vals);
    }
  }

  lemma AddAccessMerges(
    nodes: Table, rows: seq<Row>, scalars: seq<Scalar>, k: nat, start: nat, stop: nat, a: Access, vals: seq<int>)
    requires RowsBuilt(nodes, rows, vals) && Shaped(rows) && |vals| == |scalars|
    requires start < |nodes| && stop < |nodes|
    requires AddAccess(nodes, rows, scalars, k, start, stop, a).Success?
    ensures var (after, rows1) := AddAccess(nodes, rows, scalars, k, start, stop, a).value;
      Merged(nodes, rows, after, rows1, k,
        OnBuffer(a, AccessInterval(a, Exact(nodes, start, vals), Exact(nodes, stop, vals), scalars, vals)), vals)
  {
    hide Exact, Ordered, SpanValue, JoinKernels, MergePair, ApplyAffine, Join, AffineExact, SpanBuilt;
    var row := rows[a.buffer];
    AffineBuilds(nodes, scalars, start, a.index, vals);
    var (n1, first) := ApplyAffine(nodes, scalars, start, a.index).value;
    ExactOfPrefix(nodes, n1, stop, vals);
    AffineBuilds(n1, scalars, stop, a.index, vals);
    var (n2, end) := ApplyAffine(n1, scalars, stop, a.index).value;
    ExactOfPrefix(n1, n2, first, vals);
    RowsOfPrefix(nodes, n2, rows, vals);
    RowMerges(n2, row, first, end, k, vals);
    var (n3, all) := MergePair(n2, row.all, first, end).value;
    var (n4, own) := MergePair(n3, row.kernel[k], first, end).value;
    var row1 := row.(all := all, kernel := row.kernel[k := own]);
    JoinIgnoresEffect(n4, row1, row.effect[k := Noted(row.effect[k], a.write)], MAX_KERNELS, vals);
    RowsOfPrefix(n2, n4, rows, vals);
    forall b, j | 0 <= b < |rows| && 0 <= j < MAX_KERNELS
      ensures SpanValue(n2, rows[b].kernel[j], vals) == SpanValue(nodes, rows[b].kernel[j], vals)
      ensures SpanValue(n4, rows[b].kernel[j], vals) == SpanValue(nodes, rows[b].kernel[j], vals)
    {
      SpanOfPrefix(nodes, n2, rows[b].kernel[j], vals);
      SpanOfPrefix(nodes, n4, rows[b].kernel[j], vals);
    }
    JoinNone();
  }

  lemma JoinNone()
    ensures forall x: Interval :: Join(x, None) == x
  {
  }

  lemma {:induction false} AddAccessesMerge(
    nodes: Table, rows: seq<Row>, scalars: seq<Scalar>, k: nat, start: nat, stop: nat, accesses: seq<Access>, vals: seq<int>)
    requires RowsBuilt(nodes, rows, vals) && Shaped(rows) && |vals| == |scalars| && k < MAX_KERNELS
    requires start < |nodes| && stop < |nodes|
    requires AddAccesses(nodes, rows, scalars, k, start, stop, accesses).Success?
    ensures var (after, rows1) := AddAccesses(nodes, rows, scalars, k, start, stop, accesses).value;
      Merged(nodes, rows, after, rows1, k,
        (b: nat) => BoundsOf(accesses, b, Exact(nodes, start, vals), Exact(nodes, stop, vals), scalars, vals), vals)
    decreases |accesses|
  {
    hide Exact, SpanValue, RowsBuilt, AddAccess, Ordered, AffineExact;
    JoinNone();
    if accesses != [] {
      var front, last := accesses[..|accesses| - 1], accesses[|accesses| - 1];
      AddAccessesMerge(nodes, rows, scalars, k, start, stop, front, vals);
      var (n1, rows1) := AddAccesses(nodes, rows, scalars, k, start, stop, front).value;
      RowsBuiltOrdered(nodes, rows, vals);
      RowsBuiltOrdered(n1, rows1, vals);
      ExactOfPrefix(nodes, n1, start, vals);
      ExactOfPrefix(nodes, n1, stop, vals);
      AddAccessMerges(n1, rows1, scalars, k, start, stop, last, vals);
    }
  }

  lemma RowsBuiltOrdered(nodes: Table, rows: seq<Row>, vals: seq<int>)
    requires RowsBuilt(nodes, rows, vals)
    ensures Sized(nodes, vals) && forall b :: 0 <= b < |rows| ==> RowBuilt(nodes, rows[b])
  {
  }

  // ------------------------------------------------------------------
  // A region's kernels, in source order
  // ------------------------------------------------------------------

  datatype LoopBounds = LoopBounds(start: Expr, stop: Expr, accesses: seq<Access>)

  datatype Plan = Plan(start: nat, stop: nat, trip: nat)

  function WriteCount(accesses: seq<Access>, b: nat): nat {
    if accesses == [] then 0
    else
      var last := accesses[|accesses| - 1];
      WriteCount(accesses[..|accesses| - 1], b) + if last.write && last.buffer == b then 1 else 0
  }

  // One unconditional counter-affine write covers the kernel's whole range.
  function MarkOverwrites(rows: seq<Row>, accesses: seq<Access>, k: nat): (r: seq<Row>)
    requires Shaped(rows) && k < MAX_KERNELS
    ensures Shaped(r) && |r| == |rows|
  {
    seq(|rows|, (b: nat) requires b < |rows| =>
      if WriteCount(accesses, b) == 1
      then rows[b].(effect := rows[b].effect[k := rows[b].effect[k].(fullOverwrite := true)])
      else rows[b])
  }

  function AddKernel(nodes: Table, rows: seq<Row>, scalars: seq<Scalar>, k: nat, loop: LoopBounds):
    (r: Status<(Table, seq<Row>, Plan)>)
    requires Shaped(rows) && k < MAX_KERNELS
    ensures r.Success? ==> Shaped(r.value.1) && |r.value.1| == |rows|
  {
    var (n1, start) :- FromHir(nodes, scalars, loop.start);
    var (n2, stop) :- FromHir(n1, scalars, loop.stop);
    var (n3, difference) :- AddSize(n2, SubNode(stop, start));
    var (n4, trip) :- AddSize(n3, MaxZero(difference));
    var (n5, rows1) :- AddAccesses(n4, rows, scalars, k, start, stop, loop.accesses);
    Success((n5, MarkOverwrites(rows1, loop.accesses, k), Plan(start, stop, trip)))
  }

  function AddKernels(nodes: Table, rows: seq<Row>, scalars: seq<Scalar>, loops: seq<LoopBounds>):
    (r: Status<(Table, seq<Row>, seq<Plan>)>)
    requires Shaped(rows) && |loops| <= MAX_KERNELS
    ensures r.Success? ==> Shaped(r.value.1) && |r.value.1| == |rows| && |r.value.2| == |loops|
    decreases |loops|
  {
    if loops == [] then Success((nodes, rows, []))
    else
      var n := |loops| - 1;
      var (n1, rows1, plans) :- AddKernels(nodes, rows, scalars, loops[..n]);
      var (n2, rows2, plan) :- AddKernel(n1, rows1, scalars, n, loops[n]);
      Success((n2, rows2, plans + [plan]))
  }

  function LoopInterval(loop: LoopBounds, b: nat, scalars: seq<Scalar>, vals: seq<int>): Interval {
    BoundsOf(loop.accesses, b, BoundExact(loop.start, scalars, vals), BoundExact(loop.stop, scalars, vals), scalars, vals)
  }

  ghost predicate PlanBuilt(nodes: Table, plan: Plan, loop: LoopBounds, scalars: seq<Scalar>, vals: seq<int>) {
    && Ordered(nodes, |vals|)
    && plan.start < |nodes| && plan.stop < |nodes| && plan.trip < |nodes|
    && Exact(nodes, plan.start, vals) == BoundExact(loop.start, scalars, vals)
    && Exact(nodes, plan.stop, vals) == BoundExact(loop.stop, scalars, vals)
    && Exact(nodes, plan.trip, vals) == Max(BoundExact(loop.stop, scalars, vals) - BoundExact(loop.start, scalars, vals), 0)
  }

  // The finished table: bounds and trip counts mean what the loops say, and
  // every per-kernel span is the join over that kernel's accesses.
  ghost predicate Described(
    nodes: Table, rows: seq<Row>, plans: seq<Plan>, loops: seq<LoopBounds>, scalars: seq<Scalar>, vals: seq<int>)
  {
    && RowsBuilt(nodes, rows, vals) && |plans| == |loops| <= MAX_KERNELS
    && (forall k :: 0 <= k < |loops| ==> PlanBuilt(nodes, plans[k], loops[k], scalars, vals))
    && (forall b, k :: 0 <= b < |rows| && 0 <= k < |loops| ==>
         SpanValue(nodes, rows[b].kernel[k], vals) == LoopInterval(loops[k], b, scalars, vals))
    && (forall b, k :: 0 <= b < |rows| && |loops| <= k < MAX_KERNELS ==>
         SpanValue(nodes, rows[b].kernel[k], vals) == None)
  }

  lemma PlanOfPrefix(nodes: Table, longer: Table, plan: Plan, loop: LoopBounds, scalars: seq<Scalar>, vals: seq<int>)
    requires PlanBuilt(nodes, plan, loop, scalars, vals) && nodes <= longer && Ordered(longer, |vals|)
    ensures PlanBuilt(longer, plan, loop, scalars, vals)
  {
    hide Exact, Ordered, BoundExact;
    ExactOfPrefix(nodes, longer, plan.start, vals);
    ExactOfPrefix(nodes, longer, plan.stop, vals);
    ExactOfPrefix(nodes, longer, plan.trip, vals);
  }

  lemma MarkKeeps(nodes: Table, rows: seq<Row>, accesses: seq<Access>, k: nat, vals: seq<int>)
    requires RowsBuilt(nodes, rows, vals) && Shaped(rows) && k < MAX_KERNELS
    ensures RowsBuilt(nodes, MarkOverwrites(rows, accesses, k), vals)
    ensures forall b :: 0 <= b < |rows| ==> MarkOverwrites(rows, accesses, k)[b].kernel == rows[b].kernel
  {
    hide SpanValue, WriteCount, JoinKernels;
    var marked := MarkOverwrites(rows, accesses, k);
    forall b | 0 <= b < |rows|
      ensures RowBuilt(nodes, marked[b])
      ensures SpanValue(nodes, marked[b].all, vals) == JoinKernels(nodes, marked[b], MAX_KERNELS, vals)
    {
      JoinIgnoresEffect(nodes, rows[b], marked[b].effect, MAX_KERNELS, vals);
    }
  }

  // The four bound nodes of one kernel.
  lemma BoundsBuild(nodes: Table, scalars: seq<Scalar>, loop: LoopBounds, vals: seq<int>)
    requires Sized(nodes, vals) && |vals| == |scalars|
    requires FromHir(nodes, scalars, loop.start).Success?
    requires FromHir(FromHir(nodes, scalars, loop.start).value.0, scalars, loop.stop).Success?
    requires var (n1, start) := FromHir(nodes, scalars, loop.start).value;
      var (n2, stop) := FromHir(n1, scalars, loop.stop).value;
      AddSize(n2, SubNode(stop, start)).Success?
      && AddSize(AddSize(n2, SubNode(stop, start)).value.0, MaxZero(AddSize(n2, SubNode(stop, start)).value.1)).Success?
    ensures var (n1, start) := FromHir(nodes, scalars, loop.start).value;
      var (n2, stop) := FromHir(n1, scalars, loop.stop).value;
      var (n3, difference) := AddSize(n2, SubNode(stop, start)).value;
      var (n4, trip) := AddSize(n3, MaxZero(difference)).value;
      nodes <= n4 && Sized(n4, vals) && PlanBuilt(n4, Plan(start, stop, trip), loop, scalars, vals)
  {
    hide Exact, Ordered, BoundExact, FromHir, AddSize;
    FromHirBuilds(nodes, scalars, loop.start, vals);
    var (n1, start) := FromHir(nodes, scalars, loop.start).value;
    FromHirBuilds(n1, scalars, loop.stop, vals);
    var (n2, stop) := FromHir(n1, scalars, loop.stop).value;
    ExactOfPrefix(n1, n2, start, vals);
    AddBuilds(n2, SubNode(stop, start), vals);
    var (n3, difference) := AddSize(n2, SubNode(stop, start)).value;
    AddBuilds(n3, MaxZero(difference), vals);
  }

  lemma AddKernelDescribes(
    nodes: Table, rows: seq<Row>, plans: seq<Plan>, loops: seq<LoopBounds>, scalars: seq<Scalar>, loop: LoopBounds, vals: seq<int>)
    requires Described(nodes, rows, plans, loops, scalars, vals) && Shaped(rows)
    requires |loops| < MAX_KERNELS && |vals| == |scalars|
    requires AddKernel(nodes, rows, scalars, |loops|, loop).Success?
    ensures var (after, rows1, plan) := AddKernel(nodes, rows, scalars, |loops|, loop).value;
      nodes <= after && Described(after, rows1, plans + [plan], loops + [loop], scalars, vals)
  {
    hide Exact, Ordered, SpanValue, RowsBuilt, PlanBuilt, BoundExact, FromHir, AddSize, BoundsOf, AddAccesses;
    var k := |loops|;
    RowsBuiltOrdered(nodes, rows, vals);
    BoundsBuild(nodes, scalars, loop, vals);
    var (n1, start) := FromHir(nodes, scalars, loop.start).value;
    var (n2, stop) := FromHir(n1, scalars, loop.stop).value;
    var (n3, difference) := AddSize(n2, SubNode(stop, start)).value;
    var (n4, trip) := AddSize(n3, MaxZero(difference)).value;
    var plan := Plan(start, stop, trip);
    PlanBuiltParts(n4, plan, loop, scalars, vals);
    RowsOfPrefix(nodes, n4, rows, vals);
    AddAccessesMerge(n4, rows, scalars, k, start, stop, loop.accesses, vals);
    var (n5, rows1) := AddAccesses(n4, rows, scalars, k, start, stop, loop.accesses).value;
    RowsBuiltOrdered(n5, rows1, vals);
    MarkKeeps(n5, rows1, loop.accesses, k, vals);
    PlanOfPrefix(n4, n5, plan, loop, scalars, vals);
    forall j | 0 <= j < k ensures PlanBuilt(n5, plans[j], loops[j], scalars, vals) {
      PlanOfPrefix(nodes, n5, plans[j], loops[j], scalars, vals);
    }
    RowsBuiltOrdered(n4, rows, vals);
    SpansOfPrefix(nodes, n4, rows, vals);
    JoinNone();
    var rows2 := MarkOverwrites(rows1, loop.accesses, k);
    RowsBuiltOrdered(n5, rows2, vals);
    forall b, j | 0 <= b < |rows2| && 0 <= j < MAX_KERNELS
      ensures rows2[b].kernel[j] == rows1[b].kernel[j]
      ensures SpanValue(n5, rows2[b].kernel[j], vals) ==
        (if j == k then Join(SpanValue(nodes, rows[b].kernel[j], vals), LoopInterval(loop, b, scalars, vals))
         else SpanValue(nodes, rows[b].kernel[j], vals))
    {
      assert SpanValue(n4, rows[b].kernel[j], vals) == SpanValue(nodes, rows[b].kernel[j], vals);
    }
    assert forall j :: 0 <= j < k + 1 ==> PlanBuilt(n5, (plans + [plan])[j], (loops + [loop])[j], scalars, vals);
  }

  lemma PlanBuiltParts(nodes: Table, plan: Plan, loop: LoopBounds, scalars: seq<Scalar>, vals: seq<int>)
    requires PlanBuilt(nodes, plan, loop, scalars, vals)
    ensures Ordered(nodes, |vals|) && plan.start < |nodes| && plan.stop < |nodes|
    ensures Exact(nodes, plan.start, vals) == BoundExact(loop.start, scalars, vals)
    ensures Exact(nodes, plan.stop, vals) == BoundExact(loop.stop, scalars, vals)
  {
  }

  lemma SpansOfPrefix(nodes: Table, longer: Table, rows: seq<Row>, vals: seq<int>)
    requires RowsBuilt(nodes, rows, vals) && RowsBuilt(longer, rows, vals) && nodes <= longer
    ensures forall b, k :: 0 <= b < |rows| && 0 <= k < MAX_KERNELS ==>
      SpanValue(longer, rows[b].kernel[k], vals) == SpanValue(nodes, rows[b].kernel[k], vals)
  {
    forall b, k | 0 <= b < |rows| && 0 <= k < MAX_KERNELS
      ensures SpanValue(longer, rows[b].kernel[k], vals) == SpanValue(nodes, rows[b].kernel[k], vals)
    {
      SpanOfPrefix(nodes, longer, rows[b].kernel[k], vals);
    }
  }

  lemma {:induction false} AddKernelsDescribe(buffers: nat, scalars: seq<Scalar>, loops: seq<LoopBounds>, vals: seq<int>)
    requires |vals| == |scalars| && |loops| <= MAX_KERNELS
    requires AddKernels([], seq(buffers, _ => EMPTY_ROW), scalars, loops).Success?
    ensures var (nodes, rows, plans) := AddKernels([], seq(buffers, _ => EMPTY_ROW), scalars, loops).value;
      Described(nodes, rows, plans, loops, scalars, vals)
    decreases |loops|
  {
    hide AddKernel, PlanBuilt;
    if loops == [] {
      var rows := seq(buffers, _ => EMPTY_ROW);
      forall b | 0 <= b < buffers ensures JoinKernels([], rows[b], MAX_KERNELS, vals) == None {
        JoinEmpty(rows[b], MAX_KERNELS, vals);
      }
    } else {
      hide Described;
      var n := |loops| - 1;
      AddKernelsDescribe(buffers, scalars, loops[..n], vals);
      var (n1, rows1, plans) := AddKernels([], seq(buffers, _ => EMPTY_ROW), scalars, loops[..n]).value;
      AddKernelDescribes(n1, rows1, plans, loops[..n], scalars, loops[n], vals);
      assert loops[..n] + [loops[n]] == loops;
    }
  }

  lemma {:induction false} JoinEmpty(row: Row, n: nat, vals: seq<int>)
    requires n <= MAX_KERNELS && row == EMPTY_ROW
    ensures JoinKernels([], row, n, vals) == None
  {
    if n > 0 {
      JoinEmpty(row, n - 1, vals);
      assert row.kernel[n - 1] == NO_SPAN;
    }
  }

  // ------------------------------------------------------------------
  // Range soundness
  // ------------------------------------------------------------------

  // The join over a kernel's accesses covers every access of every counter.
  lemma {:induction false} BoundsCover(
    accesses: seq<Access>, a: Access, c: int, lo: int, hi: int, scalars: seq<Scalar>, vals: seq<int>)
    requires a in accesses && lo <= c < hi
    ensures var x := BoundsOf(accesses, a.buffer, lo, hi, scalars, vals);
      x.Some? && x.value.0 <= AffineExact(a.index, c, scalars, vals) < x.value.1
  {
    var front, last := accesses[..|accesses| - 1], accesses[|accesses| - 1];
    if a in front {
      BoundsCover(front, a, c, lo, hi, scalars, vals);
    } else {
      assert a == last;
    }
  }

  // Both ends of the join are reached by some access at the loop's bounds.
  lemma {:induction false} BoundsTight(
    accesses: seq<Access>, b: nat, lo: int, hi: int, scalars: seq<Scalar>, vals: seq<int>)
    requires BoundsOf(accesses, b, lo, hi, scalars, vals).Some?
    ensures var x := BoundsOf(accesses, b, lo, hi, scalars, vals).value;
      && (exists a :: a in accesses && a.buffer == b && AffineExact(a.index, lo, scalars, vals) == x.0)
      && (exists a :: a in accesses && a.buffer == b && AffineExact(a.index, hi, scalars, vals) == x.1)
  {
    hide AffineExact;
    var front, last := accesses[..|accesses| - 1], accesses[|accesses| - 1];
    assert last in accesses;
    var before := BoundsOf(front, b, lo, hi, scalars, vals);
    if before.Some? {
      BoundsTight(front, b, lo, hi, scalars, vals);
      var f :| f in front && f.buffer == b && AffineExact(f.index, lo, scalars, vals) == before.value.0;
      var e :| e in front && e.buffer == b && AffineExact(e.index, hi, scalars, vals) == before.value.1;
      assert f in accesses && e in accesses;
    }
  }

  lemma {:induction false} JoinCovers(nodes: Table, row: Row, k: nat, n: nat, vals: seq<int>)
    requires k < n <= MAX_KERNELS && RowBuilt(nodes, row) && Ordered(nodes, |vals|)
    requires SpanValue(nodes, row.kernel[k], vals).Some?
    ensures var (x, y) := (SpanValue(nodes, row.kernel[k], vals), JoinKernels(nodes, row, n, vals));
      y.Some? && y.value.0 <= x.value.0 && x.value.1 <= y.value.1
  {
    hide SpanValue;
    if k < n - 1 {
      JoinCovers(nodes, row, k, n - 1, vals);
    }
  }

  // Every index of every iteration lies in its kernel's range and in the
  // buffer's aggregate range.
  lemma RangeSound(
    nodes: Table, rows: seq<Row>, plans: seq<Plan>, loops: seq<LoopBounds>, scalars: seq<Scalar>, vals: seq<int>,
    k: nat, a: Access, c: int)
    requires Described(nodes, rows, plans, loops, scalars, vals)
    requires k < |loops| && a in loops[k].accesses && a.buffer < |rows|
    requires BoundExact(loops[k].start, scalars, vals) <= c < BoundExact(loops[k].stop, scalars, vals)
    ensures var own := SpanValue(nodes, rows[a.buffer].kernel[k], vals);
      var all := SpanValue(nodes, rows[a.buffer].all, vals);
      && own.Some? && all.Some?
      && all.value.0 <= own.value.0 <= AffineExact(a.index, c, scalars, vals) < own.value.1 <= all.value.1
  {
    hide SpanValue, BoundExact, AffineExact, JoinKernels, PlanBuilt, RowBuilt;
    BoundsCover(loops[k].accesses, a, c, BoundExact(loops[k].start, scalars, vals), BoundExact(loops[k].stop, scalars, vals), scalars, vals);
    JoinCovers(nodes, rows[a.buffer], k, MAX_KERNELS, vals);
  }

  // ------------------------------------------------------------------
  // Effects
  // ------------------------------------------------------------------

  predicate ReadsFirst(accesses: seq<Access>, b: nat) {
    exists i :: 0 <= i < |accesses| && accesses[i].buffer == b && !accesses[i].write
      && forall j :: 0 <= j < i ==> !(accesses[j].write && accesses[j].buffer == b)
  }

  // Reads, writes, and a read no write precedes.
  predicate EffectDescribes(effect: Effect, accesses: seq<Access>, b: nat) {
    && (effect.read <==> exists a :: a in accesses && a.buffer == b && !a.write)
    && (effect.write <==> exists a :: a in accesses && a.buffer == b && a.write)
    && (effect.readBeforeWrite <==> ReadsFirst(accesses, b))
  }

  lemma ReadsFirstSnoc(accesses: seq<Access>, last: Access, b: nat)
    ensures ReadsFirst(accesses + [last], b) <==>
      ReadsFirst(accesses, b)
      || (last.buffer == b && !last.write && forall a :: a in accesses ==> !(a.write && a.buffer == b))
  {
    var more := accesses + [last];
    if ReadsFirst(accesses, b) {
      var i :| 0 <= i < |accesses| && accesses[i].buffer == b && !accesses[i].write
        && forall j :: 0 <= j < i ==> !(accesses[j].write && accesses[j].buffer == b);
      assert more[i] == accesses[i];
      assert forall j :: 0 <= j < i ==> more[j] == accesses[j];
    }
    if ReadsFirst(more, b) {
      var i :| 0 <= i < |more| && more[i].buffer == b && !more[i].write
        && forall j :: 0 <= j < i ==> !(more[j].write && more[j].buffer == b);
      assert forall j :: 0 <= j < i ==> more[j] == accesses[j];
      if i < |accesses| {
        assert more[i] == accesses[i];
      }
    }
    if last.buffer == b && !last.write && forall a :: a in accesses ==> !(a.write && a.buffer == b) {
      assert more[|accesses|] == last;
      assert forall j :: 0 <= j < |accesses| ==> more[j] == accesses[j] && accesses[j] in accesses;
    }
  }

  lemma NotedDescribes(effect: Effect, accesses: seq<Access>, last: Access, b: nat)
    requires EffectDescribes(effect, accesses, b)
    ensures EffectDescribes(if last.buffer == b then Noted(effect, last.write) else effect, accesses + [last], b)
  {
    hide ReadsFirst;
    ReadsFirstSnoc(accesses, last, b);
    assert forall a :: a in accesses + [last] <==> a in accesses || a == last;
  }

  lemma {:induction false} AddAccessesEffect(
    nodes: Table, rows: seq<Row>, scalars: seq<Scalar>, k: nat, start: nat, stop: nat, accesses: seq<Access>)
    requires Shaped(rows) && k < MAX_KERNELS && AddAccesses(nodes, rows, scalars, k, start, stop, accesses).Success?
    requires forall b :: 0 <= b < |rows| ==> rows[b].effect[k] == NO_EFFECT
    ensures var rows1 := AddAccesses(nodes, rows, scalars, k, start, stop, accesses).value.1;
      && (forall b :: 0 <= b < |rows| ==>
           EffectDescribes(rows1[b].effect[k], accesses, b) && !rows1[b].effect[k].fullOverwrite)
      && (forall b, j :: 0 <= b < |rows| && 0 <= j < MAX_KERNELS && j != k ==> rows1[b].effect[j] == rows[b].effect[j])
    decreases |accesses|
  {
    hide EffectDescribes, ApplyAffine, MergePair;
    if accesses == [] {
      forall b | 0 <= b < |rows| ensures EffectDescribes(rows[b].effect[k], accesses, b) {
        EmptyDescribes(b);
      }
    } else {
      var front, last := accesses[..|accesses| - 1], accesses[|accesses| - 1];
      AddAccessesEffect(nodes, rows, scalars, k, start, stop, front);
      var (n1, rows1) := AddAccesses(nodes, rows, scalars, k, start, stop, front).value;
      var rows2 := AddAccess(n1, rows1, scalars, k, start, stop, last).value.1;
      forall b | 0 <= b < |rows| ensures EffectDescribes(rows2[b].effect[k], accesses, b) {
        NotedDescribes(rows1[b].effect[k], front, last, b);
        assert front + [last] == accesses;
      }
    }
  }

  lemma EmptyDescribes(b: nat)
    ensures EffectDescribes(NO_EFFECT, [], b)
  {
  }

  // The recorded effects of every kernel are what its accesses do; a full
  // overwrite is recorded exactly for a single write.
  ghost predicate EffectsDescribed(rows: seq<Row>, loops: seq<LoopBounds>) {
    && Shaped(rows) && |loops| <= MAX_KERNELS
    && (forall b, k :: 0 <= b < |rows| && 0 <= k < |loops| ==>
         && EffectDescribes(rows[b].effect[k], loops[k].accesses, b)
         && (rows[b].effect[k].fullOverwrite <==> WriteCount(loops[k].accesses, b) == 1))
    && (forall b, k :: 0 <= b < |rows| && |loops| <= k < MAX_KERNELS ==> rows[b].effect[k] == NO_EFFECT)
  }

  lemma AddKernelEffects(
    nodes: Table, rows: seq<Row>, loops: seq<LoopBounds>, scalars: seq<Scalar>, loop: LoopBounds)
    requires EffectsDescribed(rows, loops) && |loops| < MAX_KERNELS
    requires AddKernel(nodes, rows, scalars, |loops|, loop).Success?
    ensures EffectsDescribed(AddKernel(nodes, rows, scalars, |loops|, loop).value.1, loops + [loop])
  {
    hide EffectDescribes, FromHir, AddAccesses;
    var k := |loops|;
    var (n1, start) := FromHir(nodes, scalars, loop.start).value;
    var (n2, stop) := FromHir(n1, scalars, loop.stop).value;
    var (n3, difference) := AddSize(n2, SubNode(stop, start)).value;
    var (n4, trip) := AddSize(n3, MaxZero(difference)).value;
    AddAccessesEffect(n4, rows, scalars, k, start, stop, loop.accesses);
    var rows1 := AddAccesses(n4, rows, scalars, k, start, stop, loop.accesses).value.1;
    var rows2 := MarkOverwrites(rows1, loop.accesses, k);
    forall b | 0 <= b < |rows2|
      ensures EffectDescribes(rows2[b].effect[k], loop.accesses, b)
      ensures rows2[b].effect[k].fullOverwrite <==> WriteCount(loop.accesses, b) == 1
      ensures forall j :: 0 <= j < MAX_KERNELS && j != k ==> rows2[b].effect[j] == rows[b].effect[j]
    {
      MarkDescribes(rows1[b].effect[k], loop.accesses, b);
    }
  }

  lemma MarkDescribes(effect: Effect, accesses: seq<Access>, b: nat)
    requires EffectDescribes(effect, accesses, b)
    ensures EffectDescribes(effect.(fullOverwrite := true), accesses, b)
  {
    hide ReadsFirst;
  }

  lemma {:induction false} AddKernelsEffects(buffers: nat, scalars: seq<Scalar>, loops: seq<LoopBounds>)
    requires |loops| <= MAX_KERNELS
    requires AddKernels([], seq(buffers, _ => EMPTY_ROW), scalars, loops).Success?
    ensures EffectsDescribed(AddKernels([], seq(buffers, _ => EMPTY_ROW), scalars, loops).value.1, loops)
    decreases |loops|
  {
    hide AddKernel, EffectDescribes;
    if loops != [] {
      hide EffectsDescribed;
      var n := |loops| - 1;
      AddKernelsEffects(buffers, scalars, loops[..n]);
      var (n1, rows1, plans) := AddKernels([], seq(buffers, _ => EMPTY_ROW), scalars, loops[..n]).value;
      AddKernelEffects(n1, rows1, loops[..n], scalars, loops[n]);
      assert loops[..n] + [loops[n]] == loops;
    }
  }

  // ------------------------------------------------------------------
  // Only counter-affine indices over int parameters are accepted
  // ------------------------------------------------------------------

  predicate IndexAccepted(scalars: seq<Scalar>, index: Affine) {
    index.kind.CounterOffset? && (index.symbol.Some? ==> IntScalar(scalars, index.symbol.value).Success?)
  }

  predicate BoundAccepted(scalars: seq<Scalar>, e: Expr)
    decreases e
  {
    match FoldConstant(e)
    case Some(c) => 0 <= c <= INT_MAX
    case None =>
      var x := StripPar(e);
      match TermSymbol(x)
      case Some(s) => IntScalar(scalars, s).Success?
      case None =>
        StripParDecreases(e);
        x.Binary? && (x.kind.Plus? || x.kind.Minus?) && BoundAccepted(scalars, x.left) && BoundAccepted(scalars, x.right)
  }

  lemma {:induction false} FromHirAccepted(nodes: Table, scalars: seq<Scalar>, e: Expr)
    requires FromHir(nodes, scalars, e).Success?
    ensures BoundAccepted(scalars, e)
    decreases e
  {
    hide FoldConstant, IntScalar;
    if FoldConstant(e).None? && TermSymbol(StripPar(e)).None? {
      var x := StripPar(e);
      StripParDecreases(e);
      FromHirAccepted(nodes, scalars, x.left);
      FromHirAccepted(FromHir(nodes, scalars, x.left).value.0, scalars, x.right);
    }
  }

  lemma {:induction false} AddAccessesAccepted(
    nodes: Table, rows: seq<Row>, scalars: seq<Scalar>, k: nat, start: nat, stop: nat, accesses: seq<Access>)
    requires Shaped(rows) && AddAccesses(nodes, rows, scalars, k, start, stop, accesses).Success?
    ensures forall a :: a in accesses ==> IndexAccepted(scalars, a.index) && a.buffer < |rows|
    decreases |accesses|
  {
    hide IntScalar, Adjust, MergePair;
    if accesses != [] {
      var front, last := accesses[..|accesses| - 1], accesses[|accesses| - 1];
      AddAccessesAccepted(nodes, rows, scalars, k, start, stop, front);
      assert forall a :: a in accesses ==> a in front || a == last;
    }
  }

  ghost predicate LoopAccepted(scalars: seq<Scalar>, buffers: nat, loop: LoopBounds) {
    && BoundAccepted(scalars, loop.start) && BoundAccepted(scalars, loop.stop)
    && forall a :: a in loop.accesses ==> IndexAccepted(scalars, a.index) && a.buffer < buffers
  }

  lemma {:induction false} AddKernelsAccepted(nodes: Table, rows: seq<Row>, scalars: seq<Scalar>, loops: seq<LoopBounds>, k: nat)
    requires Shaped(rows) && |loops| <= MAX_KERNELS && AddKernels(nodes, rows, scalars, loops).Success? && k < |loops|
    ensures LoopAccepted(scalars, |rows|, loops[k])
    decreases |loops|
  {
    hide FromHir, AddAccesses, IndexAccepted, BoundAccepted;
    var n := |loops| - 1;
    var (m0, rows1, _) := AddKernels(nodes, rows, scalars, loops[..n]).value;
    if k < n {
      AddKernelsAccepted(nodes, rows, scalars, loops[..n], k);
    } else {
      var loop := loops[n];
      FromHirAccepted(m0, scalars, loop.start);
      var (m1, start) := FromHir(m0, scalars, loop.start).value;
      FromHirAccepted(m1, scalars, loop.stop);
      var (m2, stop) := FromHir(m1, scalars, loop.stop).value;
      var (m3, difference) := AddSize(m2, SubNode(stop, start)).value;
      var (m4, _) := AddSize(m3, MaxZero(difference)).value;
      AddAccessesAccepted(m4, rows1, scalars, n, start, stop, loop.accesses);
    }
  }

  // ------------------------------------------------------------------
  // Byte sizes and host transfers
  // ------------------------------------------------------------------

  // device: the buffer exists on the device only.
  datatype Binding = Binding(device: bool, width: nat)

  datatype Transfer = Transfer(byteEnd: nat, upload: bool, download: bool)

  predicate AnyWrite(row: Row, kernels: nat)
    requires RowShaped(row) && kernels <= MAX_KERNELS
  {
    exists j :: 0 <= j < kernels && row.effect[j].write
  }

  // A device buffer is sized by the first loop's stop and stays off every
  // transfer path; a host buffer is uploaded whole and comes back when any
  // kernel writes it.
  function FinalizeBuffer(nodes: Table, row: Row, binding: Binding, stop: nat, kernels: nat): Status<(Table, Transfer)>
    requires RowShaped(row) && kernels <= MAX_KERNELS
  {
    if row.all.first.None? || row.all.end.None? then Status.Failure(HardError)
    else
      var (after, at) :- AddSize(nodes, MulConstant(if binding.device then stop else row.all.end.value, binding.width));
      Success((after, Transfer(at, !binding.device, !binding.device && AnyWrite(row, kernels))))
  }

  function FinalizeAll(nodes: Table, rows: seq<Row>, bindings: seq<Binding>, stop: nat, kernels: nat): (r: Status<(Table, seq<Transfer>)>)
    requires Shaped(rows) && |bindings| == |rows| && kernels <= MAX_KERNELS
    ensures r.Success? ==> |r.value.1| == |rows|
  {
    if rows == [] then Success((nodes, []))
    else
      var n := |rows| - 1;
      var (n1, transfers) :- FinalizeAll(nodes, rows[..n], bindings[..n], stop, kernels);
      var (n2, transfer) :- FinalizeBuffer(n1, rows[n], bindings[n], stop, kernels);
      Success((n2, transfers + [transfer]))
  }

  lemma {:induction false} FinalizeStops(nodes: Table, rows: seq<Row>, bindings: seq<Binding>, stop: nat, kernels: nat, n: nat)
    requires Shaped(rows) && |bindings| == |rows| && kernels <= MAX_KERNELS && n <= |rows|
    requires FinalizeAll(nodes, rows[..n], bindings[..n], stop, kernels).Failure?
    ensures FinalizeAll(nodes, rows, bindings, stop, kernels) ==
            Status.Failure(FinalizeAll(nodes, rows[..n], bindings[..n], stop, kernels).error)
    decreases |rows| - n
  {
    hide FinalizeBuffer;
    if n == |rows| {
      assert rows[..n] == rows && bindings[..n] == bindings;
    } else {
      assert rows[..n + 1][..n] == rows[..n] && bindings[..n + 1][..n] == bindings[..n];
      FinalizeStops(nodes, rows, bindings, stop, kernels, n + 1);
    }
  }

  // ------------------------------------------------------------------
  // The builder
  // ------------------------------------------------------------------

  // The program being compiled, as far as ranges go: nodes are appended to
  // one table and rows are updated in place.
  class RangeBuilder {
    const scalars: seq<Scalar>
    var nodes: Table
    var rows: seq<Row>

    constructor (scalars: seq<Scalar>, buffers: nat)
      ensures this.scalars == scalars && nodes == [] && rows == seq(buffers, _ => EMPTY_ROW)
    {
      this.scalars, nodes, rows := scalars, [], seq(buffers, _ => EMPTY_ROW);
    }

    method Append(node: SizeNode) returns (r: Status<nat>)
      modifies `nodes
      ensures r.Success? ==> AddSize(old(nodes), node) == Success((nodes, r.value))
      ensures r.Failure? ==> AddSize(old(nodes), node) == Status.Failure(r.error)
    {
      if |nodes| >= MAX_SIZE_EXPRESSIONS { return Decline(Limit); }
      nodes := nodes + [node];
      return Success(|nodes| - 1);
    }

    method Bound(e: Expr) returns (r: Status<nat>)
      modifies `nodes
      ensures r.Success? ==> FromHir(old(nodes), scalars, e) == Success((nodes, r.value))
      ensures r.Failure? ==> FromHir(old(nodes), scalars, e) == Status.Failure(r.error)
      decreases e
    {
      if e.NoExpr? { return Decline(Range); }
      var c := FoldConstant(e);
      if c.Some? {
        if c.value < 0 || c.value > INT_MAX { return Decline(Range); }
        r := Append(Constant(c.value));
        return;
      }
      var x := e;
      while x.Unary? && x.unary.Par?
        invariant StripPar(x) == StripPar(e) && (x == e || x < e)
        decreases x
      {
        x := x.operand;
      }
      var s := TermSymbol(x);
      if s.Some? {
        var i :- IntScalar(scalars, s.value);
        r := Append(ScalarRef(i));
        return;
      }
      if !x.Binary? || !(x.kind.Plus? || x.kind.Minus?) { return Decline(Range); }
      var l :- Bound(x.left);
      var d :- Bound(x.right);
      r := Append(if x.kind.Plus? then AddNode(l, d) else SubNode(l, d));
    }

    method AdjustBy(base: nat, adjustment: int) returns (r: Status<nat>)
      modifies `nodes
      ensures r.Success? ==> Adjust(old(nodes), base, adjustment) == Success((nodes, r.value))
      ensures r.Failure? ==> Adjust(old(nodes), base, adjustment) == Status.Failure(r.error)
    {
      if adjustment == 0 { return Success(base); }
      var c :- Append(Constant(if adjustment < 0 then 0 - adjustment else adjustment));
      r := Append(if adjustment < 0 then SubNode(base, c) else AddNode(base, c));
    }

    method Affine(base: nat, affine: Affine) returns (r: Status<nat>)
      modifies `nodes
      ensures r.Success? ==> ApplyAffine(old(nodes), scalars, base, affine) == Success((nodes, r.value))
      ensures r.Failure? ==> ApplyAffine(old(nodes), scalars, base, affine) == Status.Failure(r.error)
    {
      if !affine.kind.CounterOffset? { return Decline(Range); }
      var adjusted := base;
      if affine.symbol.Some? {
        var i :- IntScalar(scalars, affine.symbol.value);
        var inv :- Append(ScalarRef(i));
        adjusted :- Append(if affine.sign < 0 then SubNode(base, inv) else AddNode(base, inv));
      }
      r := AdjustBy(adjusted, affine.offset);
    }

    method Merge(span: Span, first: nat, end: nat) returns (r: Status<Span>)
      modifies `nodes
      ensures r.Success? ==> MergePair(old(nodes), span, first, end) == Success((nodes, r.value))
      ensures r.Failure? ==> MergePair(old(nodes), span, first, end) == Status.Failure(r.error)
    {
      var f, e := first, end;
      if span.first.Some? { f :- Append(MinNode(span.first.value, first)); }
      if span.end.Some? { e :- Append(MaxNode(span.end.value, end)); }
      return Success(Span(Some(f), Some(e)));
    }

    // Converts one recorded access into range and effect metadata.
    method Record(k: nat, start: nat, stop: nat, a: Access) returns (r: Status<()>)
      requires Shaped(rows)
      modifies `nodes, `rows
      ensures Shaped(rows) && |rows| == old(|rows|)
      ensures r.Success? ==> AddAccess(old(nodes), old(rows), scalars, k, start, stop, a) == Success((nodes, rows))
      ensures r.Failure? ==> AddAccess(old(nodes), old(rows), scalars, k, start, stop, a) == Status.Failure(r.error)
    {
      if a.buffer >= |rows| { return Status.Failure(HardError); }
      var first :- Affine(start, a.index);
      var end :- Affine(stop, a.index);
      if k >= MAX_KERNELS { return Status.Failure(HardError); }
      var row := rows[a.buffer];
      var all :- Merge(row.all, first, end);
      var own :- Merge(row.kernel[k], first, end);
      rows := rows[a.buffer := Row(all, row.kernel[k := own], row.effect[k := Noted(row.effect[k], a.write)])];
      return Success(());
    }

    // All accesses of one kernel, then the full-overwrite marks.
    method AddKernelRanges(k: nat, start: nat, stop: nat, accesses: seq<Access>) returns (r: Status<()>)
      requires Shaped(rows) && k < MAX_KERNELS
      modifies `nodes, `rows
      ensures Shaped(rows) && |rows| == old(|rows|)
      ensures var spec := AddAccesses(old(nodes), old(rows), scalars, k, start, stop, accesses);
        if r.Success? then spec.Success? && nodes == spec.value.0 && rows == MarkOverwrites(spec.value.1, accesses, k)
        else spec == Status.Failure(r.error)
    {
      var writes := seq(|rows|, _ => 0);
      for i := 0 to |accesses|
        invariant Shaped(rows) && |rows| == old(|rows|) == |writes|
        invariant AddAccesses(old(nodes), old(rows), scalars, k, start, stop, accesses[..i]) == Success((nodes, rows))
        invariant forall b :: 0 <= b < |writes| ==> writes[b] == WriteCount(accesses[..i], b)
      {
        assert accesses[..i + 1][..i] == accesses[..i];
        var outcome := Record(k, start, stop, accesses[i]);
        if outcome.Failure? {
          AccessesStop(old(nodes), old(rows), scalars, k, start, stop, accesses, i + 1);
          return Status.Failure(outcome.error);
        }
        if accesses[i].write {
          writes := writes[accesses[i].buffer := writes[accesses[i].buffer] + 1];
        }
      }
      assert accesses[..|accesses|] == accesses;
      MarkWritten(k, writes, accesses);
      return Success(());
    }

    // One write is a complete overwrite candidate.
    method MarkWritten(k: nat, writes: seq<nat>, ghost accesses: seq<Access>)
      requires Shaped(rows) && k < MAX_KERNELS && |writes| == |rows|
      requires forall b :: 0 <= b < |writes| ==> writes[b] == WriteCount(accesses, b)
      modifies `rows
      ensures Shaped(old(rows)) && rows == MarkOverwrites(old(rows), accesses, k)
    {
      hide WriteCount;
      for b := 0 to |rows|
        invariant Shaped(rows) && |rows| == |old(rows)|
        invariant forall c :: 0 <= c < |rows| ==> rows[c] == (if c < b then MarkOverwrites(old(rows), accesses, k)[c] else old(rows)[c])
      {
        if writes[b] == 1 {
          rows := rows[b := rows[b].(effect := rows[b].effect[k := rows[b].effect[k].(fullOverwrite := true)])];
        }
      }
    }

    // Bounds, trip count and ranges of every selected loop, in source order.
    method AddLoops(loops: seq<LoopBounds>) returns (r: Status<seq<Plan>>)
      requires Shaped(rows) && |loops| <= MAX_KERNELS
      modifies `nodes, `rows
      ensures var spec := AddKernels(old(nodes), old(rows), scalars, loops);
        if r.Success? then spec == Success((nodes, rows, r.value)) else spec == Status.Failure(r.error)
    {
      var plans: seq<Plan> := [];
      for k := 0 to |loops|
        invariant Shaped(rows) && |rows| == old(|rows|)
        invariant AddKernels(old(nodes), old(rows), scalars, loops[..k]) == Success((nodes, rows, plans))
      {
        assert loops[..k + 1][..k] == loops[..k];
        var plan := AddLoop(k, loops[k]);
        if plan.Failure? {
          KernelsStop(old(nodes), old(rows), scalars, loops, k + 1);
          return Status.Failure(plan.error);
        }
        plans := plans + [plan.value];
      }
      assert loops[..|loops|] == loops;
      return Success(plans);
    }

    method AddLoop(k: nat, loop: LoopBounds) returns (r: Status<Plan>)
      requires Shaped(rows) && k < MAX_KERNELS
      modifies `nodes, `rows
      ensures Shaped(rows) && |rows| == old(|rows|)
      ensures var spec := AddKernel(old(nodes), old(rows), scalars, k, loop);
        if r.Success? then spec == Success((nodes, rows, r.value)) else spec == Status.Failure(r.error)
    {
      var start :- Bound(loop.start);
      var stop :- Bound(loop.stop);
      var difference :- Append(SubNode(stop, start));
      var trip :- Append(MaxZero(difference));
      var _ :- AddKernelRanges(k, start, stop, loop.accesses);
      return Success(Plan(start, stop, trip));
    }

    method FinalizeOne(b: nat, binding: Binding, stop: nat, kernels: nat) returns (r: Status<Transfer>)
      requires Shaped(rows) && b < |rows| && kernels <= MAX_KERNELS
      modifies `nodes
      ensures var spec := FinalizeBuffer(old(nodes), rows[b], binding, stop, kernels);
        if r.Success? then spec == Success((nodes, r.value)) else spec == Status.Failure(r.error)
    {
      var row := rows[b];
      if row.all.first.None? || row.all.end.None? { return Status.Failure(HardError); }
      var at :- Append(MulConstant(if binding.device then stop else row.all.end.value, binding.width));
      if binding.device { return Success(Transfer(at, false, false)); }
      var anyWrite := false;
      for j := 0 to kernels
        invariant anyWrite <==> AnyWrite(row, j)
      {
        if row.effect[j].write { anyWrite := true; }
      }
      return Success(Transfer(at, true, anyWrite));
    }

    // Sizes every buffer in bytes and decides its transfers, in binding order.
    method FinalizeBuffers(bindings: seq<Binding>, stop: nat, kernels: nat) returns (r: Status<seq<Transfer>>)
      requires Shaped(rows) && |bindings| == |rows| && kernels <= MAX_KERNELS
      modifies `nodes
      ensures var spec := FinalizeAll(old(nodes), rows, bindings, stop, kernels);
        if r.Success? then spec == Success((nodes, r.value)) else spec == Status.Failure(r.error)
    {
      hide FinalizeBuffer;
      var transfers: seq<Transfer> := [];
      for i := 0 to |rows|
        invariant FinalizeAll(old(nodes), rows[..i], bindings[..i], stop, kernels) == Success((nodes, transfers))
      {
        assert rows[..i + 1][..i] == rows[..i] && bindings[..i + 1][..i] == bindings[..i];
        var transfer := FinalizeOne(i, bindings[i], stop, kernels);
        if transfer.Failure? {
          FinalizeStops(old(nodes), rows, bindings, stop, kernels, i + 1);
          return Status.Failure(transfer.error);
        }
        transfers := transfers + [transfer.value];
      }
      assert rows[..|rows|] == rows && bindings[..|rows|] == bindings;
      return Success(transfers);
    }
  }

  lemma {:induction false} AccessesStop(
    nodes: Table, rows: seq<Row>, scalars: seq<Scalar>, k: nat, start: nat, stop: nat, accesses: seq<Access>, n: nat)
    requires Shaped(rows) && n <= |accesses|
    requires AddAccesses(nodes, rows, scalars, k, start, stop, accesses[..n]).Failure?
    ensures AddAccesses(nodes, rows, scalars, k, start, stop, accesses) ==
            Status.Failure(AddAccesses(nodes, rows, scalars, k, start, stop, accesses[..n]).error)
    decreases |accesses| - n
  {
    hide AddAccess;
    if n == |accesses| {
      assert accesses[..n] == accesses;
    } else {
      assert accesses[..n + 1][..n] == accesses[..n];
      AccessesStop(nodes, rows, scalars, k, start, stop, accesses, n + 1);
    }
  }

  lemma {:induction false} KernelsStop(nodes: Table, rows: seq<Row>, scalars: seq<Scalar>, loops: seq<LoopBounds>, n: nat)
    requires Shaped(rows) && n <= |loops| <= MAX_KERNELS
    requires AddKernels(nodes, rows, scalars, loops[..n]).Failure?
    ensures AddKernels(nodes, rows, scalars, loops) ==
            Status.Failure(AddKernels(nodes, rows, scalars, loops[..n]).error)
    decreases |loops| - n
  {
    hide AddKernel;
    if n == |loops| {
      assert loops[..n] == loops;
    } else {
      assert loops[..n + 1][..n] == loops[..n];
      KernelsStop(nodes, rows, scalars, loops, n + 1);
    }
  }
}
