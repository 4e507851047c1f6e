// The runtime's checked 64-bit evaluation of a compiled size table never
// overflows: every node of the table evaluates, for every int argument
// vector, to its exact value.

module SizeBounds {
  import opened Words
  import opened Hir
  import opened Lowering
  import opened LoweringMeaning
  import opened SizeDag
  import opened Ranges

  const UNIT := 0x8000_0000

  predicate Within(x: int, n: nat) { -(n * UNIT) <= x <= n * UNIT }

  ghost predicate Narrow(vals: seq<int>) { forall i :: 0 <= i < |vals| ==> Within(vals[i], 1) }

  // Node i is at most i + 1 times the largest magnitude of an int.
  ghost predicate Small(nodes: Table, vals: seq<int>) {
    Sized(nodes, vals) && forall i: nat :: i < |nodes| ==> Within(Exact(nodes, i, vals), i + 1)
  }

  lemma AddSmall(nodes: Table, node: SizeNode, vals: seq<int>)
    requires Small(nodes, vals) && NodeOrdered(node, |nodes|, |vals|) && AddSize(nodes, node).Success?
    requires Within(NodeValue(nodes, node, vals), |nodes| + 1)
    ensures var (after, at) := AddSize(nodes, node).value;
      Small(after, vals) && nodes <= after && at == |nodes| == |after| - 1 && Exact(after, at, vals) == NodeValue(nodes, node, vals)
  {
    hide Exact, Ordered, NodeValue, NodeOrdered;
    AddBuilds(nodes, node, vals);
  }

  lemma {:induction false} FromHirSmall(nodes: Table, scalars: seq<Scalar>, e: Expr, vals: seq<int>)
    requires Small(nodes, vals) && Narrow(vals) && |vals| == |scalars| && FromHir(nodes, scalars, e).Success?
    ensures var (after, at) := FromHir(nodes, scalars, e).value;
      && Small(after, vals) && nodes <= after && at < |after|
      && |nodes| < |after| && Within(Exact(after, at, vals), |after| - |nodes|)
    decreases e
  {
    hide Exact, Ordered, FoldConstant, AddSize;
    match FoldConstant(e)
    case Some(c) => AddSmall(nodes, Constant(c), vals);
    case None =>
      var x := StripPar(e);
      match TermSymbol(x)
      case Some(s) => AddSmall(nodes, ScalarRef(ScalarIndex(scalars, s).value), vals);
      case None =>
        StripParDecreases(e);
        FromHirSmall(nodes, scalars, x.left, vals);
        var (n1, l) := FromHir(nodes, scalars, x.left).value;
        FromHirSmall(n1, scalars, x.right, vals);
        var (n2, r) := FromHir(n1, scalars, x.right).value;
        SumSmall(|nodes|, n1, n2, if x.kind.Plus? then AddNode(l, r) else SubNode(l, r), vals);
  }

  // The sum of a node of n1 and a later one, each bounded by how many nodes
  // it took to build.
  lemma SumSmall(before: nat, n1: Table, n2: Table, node: SizeNode, vals: seq<int>)
    requires Small(n1, vals) && Small(n2, vals) && before <= |n1| && n1 <= n2 && AddSize(n2, node).Success?
    requires (node.AddNode? || node.SubNode?) && node.left < |n1| && node.right < |n2|
    requires Within(Exact(n1, node.left, vals), |n1| - before) && Within(Exact(n2, node.right, vals), |n2| - |n1|)
    ensures var (after, at) := AddSize(n2, node).value;
      Small(after, vals) && n2 <= after && at < |after| && Within(Exact(after, at, vals), |after| - before)
  {
    hide Exact, Ordered;
    ExactOfPrefix(n1, n2, node.left, vals);
    AddSmall(n2, node, vals);
  }

  lemma AdjustSmall(nodes: Table, base: nat, adjustment: int, vals: seq<int>)
    requires Small(nodes, vals) && base < |nodes| && Within(adjustment, 1) && Adjust(nodes, base, adjustment).Success?
    ensures var (after, at) := Adjust(nodes, base, adjustment).value;
      Small(after, vals) && nodes <= after && at < |after|
  {
    hide Exact, Ordered;
    if adjustment != 0 {
      var c := Constant(if adjustment < 0 then 0 - adjustment else adjustment);
      AddSmall(nodes, c, vals);
      var (n1, at) := AddSize(nodes, c).value;
      ExactOfPrefix(nodes, n1, base, vals);
      AddSmall(n1, if adjustment < 0 then SubNode(base, at) else AddNode(base, at), vals);
    }
  }

  lemma AffineSmall(nodes: Table, scalars: seq<Scalar>, base: nat, affine: Affine, vals: seq<int>)
    requires Small(nodes, vals) && Narrow(vals) && |vals| == |scalars| && base < |nodes| && Within(affine.offset, 1)
    requires ApplyAffine(nodes, scalars, base, affine).Success?
    ensures var (after, at) := ApplyAffine(nodes, scalars, base, affine).value;
      Small(after, vals) && nodes <= after && at < |after|
  {
    hide Exact, Ordered, Adjust;
    match affine.symbol
    case None => AdjustSmall(nodes, base, affine.offset, vals);
    case Some(s) =>
      var i := ScalarIndex(scalars, s).value;
      AddSmall(nodes, ScalarRef(i), vals);
      var (n1, inv) := AddSize(nodes, ScalarRef(i)).value;
      ExactOfPrefix(nodes, n1, base, vals);
      var node := if affine.sign < 0 then SubNode(base, inv) else AddNode(base, inv);
      AddSmall(n1, node, vals);
      var (n2, at) := AddSize(n1, node).value;
      AdjustSmall(n2, at, affine.offset, vals);
  }

  // Every span of the rows names nodes of the table.
  ghost predicate SpanIn(nodes: Table, span: Span) {
    (span.first.Some? ==> span.first.value < |nodes|) && (span.end.Some? ==> span.end.value < |nodes|)
  }

  ghost predicate RowIn(nodes: Table, row: Row) {
    RowShaped(row) && SpanIn(nodes, row.all) && forall k :: 0 <= k < MAX_KERNELS ==> SpanIn(nodes, row.kernel[k])
  }

  ghost predicate RowsIn(nodes: Table, rows: seq<Row>) { forall b :: 0 <= b < |rows| ==> RowIn(nodes, rows[b]) }

  lemma MergeSmall(nodes: Table, span: Span, first: nat, end: nat, vals: seq<int>)
    requires Small(nodes, vals) && SpanIn(nodes, span) && first < |nodes| && end < |nodes|
    requires MergePair(nodes, span, first, end).Success?
    ensures var (after, merged) := MergePair(nodes, span, first, end).value;
      Small(after, vals) && nodes <= after && SpanIn(after, merged)
  {
    hide Exact, Ordered;
    var n1 := nodes;
    if span.first.Some? {
      AddSmall(nodes, MinNode(span.first.value, first), vals);
      n1 := AddSize(nodes, MinNode(span.first.value, first)).value.0;
    }
    if span.end.Some? {
      AddSmall(n1, MaxNode(span.end.value, end), vals);
    }
  }

  lemma AddAccessSmall(nodes: Table, rows: seq<Row>, scalars: seq<Scalar>, k: nat, start: nat, stop: nat, a: Access, vals: seq<int>)
    requires Small(nodes, vals) && Narrow(vals) && |vals| == |scalars| && RowsIn(nodes, rows) && Shaped(rows)
    requires start < |nodes| && stop < |nodes| && Within(a.index.offset, 1)
    requires AddAccess(nodes, rows, scalars, k, start, stop, a).Success?
    ensures var (after, rows1) := AddAccess(nodes, rows, scalars, k, start, stop, a).value;
      Small(after, vals) && nodes <= after && RowsIn(after, rows1)
  {
    hide Small, ApplyAffine, MergePair, Narrow, Within, Noted;
    var row := rows[a.buffer];
    assert RowIn(nodes, row);
    AffineSmall(nodes, scalars, start, a.index, vals);
    var (n1, first) := ApplyAffine(nodes, scalars, start, a.index).value;
    AffineSmall(n1, scalars, stop, a.index, vals);
    var (n2, end) := ApplyAffine(n1, scalars, stop, a.index).value;
    MergeSmall(n2, row.all, first, end, vals);
    var n3 := MergePair(n2, row.all, first, end).value.0;
    MergeSmall(n3, row.kernel[k], first, end, vals);
  }

  ghost predicate OffsetsNarrow(accesses: seq<Access>) { forall a :: a in accesses ==> Within(a.index.offset, 1) }

  lemma {:induction false} AddAccessesSmall(
    nodes: Table, rows: seq<Row>, scalars: seq<Scalar>, k: nat, start: nat, stop: nat, accesses: seq<Access>, vals: seq<int>)
    requires Small(nodes, vals) && Narrow(vals) && |vals| == |scalars| && RowsIn(nodes, rows) && Shaped(rows)
    requires start < |nodes| && stop < |nodes| && OffsetsNarrow(accesses)
    requires AddAccesses(nodes, rows, scalars, k, start, stop, accesses).Success?
    ensures var (after, rows1) := AddAccesses(nodes, rows, scalars, k, start, stop, accesses).value;
      Small(after, vals) && nodes <= after && RowsIn(after, rows1)
    decreases |accesses|
  {
    hide Small, AddAccess, RowsIn, Narrow, Within;
    if accesses != [] {
      var front := accesses[..|accesses| - 1];
      AddAccessesSmall(nodes, rows, scalars, k, start, stop, front, vals);
      var (n1, rows1) := AddAccesses(nodes, rows, scalars, k, start, stop, front).value;
      AddAccessSmall(n1, rows1, scalars, k, start, stop, accesses[|accesses| - 1], vals);
    }
  }

  lemma AddKernelSmall(nodes: Table, rows: seq<Row>, scalars: seq<Scalar>, k: nat, loop: LoopBounds, vals: seq<int>)
    requires Small(nodes, vals) && Narrow(vals) && |vals| == |scalars| && RowsIn(nodes, rows) && Shaped(rows) && k < MAX_KERNELS
    requires OffsetsNarrow(loop.accesses) && AddKernel(nodes, rows, scalars, k, loop).Success?
    ensures var (after, rows1, _) := AddKernel(nodes, rows, scalars, k, loop).value;
      Small(after, vals) && nodes <= after && RowsIn(after, rows1)
  {
    hide Exact, Ordered, FromHir, AddAccesses, RowIn, Narrow, WriteCount, OffsetsNarrow;
    FromHirSmall(nodes, scalars, loop.start, vals);
    var (n1, start) := FromHir(nodes, scalars, loop.start).value;
    FromHirSmall(n1, scalars, loop.stop, vals);
    var (n2, stop) := FromHir(n1, scalars, loop.stop).value;
    ExactOfPrefix(n1, n2, start, vals);
    AddSmall(n2, SubNode(stop, start), vals);
    var (n3, difference) := AddSize(n2, SubNode(stop, start)).value;
    AddSmall(n3, MaxZero(difference), vals);
    var n4 := AddSize(n3, MaxZero(difference)).value.0;
    RowsInLonger(nodes, n4, rows);
    AddAccessesSmall(n4, rows, scalars, k, start, stop, loop.accesses, vals);
    var (n5, rows1) := AddAccesses(n4, rows, scalars, k, start, stop, loop.accesses).value;
    MarkedIn(n5, rows1, loop.accesses, k);
  }

  lemma RowsInLonger(nodes: Table, longer: Table, rows: seq<Row>)
    requires RowsIn(nodes, rows) && nodes <= longer
    ensures RowsIn(longer, rows)
  {
  }

  lemma MarkedIn(nodes: Table, rows: seq<Row>, accesses: seq<Access>, k: nat)
    requires RowsIn(nodes, rows) && Shaped(rows) && k < MAX_KERNELS
    ensures RowsIn(nodes, MarkOverwrites(rows, accesses, k))
  {
    hide WriteCount;
    forall b | 0 <= b < |rows| ensures RowIn(nodes, MarkOverwrites(rows, accesses, k)[b]) {
      assert RowIn(nodes, rows[b]);
    }
  }

  lemma {:induction false} AddKernelsSmall(buffers: nat, scalars: seq<Scalar>, loops: seq<LoopBounds>, vals: seq<int>)
    requires Narrow(vals) && |vals| == |scalars| && |loops| <= MAX_KERNELS
    requires forall loop :: loop in loops ==> OffsetsNarrow(loop.accesses)
    requires AddKernels([], seq(buffers, _ => EMPTY_ROW), scalars, loops).Success?
    ensures var (nodes, rows, _) := AddKernels([], seq(buffers, _ => EMPTY_ROW), scalars, loops).value;
      Small(nodes, vals) && RowsIn(nodes, rows)
    decreases |loops|
  {
    hide AddKernel, OffsetsNarrow;
    if loops != [] {
      hide Small, RowIn;
      var n := |loops| - 1;
      AddKernelsSmall(buffers, scalars, loops[..n], vals);
      var (n1, rows1, _) := AddKernels([], seq(buffers, _ => EMPTY_ROW), scalars, loops[..n]).value;
      AddKernelSmall(n1, rows1, scalars, n, loops[n], vals);
    }
  }

  lemma {:induction false} SmallEvaluates(nodes: Table, vals: seq<int>)
    requires Small(nodes, vals)
    ensures EvaluateAll(nodes, vals).Some?
  {
    if nodes != [] {
      var (front, last) := (nodes[..|nodes| - 1], nodes[|nodes| - 1]);
      forall i: nat | i < |front| ensures Within(Exact(front, i, vals), i + 1) {
        ExactOfPrefix(front, nodes, i, vals);
      }
      SmallEvaluates(front, vals);
      EvaluationExact(front, vals);
      LastEvaluates(nodes, EvaluateAll(front, vals).value, vals);
    }
  }

  lemma LastEvaluates(nodes: Table, before: seq<int>, vals: seq<int>)
    requires Small(nodes, vals) && nodes != [] && |before| == |nodes| - 1
    requires Ordered(nodes[..|nodes| - 1], |vals|)
    requires forall i: nat :: i < |before| ==> before[i] == Exact(nodes[..|nodes| - 1], i, vals)
    ensures EvaluateNode(nodes[|nodes| - 1], before, vals).Some?
  {
    var (front, last) := (nodes[..|nodes| - 1], nodes[|nodes| - 1]);
    assert NodeOrdered(last, |before|, |vals|);
    assert Within(Exact(nodes, |nodes| - 1, vals), |nodes|);
    forall i: nat | i < |front| ensures Exact(front, i, vals) == Exact(nodes, i, vals) {
      ExactOfPrefix(front, nodes, i, vals);
    }
  }

  // A normalised index has an int offset.
  lemma OffsetOfIndex(e: Expr, counter: string)
    ensures Within(NormalizeIndex(e, counter).offset, 1)
  {
  }

  lemma {:induction false} ExprOffsets(env: KernelEnv, e: Expr)
    ensures OffsetsNarrow(ExprAccesses(env, e))
  {
    hide NormalizeIndex;
    match e
    case Unary(_, x) => ExprOffsets(env, x);
    case Binary(_, l, r) =>
      ExprOffsets(env, l);
      ExprOffsets(env, r);
    case Subscript(base, index) =>
      OffsetOfIndex(index, env.counter);
      ExprOffsets(env, index);
    case _ =>
  }

  // So every access of a loop body has one.
  lemma {:induction false} BodyOffsets(env: KernelEnv, body: seq<Stmt>)
    ensures OffsetsNarrow(BodyAccesses(env, body))
    decreases |body|
  {
    hide NormalizeIndex, ExprAccesses;
    if body != [] {
      var stmt := body[|body| - 1];
      BodyOffsets(env, body[..|body| - 1]);
      ExprOffsets(env, stmt.rhs);
      if stmt.lhs.Subscript? {
        OffsetOfIndex(stmt.lhs.index, env.counter);
        ExprOffsets(env, stmt.lhs.index);
      }
    }
  }

  // Whatever the int arguments, every node of a compiled table evaluates,
  // to its exact value.
  lemma TableAlwaysEvaluates(buffers: nat, scalars: seq<Scalar>, loops: seq<LoopBounds>, vals: seq<int>, index: nat)
    requires Narrow(vals) && |vals| == |scalars| && |loops| <= MAX_KERNELS
    requires forall loop :: loop in loops ==> OffsetsNarrow(loop.accesses)
    requires AddKernels([], seq(buffers, _ => EMPTY_ROW), scalars, loops).Success?
    requires index < |AddKernels([], seq(buffers, _ => EMPTY_ROW), scalars, loops).value.0|
    ensures var nodes := AddKernels([], seq(buffers, _ => EMPTY_ROW), scalars, loops).value.0;
      Ordered(nodes, |vals|) && ValueAt(nodes, index, vals) == Some(Exact(nodes, index, vals))
  {
    hide AddKernels, Exact, NodeOrdered;
    var nodes := AddKernels([], seq(buffers, _ => EMPTY_ROW), scalars, loops).value.0;
    AddKernelsSmall(buffers, scalars, loops, vals);
    var front := nodes[..index + 1];
    forall i: nat | i < |front| ensures Within(Exact(front, i, vals), i + 1) {
      ExactOfPrefix(front, nodes, i, vals);
    }
    SmallEvaluates(front, vals);
    ValueExact(nodes, index, vals);
  }

  // ------------------------------------------------------------------
  // The finished table, byte sizes included
  // ------------------------------------------------------------------

  // Every packed element has 1, 2, 4 or 8 bytes.
  predicate WidthsFit(bindings: seq<Binding>) { forall b :: 0 <= b < |bindings| ==> bindings[b].width <= 8 }

  // The first n nodes are small; every later one is a multiple of one of them.
  ghost predicate Scaled(nodes: Table, n: nat, vals: seq<int>) {
    && n <= |nodes| && Sized(nodes, vals) && Small(nodes[..n], vals)
    && forall i :: n <= i < |nodes| ==> nodes[i].MulConstant? && nodes[i].left < n && 0 <= nodes[i].factor <= 8
  }

  lemma MultipleEvaluates(nodes: Table, n: nat, before: seq<int>, vals: seq<int>)
    requires Scaled(nodes, n, vals) && n < |nodes| && |before| == |nodes| - 1
    requires Ordered(nodes[..|nodes| - 1], |vals|)
    requires forall i :: 0 <= i < |before| ==> before[i] == Exact(nodes[..|nodes| - 1], i, vals)
    ensures EvaluateNode(nodes[|nodes| - 1], before, vals).Some?
  {
    hide Exact;
    var (front, last) := (nodes[..|nodes| - 1], nodes[|nodes| - 1]);
    assert front[..n] == nodes[..n];
    ExactOfPrefix(nodes[..n], front, last.left, vals);
    assert Within(before[last.left], last.left + 1);
    Multiple(before[last.left], last.factor);
  }

  lemma Multiple(x: int, f: nat)
    requires Within(x, MAX_SIZE_EXPRESSIONS) && f <= 8
    ensures Checked64(x * f).Some?
  {
    var big := MAX_SIZE_EXPRESSIONS * UNIT;
    assert -big * 8 <= x * f <= big * 8 by {
      if x >= 0 { assert 0 <= x * f <= big * 8; } else { assert -big * 8 <= x * f <= 0; }
    }
  }

  lemma {:induction false} ScaledEvaluates(nodes: Table, n: nat, vals: seq<int>)
    requires Scaled(nodes, n, vals)
    ensures EvaluateAll(nodes, vals).Some?
  {
    hide Exact, EvaluateNode;
    if |nodes| == n {
      assert nodes[..n] == nodes;
      SmallEvaluates(nodes, vals);
    } else {
      var front := nodes[..|nodes| - 1];
      assert front[..n] == nodes[..n];
      ScaledEvaluates(front, n, vals);
      EvaluationExact(front, vals);
      MultipleEvaluates(nodes, n, EvaluateAll(front, vals).value, vals);
    }
  }

  lemma ScaledPrefix(nodes: Table, n: nat, index: nat, vals: seq<int>)
    requires Scaled(nodes, n, vals) && index < |nodes|
    ensures Scaled(nodes[..index + 1], if index < n then index + 1 else n, vals)
  {
    hide Exact;
    var (front, m) := (nodes[..index + 1], if index < n then index + 1 else n);
    assert front[..m] == nodes[..n][..m];
    forall i: nat | i < m ensures Within(Exact(front[..m], i, vals), i + 1) {
      ExactOfPrefix(front[..m], nodes[..n], i, vals);
    }
  }

  // Where a buffer's byte size comes from.
  ghost predicate SizedFrom(nodes: Table, row: Row, binding: Binding, stop: nat, transfer: Transfer) {
    && row.all.end.Some? && transfer.byteEnd < |nodes|
    && nodes[transfer.byteEnd] == MulConstant(if binding.device then stop else row.all.end.value, binding.width)
  }

  lemma FinalizeOneScales(nodes: Table, n: nat, row: Row, binding: Binding, stop: nat, kernels: nat, vals: seq<int>)
    requires Scaled(nodes, n, vals) && RowIn(nodes[..n], row) && stop < n && binding.width <= 8 && kernels <= MAX_KERNELS
    requires FinalizeBuffer(nodes, row, binding, stop, kernels).Success?
    ensures var (after, transfer) := FinalizeBuffer(nodes, row, binding, stop, kernels).value;
      && nodes <= after && after[..n] == nodes[..n] && Scaled(after, n, vals) && SizedFrom(after, row, binding, stop, transfer)
  {
    hide Exact, Small;
    var after := FinalizeBuffer(nodes, row, binding, stop, kernels).value.0;
    assert after[..n] == nodes[..n];
  }

  lemma {:induction false} FinalizeScales(
    nodes: Table, rows: seq<Row>, bindings: seq<Binding>, stop: nat, kernels: nat, vals: seq<int>)
    requires Small(nodes, vals) && RowsIn(nodes, rows) && stop < |nodes| && kernels <= MAX_KERNELS
    requires |bindings| == |rows| && WidthsFit(bindings) && FinalizeAll(nodes, rows, bindings, stop, kernels).Success?
    ensures var (after, transfers) := FinalizeAll(nodes, rows, bindings, stop, kernels).value;
      && nodes <= after && Scaled(after, |nodes|, vals)
      && forall b :: 0 <= b < |rows| ==> SizedFrom(after, rows[b], bindings[b], stop, transfers[b])
    decreases |rows|
  {
    hide Exact, FinalizeBuffer, SpanIn;
    if rows == [] {
      assert nodes[..|nodes|] == nodes;
    } else {
      hide Small, Scaled;
      var n := |rows| - 1;
      FinalizeScales(nodes, rows[..n], bindings[..n], stop, kernels, vals);
      var (n1, _) := FinalizeAll(nodes, rows[..n], bindings[..n], stop, kernels).value;
      assert n1[..|nodes|] == nodes;
      FinalizeOneScales(n1, |nodes|, rows[n], bindings[n], stop, kernels, vals);
    }
  }

  // What the compiler leaves: the kernels' nodes, then one multiple per
  // buffer, device buffers sized by the first loop's stop.
  function Finished(buffers: nat, scalars: seq<Scalar>, loops: seq<LoopBounds>, bindings: seq<Binding>):
    Status<(Table, seq<Row>, seq<Plan>, seq<Transfer>)>
    requires 0 < |loops| <= MAX_KERNELS && |bindings| == buffers
  {
    var (nodes, rows, plans) :- AddKernels([], seq(buffers, _ => EMPTY_ROW), scalars, loops);
    var (after, transfers) :- FinalizeAll(nodes, rows, bindings, plans[0].stop, |loops|);
    Success((after, rows, plans, transfers))
  }

  // Whatever the int arguments, every node of the finished table evaluates to
  // its exact value, and each byte size is the element width times the exact
  // end of the buffer's range, or times the exact stop of the first loop for
  // a device buffer.
  lemma FinishedAlwaysEvaluates(
    buffers: nat, scalars: seq<Scalar>, loops: seq<LoopBounds>, bindings: seq<Binding>, vals: seq<int>, index: nat, b: nat)
    requires Narrow(vals) && |vals| == |scalars| && 0 < |loops| <= MAX_KERNELS && |bindings| == buffers && WidthsFit(bindings)
    requires forall loop :: loop in loops ==> OffsetsNarrow(loop.accesses)
    requires Finished(buffers, scalars, loops, bindings).Success? && b < buffers
    requires index < |Finished(buffers, scalars, loops, bindings).value.0|
    ensures var (nodes, rows, plans, transfers) := Finished(buffers, scalars, loops, bindings).value;
      && Ordered(nodes, |vals|) && ValueAt(nodes, index, vals) == Some(Exact(nodes, index, vals))
      && transfers[b].byteEnd < |nodes| && rows[b].all.end.Some? && rows[b].all.end.value < |nodes|
      && Exact(nodes, transfers[b].byteEnd, vals) ==
           bindings[b].width *
           (if bindings[b].device then BoundExact(loops[0].stop, scalars, vals) else Exact(nodes, rows[b].all.end.value, vals))
  {
    hide AddKernels, FinalizeAll, NodeOrdered, Small, RowIn;
    var (base, rows, plans) := AddKernels([], seq(buffers, _ => EMPTY_ROW), scalars, loops).value;
    AddKernelsSmall(buffers, scalars, loops, vals);
    StopDescribed(buffers, scalars, loops, vals);
    FinalizeScales(base, rows, bindings, plans[0].stop, |loops|, vals);
    var nodes := Finished(buffers, scalars, loops, bindings).value.0;
    ScaledPrefix(nodes, |base|, index, vals);
    ScaledEvaluates(nodes[..index + 1], if index < |base| then index + 1 else |base|, vals);
    ValueExact(nodes, index, vals);
    RowEndIn(base, rows, b);
    ExactOfPrefix(base, nodes, plans[0].stop, vals);
  }

  lemma RowEndIn(nodes: Table, rows: seq<Row>, b: nat)
    requires RowsIn(nodes, rows) && b < |rows|
    ensures SpanIn(nodes, rows[b].all)
  {
    assert RowIn(nodes, rows[b]);
  }

  lemma StopDescribed(buffers: nat, scalars: seq<Scalar>, loops: seq<LoopBounds>, vals: seq<int>)
    requires |vals| == |scalars| && 0 < |loops| <= MAX_KERNELS
    requires AddKernels([], seq(buffers, _ => EMPTY_ROW), scalars, loops).Success?
    ensures var (nodes, _, plans) := AddKernels([], seq(buffers, _ => EMPTY_ROW), scalars, loops).value;
      && Ordered(nodes, |vals|) && plans[0].stop < |nodes|
      && Exact(nodes, plans[0].stop, vals) == BoundExact(loops[0].stop, scalars, vals)
  {
    hide AddKernels, RowsBuilt, Exact, BoundExact, NodeOrdered;
    AddKernelsDescribe(buffers, scalars, loops, vals);
  }

  lemma {:induction false} FinalizeTransfers(nodes: Table, rows: seq<Row>, bindings: seq<Binding>, stop: nat, kernels: nat, b: nat)
    requires Shaped(rows) && kernels <= MAX_KERNELS && |bindings| == |rows| && b < |rows|
    requires FinalizeAll(nodes, rows, bindings, stop, kernels).Success?
    ensures var transfer := FinalizeAll(nodes, rows, bindings, stop, kernels).value.1[b];
      && (transfer.upload <==> !bindings[b].device)
      && (transfer.download <==> !bindings[b].device && AnyWrite(rows[b], kernels))
    decreases |rows|
  {
    hide AnyWrite, AddSize;
    var n := |rows| - 1;
    if b < n {
      FinalizeTransfers(nodes, rows[..n], bindings[..n], stop, kernels, b);
    }
  }

  // A loop writes the buffer.
  ghost predicate SomeLoopWrites(loops: seq<LoopBounds>, b: nat) {
    exists k, a :: 0 <= k < |loops| && a in loops[k].accesses && a.buffer == b && a.write
  }

  // A device buffer is never transferred; a host buffer is always uploaded,
  // and downloaded exactly when some loop of the region writes it.
  lemma FinishedTransfers(buffers: nat, scalars: seq<Scalar>, loops: seq<LoopBounds>, bindings: seq<Binding>, b: nat)
    requires 0 < |loops| <= MAX_KERNELS && |bindings| == buffers && b < buffers
    requires Finished(buffers, scalars, loops, bindings).Success?
    ensures var transfer := Finished(buffers, scalars, loops, bindings).value.3[b];
      && (transfer.upload <==> !bindings[b].device)
      && (transfer.download <==> !bindings[b].device && SomeLoopWrites(loops, b))
  {
    hide AddKernels, FinalizeAll, ReadsFirst;
    var (base, rows, plans) := AddKernels([], seq(buffers, _ => EMPTY_ROW), scalars, loops).value;
    AddKernelsEffects(buffers, scalars, loops);
    FinalizeTransfers(base, rows, bindings, plans[0].stop, |loops|, b);
    WritesRecorded(rows, loops, b);
  }

  lemma WritesRecorded(rows: seq<Row>, loops: seq<LoopBounds>, b: nat)
    requires EffectsDescribed(rows, loops) && b < |rows|
    ensures AnyWrite(rows[b], |loops|) <==> SomeLoopWrites(loops, b)
  {
    hide ReadsFirst, WriteCount;
    forall k | 0 <= k < |loops|
      ensures rows[b].effect[k].write <==> exists a :: a in loops[k].accesses && a.buffer == b && a.write
    {
      assert EffectDescribes(rows[b].effect[k], loops[k].accesses, b);
    }
  }
}
