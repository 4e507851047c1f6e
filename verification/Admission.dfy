// Which loops the size table admits, and what its nodes name: a loop is
// refused for a bound or an index of another form, or for size alone.

module Admission {
  import opened Words
  import opened Hir
  import opened AccelIr
  import opened Lowering
  import opened SizeDag
  import opened LoweringMeaning
  import opened Ranges
  import opened SizeBounds
  import T = Typing

  // ------------------------------------------------------------------
  // Admitted bounds and accesses
  // ------------------------------------------------------------------

  // A non-negative int constant, an int parameter the function never
  // assigns, or the sum or difference of two such bounds.
  ghost predicate BoundAdmitted(scalars: seq<Scalar>, e: Expr)
    decreases e
  {
    match FoldConstant(e)
    case Some(c) => 0 <= c <= 0x7FFF_FFFF
    case None =>
      StripParDecreases(e);
      match StripPar(e)
      case TermExpr(SymbolTerm(name)) => T.IntParameter(scalars, name)
      case Binary(kind, l, r) => (kind == Plus || kind == Minus) && BoundAdmitted(scalars, l) && BoundAdmitted(scalars, r)
      case _ => false
  }

  ghost predicate IndexAdmitted(scalars: seq<Scalar>, index: Affine) {
    index.kind == CounterOffset && (index.symbol.Some? ==> T.IntParameter(scalars, index.symbol.value))
  }

  ghost predicate LoopAdmitted(scalars: seq<Scalar>, buffers: nat, loop: LoopBounds) {
    && BoundAdmitted(scalars, loop.start) && BoundAdmitted(scalars, loop.stop)
    && forall i :: 0 <= i < |loop.accesses| ==> loop.accesses[i].buffer < buffers && IndexAdmitted(scalars, loop.accesses[i].index)
  }

  // A node that reads a scalar reads an int parameter the function never
  // assigns.
  ghost predicate NodesNamed(scalars: seq<Scalar>, nodes: Table) {
    forall i :: 0 <= i < |nodes| && nodes[i].ScalarRef? ==>
      var r := nodes[i].reference; r < |scalars| && scalars[r].ty == I32 && !scalars[r].reassigned
  }

  // Building at most n nodes succeeds, or fails because the input is not
  // admitted or the nodes may not fit.
  ghost predicate Builds(scalars: seq<Scalar>, nodes: Table, r: Status<(Table, nat)>, ok: bool, n: nat) {
    match r
    case Success((after, _)) => ok && NodesNamed(scalars, after) && |after| <= |nodes| + n
    case Failure(e) => (!ok && e == Declined(Range)) || (e == Declined(Limit) && |nodes| + n > 512)
  }

  lemma NodeBuilds(scalars: seq<Scalar>, nodes: Table, node: SizeNode)
    requires NodesNamed(scalars, nodes) && !node.ScalarRef?
    ensures Builds(scalars, nodes, AddSize(nodes, node), true, 1)
  {
  }

  // An int parameter the function never assigns, and no other name, has a
  // node.
  lemma ScalarBuilds(scalars: seq<Scalar>, nodes: Table, name: string)
    requires NodesNamed(scalars, nodes)
    ensures IntScalar(scalars, name).Failure? ==> IntScalar(scalars, name) == Decline(Range) && !T.IntParameter(scalars, name)
    ensures IntScalar(scalars, name).Success? ==>
      T.IntParameter(scalars, name) && Builds(scalars, nodes, AddSize(nodes, ScalarRef(IntScalar(scalars, name).value)), true, 1)
  {
    hide ScalarIndex, T.ScalarNamed;
    T.ScalarFound(scalars, name);
  }

  lemma {:induction false} StripParSize(e: Expr)
    ensures T.Size(StripPar(e)) <= T.Size(e)
  {
    if e.Unary? && e.unary.Par? {
      StripParSize(e.operand);
    }
  }

  lemma {:induction false} FromHirAdmits(scalars: seq<Scalar>, nodes: Table, e: Expr)
    requires NodesNamed(scalars, nodes)
    ensures Builds(scalars, nodes, FromHir(nodes, scalars, e), BoundAdmitted(scalars, e), T.Size(e))
    decreases e
  {
    hide FoldConstant, IntScalar, AddSize, NodesNamed, T.IntParameter;
    NoExprIsNone(e);
    if e.NoExpr? {
    } else if FoldConstant(e).Some? {
      NodeBuilds(scalars, nodes, Constant(FoldConstant(e).value));
    } else {
      var x := StripPar(e);
      StripParDecreases(e);
      StripParSize(e);
      if TermSymbol(x).Some? {
        ScalarBuilds(scalars, nodes, x.term.name);
      } else if x.Binary? && (x.kind.Plus? || x.kind.Minus?) {
        FromHirAdmits(scalars, nodes, x.left);
        if FromHir(nodes, scalars, x.left).Success? {
          var (n1, l) := FromHir(nodes, scalars, x.left).value;
          FromHirAdmits(scalars, n1, x.right);
          if FromHir(n1, scalars, x.right).Success? {
            var (n2, r) := FromHir(n1, scalars, x.right).value;
            NodeBuilds(scalars, n2, if x.kind.Plus? then AddNode(l, r) else SubNode(l, r));
          }
        }
      }
    }
  }

  lemma NoExprIsNone(e: Expr)
    ensures e.NoExpr? ==> FoldConstant(e).None? && StripPar(e) == e
  {
  }

  lemma AdjustAdmits(scalars: seq<Scalar>, nodes: Table, base: nat, adjustment: int)
    requires NodesNamed(scalars, nodes)
    ensures Builds(scalars, nodes, Adjust(nodes, base, adjustment), true, 2)
  {
    hide AddSize, NodesNamed;
    if adjustment != 0 {
      var c := Constant(if adjustment < 0 then 0 - adjustment else adjustment);
      NodeBuilds(scalars, nodes, c);
      if AddSize(nodes, c).Success? {
        var (n1, at) := AddSize(nodes, c).value;
        NodeBuilds(scalars, n1, if adjustment < 0 then SubNode(base, at) else AddNode(base, at));
      }
    }
  }

  lemma AffineAdmits(scalars: seq<Scalar>, nodes: Table, base: nat, affine: Affine)
    requires NodesNamed(scalars, nodes)
    ensures Builds(scalars, nodes, ApplyAffine(nodes, scalars, base, affine), IndexAdmitted(scalars, affine), 4)
  {
    hide AddSize, NodesNamed, Adjust, IntScalar, T.IntParameter;
    match affine.symbol
    case None => AdjustAdmits(scalars, nodes, base, affine.offset);
    case Some(s) =>
      ScalarBuilds(scalars, nodes, s);
      if IntScalar(scalars, s).Success? && AddSize(nodes, ScalarRef(IntScalar(scalars, s).value)).Success? {
        var (n1, inv) := AddSize(nodes, ScalarRef(IntScalar(scalars, s).value)).value;
        var node := if affine.sign < 0 then SubNode(base, inv) else AddNode(base, inv);
        NodeBuilds(scalars, n1, node);
        if AddSize(n1, node).Success? {
          var (n2, at) := AddSize(n1, node).value;
          AdjustAdmits(scalars, n2, at, affine.offset);
        }
      }
  }

  // ------------------------------------------------------------------
  // Accesses
  // ------------------------------------------------------------------

  lemma MergeAdmits(scalars: seq<Scalar>, nodes: Table, span: Span, first: nat, end: nat)
    requires NodesNamed(scalars, nodes)
    ensures match MergePair(nodes, span, first, end)
      case Success((after, merged)) =>
        NodesNamed(scalars, after) && |after| <= |nodes| + 2 && merged.first.Some? && merged.end.Some?
      case Failure(e) => e == Declined(Limit) && |nodes| + 2 > 512
  {
    hide AddSize, NodesNamed;
    if span.first.Some? { NodeBuilds(scalars, nodes, MinNode(span.first.value, first)); }
    if span.first.None? || AddSize(nodes, MinNode(span.first.value, first)).Success? {
      var n1 := if span.first.None? then nodes else AddSize(nodes, MinNode(span.first.value, first)).value.0;
      if span.end.Some? { NodeBuilds(scalars, n1, MaxNode(span.end.value, end)); }
    }
  }

  predicate Reached(row: Row) { row.all.first.Some? && row.all.end.Some? }

  ghost predicate Touches(accesses: seq<Access>, b: nat) { exists i :: 0 <= i < |accesses| && accesses[i].buffer == b }

  // The rows keep or gain their ranges, and the rest is as for nodes.
  ghost predicate Extends(
    scalars: seq<Scalar>, nodes: Table, rows: seq<Row>, r: Status<(Table, seq<Row>)>, accesses: seq<Access>, ok: bool, n: nat)
  {
    match r
    case Success((after, rows1)) =>
      && ok && NodesNamed(scalars, after) && |after| <= |nodes| + n && |rows1| == |rows|
      && forall b :: 0 <= b < |rows| ==>
           (Reached(rows1[b]) <==> Reached(rows[b]) || Touches(accesses, b))
    case Failure(e) => !ok || (e == Declined(Limit) && |nodes| + n > 512)
  }

  ghost predicate AccessAdmitted(scalars: seq<Scalar>, buffers: nat, a: Access) {
    a.buffer < buffers && IndexAdmitted(scalars, a.index)
  }

  lemma AccessAdmits(scalars: seq<Scalar>, nodes: Table, rows: seq<Row>, k: nat, start: nat, stop: nat, a: Access)
    requires NodesNamed(scalars, nodes) && Shaped(rows) && k < MAX_KERNELS
    ensures Extends(scalars, nodes, rows, AddAccess(nodes, rows, scalars, k, start, stop, a), [a], AccessAdmitted(scalars, |rows|, a), 12)
  {
    hide NodesNamed, ApplyAffine, MergePair, IndexAdmitted, Touches;
    OneAccess(a);
    if a.buffer < |rows| {
      var row := rows[a.buffer];
      AffineAdmits(scalars, nodes, start, a.index);
      if ApplyAffine(nodes, scalars, start, a.index).Success? {
        var (n1, first) := ApplyAffine(nodes, scalars, start, a.index).value;
        AffineAdmits(scalars, n1, stop, a.index);
        if ApplyAffine(n1, scalars, stop, a.index).Success? {
          var (n2, end) := ApplyAffine(n1, scalars, stop, a.index).value;
          MergeAdmits(scalars, n2, row.all, first, end);
          if MergePair(n2, row.all, first, end).Success? {
            var (n3, all) := MergePair(n2, row.all, first, end).value;
            MergeAdmits(scalars, n3, row.kernel[k], first, end);
          }
        }
      }
    }
  }

  lemma OneAccess(a: Access)
    ensures forall b: nat :: Touches([a], b) <==> a.buffer == b
  {
    assert [a][0] == a;
  }

  lemma {:induction false} AccessesAdmit(
    scalars: seq<Scalar>, nodes: Table, rows: seq<Row>, k: nat, start: nat, stop: nat, accesses: seq<Access>)
    requires NodesNamed(scalars, nodes) && Shaped(rows) && k < MAX_KERNELS
    ensures Extends(scalars, nodes, rows, AddAccesses(nodes, rows, scalars, k, start, stop, accesses), accesses,
      forall i :: 0 <= i < |accesses| ==> AccessAdmitted(scalars, |rows|, accesses[i]), 12 * |accesses|)
    decreases |accesses|
  {
    hide NodesNamed, AddAccess, AccessAdmitted, Reached, Touches;
    if accesses == [] {
      NoAccess();
    } else {
      var front, last := accesses[..|accesses| - 1], accesses[|accesses| - 1];
      AccessesAdmit(scalars, nodes, rows, k, start, stop, front);
      if AddAccesses(nodes, rows, scalars, k, start, stop, front).Success? {
        var (n1, rows1) := AddAccesses(nodes, rows, scalars, k, start, stop, front).value;
        AccessAdmits(scalars, n1, rows1, k, start, stop, last);
        LastAccess(accesses);
        OneAccess(last);
      } else {
        assert forall i :: 0 <= i < |front| ==> front[i] == accesses[i];
      }
    }
  }

  lemma LastAccess(accesses: seq<Access>)
    requires accesses != []
    ensures forall b: nat :: Touches(accesses, b) <==>
      Touches(accesses[..|accesses| - 1], b) || accesses[|accesses| - 1].buffer == b
  {
    var n := |accesses| - 1;
    forall b: nat ensures Touches(accesses, b) <==> Touches(accesses[..n], b) || accesses[n].buffer == b {
      if Touches(accesses[..n], b) {
        var i :| 0 <= i < n && accesses[..n][i].buffer == b;
        assert accesses[i].buffer == b;
      }
      if Touches(accesses, b) {
        var i :| 0 <= i < |accesses| && accesses[i].buffer == b;
        assert i < n ==> accesses[..n][i].buffer == b;
      }
    }
  }

  lemma NoAccess()
    ensures forall b: nat :: !Touches([], b)
  {
  }

  // ------------------------------------------------------------------
  // Loops and regions
  // ------------------------------------------------------------------

  function LoopSize(loop: LoopBounds): nat { T.Size(loop.start) + T.Size(loop.stop) + 2 + 12 * |loop.accesses| }

  function LoopSizes(loops: seq<LoopBounds>): nat {
    if loops == [] then 0 else LoopSizes(loops[..|loops| - 1]) + LoopSize(loops[|loops| - 1])
  }

  // Some access of the loops reaches the buffer.
  ghost predicate SomeLoopTouches(loops: seq<LoopBounds>, b: nat) {
    exists k :: 0 <= k < |loops| && Touches(loops[k].accesses, b)
  }

  ghost predicate KernelBuilds(
    scalars: seq<Scalar>, nodes: Table, rows: seq<Row>, r: Status<(Table, seq<Row>, Plan)>, loop: LoopBounds)
  {
    match r
    case Success((after, rows1, _)) =>
      && LoopAdmitted(scalars, |rows|, loop) && NodesNamed(scalars, after) && |after| <= |nodes| + LoopSize(loop) && |rows1| == |rows|
      && forall b :: 0 <= b < |rows| ==> (Reached(rows1[b]) <==> Reached(rows[b]) || Touches(loop.accesses, b))
    case Failure(e) => !LoopAdmitted(scalars, |rows|, loop) || (e == Declined(Limit) && |nodes| + LoopSize(loop) > 512)
  }

  lemma KernelAdmits(scalars: seq<Scalar>, nodes: Table, rows: seq<Row>, k: nat, loop: LoopBounds)
    requires NodesNamed(scalars, nodes) && Shaped(rows) && k < MAX_KERNELS
    ensures KernelBuilds(scalars, nodes, rows, AddKernel(nodes, rows, scalars, k, loop), loop)
  {
    hide NodesNamed, FromHir, AddSize, AddAccesses, BoundAdmitted, IndexAdmitted, Reached, Touches, WriteCount;
    FromHirAdmits(scalars, nodes, loop.start);
    if FromHir(nodes, scalars, loop.start).Success? {
      var (n1, start) := FromHir(nodes, scalars, loop.start).value;
      FromHirAdmits(scalars, n1, loop.stop);
      if FromHir(n1, scalars, loop.stop).Success? {
        var (n2, stop) := FromHir(n1, scalars, loop.stop).value;
        NodeBuilds(scalars, n2, SubNode(stop, start));
        if AddSize(n2, SubNode(stop, start)).Success? {
          var (n3, difference) := AddSize(n2, SubNode(stop, start)).value;
          NodeBuilds(scalars, n3, MaxZero(difference));
          if AddSize(n3, MaxZero(difference)).Success? {
            var (n4, trip) := AddSize(n3, MaxZero(difference)).value;
            AccessesAdmit(scalars, n4, rows, k, start, stop, loop.accesses);
            if AddAccesses(n4, rows, scalars, k, start, stop, loop.accesses).Success? {
              MarksReach(AddAccesses(n4, rows, scalars, k, start, stop, loop.accesses).value.1, loop.accesses, k);
            }
          }
        }
      }
    }
  }

  lemma MarksReach(rows: seq<Row>, accesses: seq<Access>, k: nat)
    requires Shaped(rows) && k < MAX_KERNELS
    ensures forall b :: 0 <= b < |rows| ==> (Reached(MarkOverwrites(rows, accesses, k)[b]) <==> Reached(rows[b]))
  {
  }

  // A region's loops get a table exactly when every one is admitted, unless
  // the nodes may not fit; its nodes read no parameter the function assigns,
  // and a buffer has a range exactly when some access of some loop is to it.
  lemma {:induction false} LoopsAdmit(buffers: nat, scalars: seq<Scalar>, loops: seq<LoopBounds>)
    requires |loops| <= MAX_KERNELS
    ensures match AddKernels([], seq(buffers, _ => EMPTY_ROW), scalars, loops)
      case Success((nodes, rows, _)) =>
        && (forall k :: 0 <= k < |loops| ==> LoopAdmitted(scalars, buffers, loops[k]))
        && NodesNamed(scalars, nodes) && |nodes| <= LoopSizes(loops)
        && forall b :: 0 <= b < buffers ==> (Reached(rows[b]) <==> SomeLoopTouches(loops, b))
      case Failure(e) =>
        || (exists k :: 0 <= k < |loops| && !LoopAdmitted(scalars, buffers, loops[k]))
        || (e == Declined(Limit) && LoopSizes(loops) > 512)
    decreases |loops|
  {
    hide AddKernel, LoopAdmitted, NodesNamed, LoopSize, Touches;
    var rows := seq(buffers, _ => EMPTY_ROW);
    if loops == [] {
      NothingNamed(scalars);
    } else {
      hide Reached;
      var n := |loops| - 1;
      LoopsAdmit(buffers, scalars, loops[..n]);
      if AddKernels([], rows, scalars, loops[..n]).Success? {
        var (n1, rows1, _) := AddKernels([], rows, scalars, loops[..n]).value;
        KernelAdmits(scalars, n1, rows1, n, loops[n]);
        LastLoop(loops);
      } else {
        assert forall k :: 0 <= k < n ==> loops[..n][k] == loops[k];
      }
    }
  }

  lemma NothingNamed(scalars: seq<Scalar>)
    ensures NodesNamed(scalars, [])
  {
  }

  lemma LastLoop(loops: seq<LoopBounds>)
    requires loops != []
    ensures forall b: nat :: SomeLoopTouches(loops, b) <==>
      SomeLoopTouches(loops[..|loops| - 1], b) || Touches(loops[|loops| - 1].accesses, b)
  {
    hide Touches;
    var n := |loops| - 1;
    forall b: nat ensures SomeLoopTouches(loops, b) <==> SomeLoopTouches(loops[..n], b) || Touches(loops[n].accesses, b) {
      if SomeLoopTouches(loops[..n], b) {
        var k :| 0 <= k < n && Touches(loops[..n][k].accesses, b);
        assert loops[k] == loops[..n][k];
      }
      if SomeLoopTouches(loops, b) {
        var k :| 0 <= k < |loops| && Touches(loops[k].accesses, b);
        assert k < n ==> loops[..n][k] == loops[k];
      }
    }
  }

  lemma {:induction false} SizesAdmit(scalars: seq<Scalar>, nodes: Table, rows: seq<Row>, bindings: seq<Binding>, stop: nat, kernels: nat)
    requires NodesNamed(scalars, nodes) && Shaped(rows) && |bindings| == |rows| && kernels <= MAX_KERNELS
    ensures match FinalizeAll(nodes, rows, bindings, stop, kernels)
      case Success((after, _)) =>
        (forall b :: 0 <= b < |rows| ==> Reached(rows[b])) && NodesNamed(scalars, after) && |after| <= |nodes| + |rows|
      case Failure(e) =>
        || (exists b :: 0 <= b < |rows| && !Reached(rows[b]))
        || (e == Declined(Limit) && |nodes| + |rows| > 512)
  {
    hide NodesNamed, AddSize, AnyWrite;
    if rows != [] {
      var n := |rows| - 1;
      SizesAdmit(scalars, nodes, rows[..n], bindings[..n], stop, kernels);
      if FinalizeAll(nodes, rows[..n], bindings[..n], stop, kernels).Success? {
        var n1 := FinalizeAll(nodes, rows[..n], bindings[..n], stop, kernels).value.0;
        if Reached(rows[n]) {
          NodeBuilds(scalars, n1, MulConstant(if bindings[n].device then stop else rows[n].all.end.value, bindings[n].width));
        }
      }
    }
  }

  // The finished table exists exactly when every loop is admitted and every
  // buffer is accessed, unless the nodes may not fit, and reads no parameter
  // the function assigns.
  lemma FinishedAdmits(buffers: nat, scalars: seq<Scalar>, loops: seq<LoopBounds>, bindings: seq<Binding>)
    requires 0 < |loops| <= MAX_KERNELS && |bindings| == buffers
    ensures var admitted :=
        && (forall k :: 0 <= k < |loops| ==> LoopAdmitted(scalars, buffers, loops[k]))
        && (forall b :: 0 <= b < buffers ==> SomeLoopTouches(loops, b));
      match Finished(buffers, scalars, loops, bindings)
      case Success((nodes, _, _, _)) => admitted && forall i :: 0 <= i < |nodes| && nodes[i].ScalarRef? ==>
        nodes[i].reference < |scalars| && scalars[nodes[i].reference].ty == I32 && !scalars[nodes[i].reference].reassigned
      case Failure(e) => !admitted || (e == Declined(Limit) && LoopSizes(loops) + buffers > 512)
  {
    hide AddKernels, FinalizeAll, LoopAdmitted, SomeLoopTouches, Reached;
    LoopsAdmit(buffers, scalars, loops);
    var r := AddKernels([], seq(buffers, _ => EMPTY_ROW), scalars, loops);
    if r.Success? {
      var (nodes, rows, plans) := r.value;
      SizesAdmit(scalars, nodes, rows, bindings, plans[0].stop, |loops|);
    }
  }

  // ------------------------------------------------------------------
  // Complete overwrites
  // ------------------------------------------------------------------

  predicate WriteTo(a: Access, b: nat) { a.write && a.buffer == b }

  // Access i is the only write to the buffer.
  ghost predicate OnlyWrite(accesses: seq<Access>, b: nat, i: nat) {
    i < |accesses| && WriteTo(accesses[i], b) && forall j :: 0 <= j < |accesses| && j != i ==> !WriteTo(accesses[j], b)
  }

  // A complete overwrite is marked for the buffers with exactly one write.
  lemma {:induction false} SingleWrite(accesses: seq<Access>, b: nat)
    ensures WriteCount(accesses, b) == 0 <==> forall j :: 0 <= j < |accesses| ==> !WriteTo(accesses[j], b)
    ensures WriteCount(accesses, b) == 1 <==> exists i: nat :: OnlyWrite(accesses, b, i)
  {
    if accesses != [] {
      var n := |accesses| - 1;
      var front := accesses[..n];
      SingleWrite(front, b);
      if exists i: nat :: OnlyWrite(front, b, i) {
        var i: nat :| OnlyWrite(front, b, i);
        assert WriteTo(accesses[i], b);
        if !WriteTo(accesses[n], b) { assert OnlyWrite(accesses, b, i); }
      }
      if WriteTo(accesses[n], b) && WriteCount(front, b) == 0 {
        assert forall j :: 0 <= j < n ==> accesses[j] == front[j];
        assert OnlyWrite(accesses, b, n);
      }
      if exists i: nat :: OnlyWrite(accesses, b, i) {
        var i: nat :| OnlyWrite(accesses, b, i);
        assert forall j :: 0 <= j < n ==> front[j] == accesses[j];
        if i < n { assert OnlyWrite(front, b, i); }
      }
    }
  }
}
