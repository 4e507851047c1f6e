// The runtime's range checks are exact: a dispatch is refused only when some
// access of some iteration would leave its buffer, or a count its word.

module RuntimeChecks {
  import opened Words
  import opened Hir
  import opened Lowering
  import opened LoweringMeaning
  import opened SizeDag
  import opened Ranges
  import opened SizeBounds
  import opened Region

  lemma AffineShift(index: Affine, c: int, d: int, scalars: seq<Scalar>, vals: seq<int>)
    ensures AffineExact(index, c, scalars, vals) - c == AffineExact(index, d, scalars, vals) - d
  {
  }

  lemma {:induction false} BoundsExist(accesses: seq<Access>, b: nat, lo: int, hi: int, scalars: seq<Scalar>, vals: seq<int>)
    ensures BoundsOf(accesses, b, lo, hi, scalars, vals).Some? <==> exists a :: a in accesses && a.buffer == b
  {
    hide AffineExact;
    if accesses != [] {
      var front, last := accesses[..|accesses| - 1], accesses[|accesses| - 1];
      BoundsExist(front, b, lo, hi, scalars, vals);
      assert forall a :: a in accesses <==> a in front || a == last;
    }
  }

  // Every access of the loop to the buffer is inside it, for every counter.
  ghost predicate BufferInside(accesses: seq<Access>, b: nat, lo: int, hi: int, scalars: seq<Scalar>, vals: seq<int>, length: nat) {
    forall a, c :: a in accesses && a.buffer == b && lo <= c < hi ==> 0 <= AffineExact(a.index, c, scalars, vals) < length
  }

  // The joined range lies in the buffer exactly when every access does.
  lemma BufferExact(accesses: seq<Access>, b: nat, lo: int, hi: int, scalars: seq<Scalar>, vals: seq<int>, length: nat)
    requires lo < hi && BoundsOf(accesses, b, lo, hi, scalars, vals).Some?
    ensures var x := BoundsOf(accesses, b, lo, hi, scalars, vals).value;
      0 <= x.0 <= x.1 <= length <==> BufferInside(accesses, b, lo, hi, scalars, vals, length)
  {
    hide AffineExact, BoundsOf;
    var x := BoundsOf(accesses, b, lo, hi, scalars, vals).value;
    BoundsTight(accesses, b, lo, hi, scalars, vals);
    if 0 <= x.0 <= x.1 <= length {
      forall a, c | a in accesses && a.buffer == b && lo <= c < hi ensures 0 <= AffineExact(a.index, c, scalars, vals) < length {
        BoundsCover(accesses, a, c, lo, hi, scalars, vals);
      }
    }
    if BufferInside(accesses, b, lo, hi, scalars, vals, length) {
      var first :| first in accesses && first.buffer == b && AffineExact(first.index, lo, scalars, vals) == x.0;
      var last :| last in accesses && last.buffer == b && AffineExact(last.index, hi, scalars, vals) == x.1;
      AffineShift(last.index, hi, hi - 1, scalars, vals);
      assert 0 <= AffineExact(last.index, hi - 1, scalars, vals) < length;
      BoundsCover(accesses, last, lo, lo, hi, scalars, vals);
    }
  }

  // Kernel k starts at an int, turns a 32-bit number of times, and no access
  // of any of its iterations leaves its buffer.
  ghost predicate KernelInside(r: Region, act: Actuals, lengths: seq<nat>, k: nat)
    requires k < |r.loops|
  {
    var vals := ScalarValues(r, act);
    var (lo, hi) := (BoundExact(r.loops[k].env.start, r.scalars, vals), BoundExact(r.loops[k].stop, r.scalars, vals));
    && 0 <= lo <= 0x7FFF_FFFF && hi - lo <= 0xFFFF_FFFF
    && forall a, c :: a in BoundsAt(r, k).accesses && lo <= c < hi ==>
         a.buffer < |lengths| && 0 <= AffineExact(a.index, c, r.scalars, vals) < lengths[a.buffer]
  }

  lemma NarrowValues(r: Region, act: Actuals)
    ensures Narrow(ScalarValues(r, act))
  {
  }

  lemma NodeEvaluates(r: Region, act: Actuals, index: nat)
    requires Compiled(r) && ArgumentsBound(r, act)
    requires index < |AddKernels([], EmptyRows(r), r.scalars, AllBounds(r)).value.0|
    ensures var nodes := AddKernels([], EmptyRows(r), r.scalars, AllBounds(r)).value.0;
      Ordered(nodes, |ScalarValues(r, act)|)
      && ValueAt(nodes, index, ScalarValues(r, act)) == Some(Exact(nodes, index, ScalarValues(r, act)))
  {
    hide AddKernels, Exact, ValueAt, BodyAccesses, OffsetsNarrow, LoopCompiled, Narrow, Ordered;
    NarrowValues(r, act);
    forall loop | loop in AllBounds(r) ensures OffsetsNarrow(loop.accesses) {
      var k :| 0 <= k < |AllBounds(r)| && AllBounds(r)[k] == loop;
      BodyOffsets(r.loops[k].env, r.loops[k].body);
    }
    TableAlwaysEvaluates(r.buffers, r.scalars, AllBounds(r), ScalarValues(r, act), index);
  }

  // One range check, on exact values.
  lemma RangeExact(r: Region, act: Actuals, span: Span, length: nat)
    requires Compiled(r) && ArgumentsBound(r, act)
    requires var nodes := AddKernels([], EmptyRows(r), r.scalars, AllBounds(r)).value.0;
      Ordered(nodes, |ScalarValues(r, act)|) && SpanBuilt(nodes, span)
    ensures var (nodes, vals) := (AddKernels([], EmptyRows(r), r.scalars, AllBounds(r)).value.0, ScalarValues(r, act));
      RangeChecked(nodes, span, length, vals) <==>
        var x := SpanValue(nodes, span, vals); x.Some? && 0 <= x.value.0 <= x.value.1 <= length
  {
    hide AddKernels, Exact, ValueAt, ScalarValues, Compiled, ArgumentsBound, Ordered;
    if span.first.Some? {
      NodeEvaluates(r, act, span.first.value);
      NodeEvaluates(r, act, span.end.value);
    }
  }

  lemma KernelExact(r: Region, act: Actuals, lengths: seq<nat>, k: nat)
    requires Compiled(r) && ArgumentsBound(r, act) && k < |r.loops| && |lengths| == r.buffers
    ensures var (nodes, rows, plans) := AddKernels([], EmptyRows(r), r.scalars, AllBounds(r)).value;
      KernelChecked(nodes, rows, plans[k], k, lengths, ScalarValues(r, act)) <==> KernelInside(r, act, lengths, k)
  {
    hide AddKernels, Exact, ValueAt, SpanValue, ScalarValues, ArgumentsBound, BoundExact, RangeChecked, LoopCompiled, BodyAccesses, AffineExact, BoundsOf, RowsBuilt, JoinKernels, ReadsFirst;
    var vals := ScalarValues(r, act);
    var (nodes, rows, plans) := AddKernels([], EmptyRows(r), r.scalars, AllBounds(r)).value;
    RegionTables(r, act, k);
    assert AllBounds(r)[k] == BoundsAt(r, k);
    assert PlanBuilt(nodes, plans[k], BoundsAt(r, k), r.scalars, vals);
    NodeEvaluates(r, act, plans[k].start);
    NodeEvaluates(r, act, plans[k].trip);
    var (lo, hi) := (BoundExact(r.loops[k].env.start, r.scalars, vals), BoundExact(r.loops[k].stop, r.scalars, vals));
    if lo < hi {
      forall b | 0 <= b < |rows|
        ensures ((rows[b].effect[k].read || rows[b].effect[k].write) ==> RangeChecked(nodes, rows[b].kernel[k], lengths[b], vals))
          <==> BufferInside(BoundsAt(r, k).accesses, b, lo, hi, r.scalars, vals, lengths[b])
      {
        RowExact(r, act, k, b, lengths[b]);
      }
      ByBuffer(BoundsAt(r, k).accesses, lo, hi, r.scalars, vals, lengths);
    }
  }

  lemma ByBuffer(accesses: seq<Access>, lo: int, hi: int, scalars: seq<Scalar>, vals: seq<int>, lengths: seq<nat>)
    requires forall a :: a in accesses ==> a.buffer < |lengths|
    ensures (forall a, c :: a in accesses && lo <= c < hi ==>
              a.buffer < |lengths| && 0 <= AffineExact(a.index, c, scalars, vals) < lengths[a.buffer]) <==>
      forall b :: 0 <= b < |lengths| ==> BufferInside(accesses, b, lo, hi, scalars, vals, lengths[b])
  {
    hide AffineExact;
    if forall b :: 0 <= b < |lengths| ==> BufferInside(accesses, b, lo, hi, scalars, vals, lengths[b]) {
      forall a, c | a in accesses && lo <= c < hi
        ensures a.buffer < |lengths| && 0 <= AffineExact(a.index, c, scalars, vals) < lengths[a.buffer]
      {
        assert BufferInside(accesses, a.buffer, lo, hi, scalars, vals, lengths[a.buffer]);
      }
    }
  }

  lemma RowExact(r: Region, act: Actuals, k: nat, b: nat, length: nat)
    requires Compiled(r) && ArgumentsBound(r, act) && k < |r.loops| && b < r.buffers
    requires var vals := ScalarValues(r, act); BoundExact(r.loops[k].env.start, r.scalars, vals) < BoundExact(r.loops[k].stop, r.scalars, vals)
    ensures var (nodes, rows, plans) := AddKernels([], EmptyRows(r), r.scalars, AllBounds(r)).value;
      var vals := ScalarValues(r, act);
      ((rows[b].effect[k].read || rows[b].effect[k].write) ==> RangeChecked(nodes, rows[b].kernel[k], length, vals)) <==>
        BufferInside(BoundsAt(r, k).accesses, b,
          BoundExact(r.loops[k].env.start, r.scalars, vals), BoundExact(r.loops[k].stop, r.scalars, vals), r.scalars, vals, length)
  {
    hide AddKernels, Exact, ValueAt, SpanValue, ScalarValues, ArgumentsBound, BoundExact, RangeChecked, LoopCompiled, BodyAccesses, AffineExact, BoundsOf, JoinKernels, ReadsFirst, PlanBuilt;
    var vals := ScalarValues(r, act);
    var (nodes, rows, plans) := AddKernels([], EmptyRows(r), r.scalars, AllBounds(r)).value;
    RegionTables(r, act, k);
    assert AllBounds(r)[k] == BoundsAt(r, k);
    var accesses := BoundsAt(r, k).accesses;
    var (lo, hi) := (BoundExact(r.loops[k].env.start, r.scalars, vals), BoundExact(r.loops[k].stop, r.scalars, vals));
    assert EffectDescribes(rows[b].effect[k], accesses, b);
    BoundsExist(accesses, b, lo, hi, r.scalars, vals);
    assert RowBuilt(nodes, rows[b]);
    RangeExact(r, act, rows[b].kernel[k], length);
    assert SpanValue(nodes, rows[b].kernel[k], vals) == LoopInterval(BoundsAt(r, k), b, r.scalars, vals);
    if BoundsOf(accesses, b, lo, hi, r.scalars, vals).Some? {
      BufferExact(accesses, b, lo, hi, r.scalars, vals, length);
    }
  }

  // The runtime accepts a dispatch exactly when the buffers are the region's
  // and every kernel stays inside them.
  lemma RuntimeExact(r: Region, act: Actuals, lengths: seq<nat>)
    requires Compiled(r) && ArgumentsBound(r, act)
    ensures RuntimeAccepts(r, act, lengths) <==>
      |lengths| == r.buffers && forall k :: 0 <= k < |r.loops| ==> KernelInside(r, act, lengths, k)
  {
    hide AddKernels, KernelChecked, KernelInside, ArgumentsBound, LoopCompiled;
    if |lengths| == r.buffers {
      var (nodes, rows, plans) := AddKernels([], EmptyRows(r), r.scalars, AllBounds(r)).value;
      forall k | 0 <= k < |r.loops|
        ensures KernelChecked(nodes, rows, plans[k], k, lengths, ScalarValues(r, act)) <==> KernelInside(r, act, lengths, k)
      {
        KernelExact(r, act, lengths, k);
      }
    }
  }
}
