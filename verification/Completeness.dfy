// From the classifiers' verdicts to a dispatched region: what each of them
// accepts is together all that the compiled region's guarantees rest on.

module Completeness {
  import opened Words
  import opened Hir
  import opened Lowering
  import opened LoweringMeaning
  import opened LoopMeaning
  import opened SizeDag
  import opened Ranges
  import opened Region
  import opened RuntimeChecks
  import A = Admission
  import D = Doall
  import KV = KernelValidation
  import T = Typing

  // The tables a loop is lowered with, as the region's earlier steps build
  // them.
  ghost predicate LoopTables(r: Region, k: nat)
    requires k < |r.loops|
  {
    var loop := r.loops[k];
    && WellFormed(loop.env) && KV.TablesFit(loop.env, r.shape)
    && loop.env.scalars == r.scalars && loop.env.kernelIndex == k && loop.env.results == ResultsOf(r.loops)
    && (loop.env.reduction.Some? ==>
         && loop.env.reduction.value.entry == Some(|ResultsOf(r.loops[..k])|)
         && (k == 0 || loop.zeroFirst))
    && (loop.zeroFirst ==> loop.env.reduction.Some?)
  }

  // What the classifiers decide about a loop: its scalars are clean, its
  // body is typed and small enough, no two of its accesses can meet, and its
  // bounds and indices have the admitted form.
  ghost predicate LoopPasses(r: Region, k: nat, summary: D.Summary)
    requires k < |r.loops|
  {
    var loop := r.loops[k];
    && (forall stmt :: stmt in loop.body ==> ScalarVerdict(loop.env, stmt))
    && T.BodyTypes(loop.env, loop.body).Success? && 11 * T.BodySize(loop.env, loop.body) <= 1024
    && D.Summarises(summary, BodyAccesses(loop.env, loop.body)) && D.MemoryFree(summary)
    && A.LoopAdmitted(r.scalars, r.buffers, BoundsAt(r, k))
  }

  lemma LoopCompiles(r: Region, k: nat, summary: D.Summary)
    requires k < |r.loops| && LoopTables(r, k) && LoopPasses(r, k, summary)
    ensures LoopCompiled(r, k)
  {
    hide WellFormed, KV.TablesFit, LowerBody, T.BodyTypes, T.BodySize, D.Summarises, D.MemoryFree, Independent, BodyAccesses, ScalarVerdict,
      A.BoundAdmitted, A.IndexAdmitted;
    var loop := r.loops[k];
    T.BodyTyped(loop.env, loop.body);
    D.FreeIsIndependent(summary, BodyAccesses(loop.env, loop.body));
    forall a | a in BodyAccesses(loop.env, loop.body) ensures a.buffer < r.buffers {
      var accesses := BoundsAt(r, k).accesses;
      var i :| 0 <= i < |accesses| && accesses[i] == a;
    }
  }

  // A region of at most 32 loops, each of which passes the classifiers, whose
  // size table fits, compiles.
  lemma RegionCompiles(r: Region, summaries: seq<D.Summary>)
    requires |r.loops| <= 32 && |summaries| == |r.loops|
    requires forall k :: 0 <= k < |r.loops| ==> LoopTables(r, k) && LoopPasses(r, k, summaries[k])
    requires A.LoopSizes(AllBounds(r)) <= 512
    ensures Compiled(r)
  {
    hide LoopTables, LoopCompiled, AddKernels, A.LoopAdmitted, A.LoopSizes, BodyAccesses, T.BodyTypes, T.BodySize, D.Summarises, D.MemoryFree;
    forall k | 0 <= k < |r.loops| ensures LoopCompiled(r, k) {
      LoopCompiles(r, k, summaries[k]);
    }
    forall k | 0 <= k < |AllBounds(r)| ensures A.LoopAdmitted(r.scalars, r.buffers, AllBounds(r)[k]) {
      assert LoopPasses(r, k, summaries[k]);
    }
    A.LoopsAdmit(r.buffers, r.scalars, AllBounds(r));
  }

  // A compiled region is dispatched whenever no access of any iteration
  // leaves its buffer, and then every guarantee about its runs holds.
  lemma InsideRuns(r: Region, act: Actuals, lengths: seq<nat>)
    requires Compiled(r) && ArgumentsBound(r, act)
    requires |lengths| == r.buffers && forall k :: 0 <= k < |r.loops| ==> KernelInside(r, act, lengths, k)
    ensures Runnable(r, act, lengths)
  {
    hide Compiled, ArgumentsBound, RuntimeAccepts, KernelInside, Runnable;
    RuntimeExact(r, act, lengths);
    AcceptedRuns(r, act, lengths);
  }
}
