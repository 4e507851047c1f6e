// A region the compiler and the runtime accept although the source loop and
// the dispatch disagree on how often it runs: the stop bound n + 1 wraps in
// the program and does not wrap in the size table.

module CountExample {
  import opened Words
  import opened Hir
  import opened AccelIr
  import opened Lowering
  import opened LoweringMeaning
  import opened LoopMeaning
  import opened SizeDag
  import opened Ranges
  import opened Region
  import KV = KernelValidation

  // for i in 0..n + 1 { acc = acc + 1 }
  const ONE := TermExpr(IntTerm(1))
  const ACC := TermExpr(SymbolTerm("acc"))
  const N := TermExpr(SymbolTerm("n"))
  const UPDATE := Stmt(ACC, Binary(Plus, ACC, ONE))

  const SCALARS := [Scalar("n", I32, false)]

  const ENV := KernelEnv(
    "i", TermExpr(IntTerm(0)), 0, SCALARS, [], [Local("acc", 0, false, false, I32, I32)],
    [ScalarResult("acc", 0)], Some(Reduction("acc", ONE, Some(0))))

  const LOOP := RegionLoop(ENV, [UPDATE], Binary(Plus, N, ONE), false)

  const REGION := Region([LOOP], SCALARS, 0, KV.Shape(1, []))

  function Largest(alu: Alu): Actuals { Actuals(map["n" := IntVal(0x7FFF_FFFF)], [0x7FFF_FFFF], alu) }

  const TABLE: Table := [Constant(0), ScalarRef(0), Constant(1), AddNode(1, 2), SubNode(3, 0), MaxZero(4)]

  lemma BodyLowers()
    ensures LowerBody(ENV, [UPDATE]).Success?
  {
    assert [UPDATE][..0] == [];
    assert LowerExpr(EMPTY, ENV, ONE, I32) == Append(EMPTY, ConstI32(1));
  }

  lemma BodyAccepted()
    ensures Accepted(ENV, [UPDATE]) && BodyAccesses(ENV, [UPDATE]) == []
  {
    hide LowerBody;
    BodyLowers();
    assert [UPDATE][..0] == [];
  }

  lemma TableNext(i: nat)
    requires i < 6
    ensures AddSize(TABLE[..i], TABLE[i]) == Success((TABLE[..i + 1], i))
  {
    assert TABLE[..i + 1] == TABLE[..i] + [TABLE[i]];
  }

  lemma StopBuilt()
    ensures FromHir(TABLE[..1], SCALARS, LOOP.stop) == Success((TABLE[..4], 3))
  {
    hide AddSize;
    TableNext(1);
    TableNext(2);
    TableNext(3);
    assert FromHir(TABLE[..1], SCALARS, N) == Success((TABLE[..2], 1));
    assert FromHir(TABLE[..2], SCALARS, ONE) == Success((TABLE[..3], 2));
    assert FoldConstant(LOOP.stop).None?;
  }

  lemma KernelBuilt()
    ensures AddKernel([], [], SCALARS, 0, LoopBounds(ENV.start, LOOP.stop, [])) == Success((TABLE, [], Plan(0, 3, 5)))
  {
    hide AddSize;
    TableNext(0);
    TableNext(4);
    TableNext(5);
    assert TABLE[..0] == [] && TABLE[..6] == TABLE;
    assert FromHir([], SCALARS, ENV.start) == Success((TABLE[..1], 0));
    StopBuilt();
  }

  lemma TableBuilt()
    ensures AddKernels([], [], SCALARS, [LoopBounds(ENV.start, LOOP.stop, [])]) == Success((TABLE, [], [Plan(0, 3, 5)]))
  {
    hide AddKernel;
    KernelBuilt();
    var loops := [LoopBounds(ENV.start, LOOP.stop, [])];
    assert loops[..0] == [];
    assert AddKernels([], [], SCALARS, loops[..0]) == Success(([], [], []));
    assert [] + [Plan(0, 3, 5)] == [Plan(0, 3, 5)];
  }

  const VALUES: seq<int> := [0, 0x7FFF_FFFF, 1, 0x8000_0000, 0x8000_0000, 0x8000_0000]

  lemma {:induction false} TableEvaluates(n: nat)
    requires n <= 6
    ensures EvaluateAll(TABLE[..n], [0x7FFF_FFFF]) == Some(VALUES[..n])
  {
    if n > 0 {
      TableEvaluates(n - 1);
      assert TABLE[..n][..n - 1] == TABLE[..n - 1];
      assert VALUES[..n] == VALUES[..n - 1] + [VALUES[n - 1]];
      NodeEvaluates(n - 1);
    }
  }

  lemma NodeEvaluates(i: nat)
    requires i < 6
    ensures EvaluateNode(TABLE[i], VALUES[..i], [0x7FFF_FFFF]) == Some(VALUES[i])
  {
  }

  lemma Accepts(alu: Alu)
    ensures Compiled(REGION) && ArgumentsBound(REGION, Largest(alu)) && RuntimeAccepts(REGION, Largest(alu), [])
  {
    hide AddKernels, LowerBody, Accepted, EvaluateAll, BodyAccesses;
    BodyAccepted();
    TableBuilt();
    assert EmptyRows(REGION) == [];
    assert AllBounds(REGION) == [LoopBounds(ENV.start, LOOP.stop, [])];
    ResultsAre();
    assert LoopCompiled(REGION, 0);
    TableEvaluates(1);
    TableEvaluates(6);
    assert TABLE[..6] == TABLE;
    assert ScalarValues(REGION, Largest(alu)) == [0x7FFF_FFFF];
  }

  lemma ResultsAre()
    ensures ResultsOf(REGION.loops) == ENV.results && ResultsOf(REGION.loops[..0]) == []
  {
  }

  // The program runs the loop no times; the accelerator would run 2^31
  // invocations.
  lemma StopBoundWraps(alu: Alu)
    ensures Compiled(REGION) && ArgumentsBound(REGION, Largest(alu)) && RuntimeAccepts(REGION, Largest(alu), [])
    ensures SourceCount(REGION, Largest(alu), 0) == Some(0)
    ensures TripCount(REGION, Largest(alu), 0) == 0x8000_0000
  {
    hide Compiled, ArgumentsBound, RuntimeAccepts, Eval, Wrap;
    Accepts(alu);
    StopIs(alu);
    SourceBoundIs(REGION, Largest(alu), ENV.start);
    SourceBoundIs(REGION, Largest(alu), LOOP.stop);
    assert Wrap(0) == 0 && Wrap(0x8000_0000) == 0x8000_0000 by {
      WrapOfWord(0);
      WrapOfWord(0x8000_0000);
    }
  }

  lemma StopIs(alu: Alu)
    ensures BoundExact(LOOP.stop, SCALARS, ScalarValues(REGION, Largest(alu))) == 0x8000_0000
    ensures BoundAccepted(SCALARS, LOOP.stop)
  {
    assert FoldConstant(LOOP.stop).None?;
    assert BoundExact(N, SCALARS, ScalarValues(REGION, Largest(alu))) == 0x7FFF_FFFF;
    assert BoundExact(ONE, SCALARS, ScalarValues(REGION, Largest(alu))) == 1;
  }
}
