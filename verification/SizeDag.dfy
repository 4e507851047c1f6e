// The size-expression DAG: an append-only table of checked integer nodes that
// bound every loop and every buffer access, and its evaluation by the runtime.

module SizeDag {
  import opened Words
  import opened Hir
  import opened Lowering
  import opened AccelIr

  const MAX_SIZE_EXPRESSIONS: nat := 512

  datatype SizeNode =
    | Constant(value: int)
    | ScalarRef(reference: nat)
    | AddNode(left: nat, right: nat)
    | SubNode(left: nat, right: nat)
    | MulConstant(left: nat, factor: int)
    | MinNode(left: nat, right: nat)
    | MaxNode(left: nat, right: nat)
    | MaxZero(left: nat)

  type Table = seq<SizeNode>

  // ------------------------------------------------------------------
  // Meaning of a node: exact integer arithmetic over earlier nodes
  // ------------------------------------------------------------------

  // A node names only nodes before it, and only scalars that exist.
  predicate NodeOrdered(node: SizeNode, at: nat, scalars: nat) {
    match node
    case Constant(v) => v >= 0
    case ScalarRef(r) => r < scalars
    case MulConstant(l, _) => l < at
    case MaxZero(l) => l < at
    case _ => node.left < at && node.right < at
  }

  predicate Ordered(nodes: Table, scalars: nat) {
    forall i :: 0 <= i < |nodes| ==> NodeOrdered(nodes[i], i, scalars)
  }

  function Min(a: int, b: int): int { if a < b then a else b }
  function Max(a: int, b: int): int { if a > b then a else b }

  function Combine(node: SizeNode, a: int, b: int): int
    requires !node.Constant? && !node.ScalarRef?
  {
    match node
    case AddNode(_, _) => a + b
    case SubNode(_, _) => a - b
    case MulConstant(_, f) => a * f
    case MinNode(_, _) => Min(a, b)
    case MaxNode(_, _) => Max(a, b)
    case MaxZero(_) => Max(a, 0)
  }

  function Exact(nodes: Table, i: nat, vals: seq<int>): int
    requires i < |nodes| && Ordered(nodes, |vals|)
    decreases i
  {
    match nodes[i]
    case Constant(v) => v
    case ScalarRef(r) => vals[r]
    case MulConstant(l, _) => Combine(nodes[i], Exact(nodes, l, vals), 0)
    case MaxZero(l) => Combine(nodes[i], Exact(nodes, l, vals), 0)
    case _ => Combine(nodes[i], Exact(nodes, nodes[i].left, vals), Exact(nodes, nodes[i].right, vals))
  }

  lemma {:induction false} ExactOfPrefix(nodes: Table, longer: Table, i: nat, vals: seq<int>)
    requires nodes <= longer && i < |nodes| && Ordered(nodes, |vals|) && Ordered(longer, |vals|)
    ensures Exact(longer, i, vals) == Exact(nodes, i, vals)
    decreases i
  {
    assert longer[i] == nodes[i] && NodeOrdered(nodes[i], i, |vals|);
    match nodes[i]
    case Constant(_) =>
    case ScalarRef(_) =>
    case MulConstant(l, _) => ExactOfPrefix(nodes, longer, l, vals);
    case MaxZero(l) => ExactOfPrefix(nodes, longer, l, vals);
    case _ =>
      ExactOfPrefix(nodes, longer, nodes[i].left, vals);
      ExactOfPrefix(nodes, longer, nodes[i].right, vals);
  }

  // ------------------------------------------------------------------
  // Evaluation in checked 64-bit arithmetic
  // ------------------------------------------------------------------

  // The value of node i given the values of the nodes before it; None when
  // the node is malformed or its result leaves the 64-bit range.
  function EvaluateNode(node: SizeNode, before: seq<int>, vals: seq<int>): Option<int> {
    if !NodeOrdered(node, |before|, |vals|) then None
    else match node
      case Constant(v) => Some(v)
      case ScalarRef(r) => Some(vals[r])
      case AddNode(l, r) => Checked64(before[l] + before[r])
      case SubNode(l, r) => Checked64(before[l] - before[r])
      case MulConstant(l, f) => Checked64(before[l] * f)
      case MinNode(l, r) => Some(Min(before[l], before[r]))
      case MaxNode(l, r) => Some(Max(before[l], before[r]))
      case MaxZero(l) => Some(Max(before[l], 0))
  }

  function EvaluateAll(nodes: Table, vals: seq<int>): Option<seq<int>> {
    if nodes == [] then Some([])
    else
      var before :- EvaluateAll(nodes[..|nodes| - 1], vals);
      var v :- EvaluateNode(nodes[|nodes| - 1], before, vals);
      Some(before + [v])
  }

  lemma {:induction false} EvaluateLength(nodes: Table, vals: seq<int>)
    requires EvaluateAll(nodes, vals).Some?
    ensures |EvaluateAll(nodes, vals).value| == |nodes|
  {
    if nodes != [] {
      EvaluateLength(nodes[..|nodes| - 1], vals);
    }
  }

  // The value of the node at index, when it and every node before it
  // evaluate.
  function ValueAt(nodes: Table, index: nat, vals: seq<int>): Option<int> {
    if index >= |nodes| || |nodes| > MAX_SIZE_EXPRESSIONS then None
    else
      EvaluateLengthIfSome(nodes[..index + 1], vals);
      var values :- EvaluateAll(nodes[..index + 1], vals);
      Some(values[index])
  }

  lemma EvaluateLengthIfSome(nodes: Table, vals: seq<int>)
    ensures EvaluateAll(nodes, vals).Some? ==> |EvaluateAll(nodes, vals).value| == |nodes|
  {
    if EvaluateAll(nodes, vals).Some? {
      EvaluateLength(nodes, vals);
    }
  }

  // The runtime's evaluation loop: every node up to the requested one, in
  // table order.
  method Evaluate(nodes: Table, index: nat, vals: seq<int>) returns (result: Option<int>)
    ensures result == ValueAt(nodes, index, vals)
  {
    if index >= |nodes| || |nodes| > MAX_SIZE_EXPRESSIONS { return None; }
    var values: seq<int> := [];
    for i := 0 to index + 1
      invariant |values| == i && EvaluateAll(nodes[..i], vals) == Some(values)
    {
      assert nodes[..i + 1][..i] == nodes[..i];
      var v := EvaluateNode(nodes[i], values, vals);
      if v.None? {
        EvaluationStops(nodes[..index + 1], i + 1, vals);
        assert nodes[..index + 1][..i + 1] == nodes[..i + 1];
        return None;
      }
      values := values + [v.value];
    }
    return Some(values[index]);
  }

  lemma {:induction false} EvaluationStops(nodes: Table, n: nat, vals: seq<int>)
    requires n <= |nodes|
    ensures EvaluateAll(nodes[..n], vals).None? ==> EvaluateAll(nodes, vals).None?
    decreases |nodes| - n
  {
    if n < |nodes| {
      assert nodes[..n + 1][..n] == nodes[..n];
      EvaluationStops(nodes, n + 1, vals);
    } else {
      assert nodes[..n] == nodes;
    }
  }

  // Evaluation, when it succeeds, is exact: checked arithmetic that did not
  // overflow is integer arithmetic.
  lemma {:induction false} EvaluationExact(nodes: Table, vals: seq<int>)
    requires EvaluateAll(nodes, vals).Some?
    ensures Ordered(nodes, |vals|) && |EvaluateAll(nodes, vals).value| == |nodes|
    ensures forall i :: 0 <= i < |nodes| ==> EvaluateAll(nodes, vals).value[i] == Exact(nodes, i, vals)
  {
    if nodes != [] {
      var front, last := nodes[..|nodes| - 1], nodes[|nodes| - 1];
      EvaluationExact(front, vals);
      var before := EvaluateAll(front, vals).value;
      assert NodeOrdered(last, |front|, |vals|);
      forall i | 0 <= i < |front| ensures EvaluateAll(nodes, vals).value[i] == Exact(nodes, i, vals) {
        ExactOfPrefix(front, nodes, i, vals);
      }
    }
  }

  lemma ValueExact(nodes: Table, index: nat, vals: seq<int>)
    requires ValueAt(nodes, index, vals).Some? && Ordered(nodes, |vals|)
    ensures ValueAt(nodes, index, vals).value == Exact(nodes, index, vals)
  {
    var front := nodes[..index + 1];
    EvaluationExact(front, vals);
    ExactOfPrefix(front, nodes, index, vals);
  }

  // The exact results of checked operations are 64-bit.
  predicate Fits64(nodes: Table, i: nat, vals: seq<int>)
    requires i < |nodes| && Ordered(nodes, |vals|)
  {
    nodes[i].AddNode? || nodes[i].SubNode? || nodes[i].MulConstant? ==>
      -0x8000_0000_0000_0000 <= Exact(nodes, i, vals) <= 0x7FFF_FFFF_FFFF_FFFF
  }

  // A well-formed table evaluates exactly when no sum, difference or
  // multiple in it leaves the 64-bit range.
  lemma {:induction false} EvaluatesIff(nodes: Table, vals: seq<int>)
    requires Ordered(nodes, |vals|)
    ensures EvaluateAll(nodes, vals).Some? <==> forall i :: 0 <= i < |nodes| ==> Fits64(nodes, i, vals)
  {
    if nodes != [] {
      var front, last := nodes[..|nodes| - 1], nodes[|nodes| - 1];
      EvaluatesIff(front, vals);
      forall i | 0 <= i < |front| ensures Fits64(front, i, vals) == Fits64(nodes, i, vals) {
        ExactOfPrefix(front, nodes, i, vals);
      }
      if EvaluateAll(front, vals).Some? {
        EvaluationExact(front, vals);
        LastFits(nodes, vals);
      }
    }
  }

  // So a node has a value exactly when it exists, the table is within its
  // limit, and no operation up to it overflows.
  lemma ValueIff(nodes: Table, index: nat, vals: seq<int>)
    requires Ordered(nodes, |vals|)
    ensures ValueAt(nodes, index, vals).Some? <==>
      index < |nodes| <= 512 && forall i :: 0 <= i <= index ==> Fits64(nodes, i, vals)
  {
    hide Exact;
    if index < |nodes| <= 512 {
      var front := nodes[..index + 1];
      EvaluatesIff(front, vals);
      EvaluateLengthIfSome(front, vals);
      forall i | 0 <= i <= index ensures Fits64(front, i, vals) == Fits64(nodes, i, vals) {
        ExactOfPrefix(front, nodes, i, vals);
      }
    }
  }

  lemma LastFits(nodes: Table, vals: seq<int>)
    requires nodes != [] && Ordered(nodes, |vals|) && EvaluateAll(nodes[..|nodes| - 1], vals).Some?
    ensures EvaluateAll(nodes, vals).Some? <==> Fits64(nodes, |nodes| - 1, vals)
  {
    hide Exact;
    var front, last := nodes[..|nodes| - 1], nodes[|nodes| - 1];
    EvaluationExact(front, vals);
    forall i | 0 <= i < |front| ensures Exact(front, i, vals) == Exact(nodes, i, vals) {
      ExactOfPrefix(front, nodes, i, vals);
    }
    assert NodeOrdered(last, |front|, |vals|);
    LastExact(nodes, vals);
  }

  lemma LastExact(nodes: Table, vals: seq<int>)
    requires nodes != [] && Ordered(nodes, |vals|)
    ensures var last := nodes[|nodes| - 1];
      && NodeOrdered(last, |nodes| - 1, |vals|)
      && (last.AddNode? ==> Exact(nodes, |nodes| - 1, vals) == Exact(nodes, last.left, vals) + Exact(nodes, last.right, vals))
      && (last.SubNode? ==> Exact(nodes, |nodes| - 1, vals) == Exact(nodes, last.left, vals) - Exact(nodes, last.right, vals))
      && (last.MulConstant? ==> Exact(nodes, |nodes| - 1, vals) == Exact(nodes, last.left, vals) * last.factor)
  {
  }

  // ------------------------------------------------------------------
  // Building the table
  // ------------------------------------------------------------------

  function AddSize(nodes: Table, node: SizeNode): Status<(Table, nat)> {
    if |nodes| >= MAX_SIZE_EXPRESSIONS then Decline(Limit) else Success((nodes + [node], |nodes|))
  }

  // An immutable int parameter.
  function IntScalar(scalars: seq<Scalar>, name: string): Status<nat> {
    match ScalarIndex(scalars, name)
    case None => Decline(Range)
    case Some(i) => if scalars[i].ty.I32? && !scalars[i].reassigned then Success(i) else Decline(Range)
  }

  // A loop bound: a non-negative constant, an immutable int parameter, or
  // the sum or difference of two bounds.
  function FromHir(nodes: Table, scalars: seq<Scalar>, e: Expr): Status<(Table, nat)>
    decreases e
  {
    if e.NoExpr? then Decline(Range)
    else match FoldConstant(e)
      case Some(c) => if c < 0 || c > INT_MAX then Decline(Range) else AddSize(nodes, Constant(c))
      case None =>
        var x := StripPar(e);
        match TermSymbol(x)
        case Some(s) =>
          var i :- IntScalar(scalars, s);
          AddSize(nodes, ScalarRef(i))
        case None =>
          if !x.Binary? || !(x.kind.Plus? || x.kind.Minus?) then Decline(Range)
          else
            StripParDecreases(e);
            var (n1, l) :- FromHir(nodes, scalars, x.left);
            var (n2, r) :- FromHir(n1, scalars, x.right);
            AddSize(n2, if x.kind.Plus? then AddNode(l, r) else SubNode(l, r))
  }

  function Adjust(nodes: Table, base: nat, adjustment: int): Status<(Table, nat)> {
    if adjustment == 0 then Success((nodes, base))
    else
      var (n1, c) :- AddSize(nodes, Constant(if adjustment < 0 then 0 - adjustment else adjustment));
      AddSize(n1, if adjustment < 0 then SubNode(base, c) else AddNode(base, c))
  }

  function ApplyAffine(nodes: Table, scalars: seq<Scalar>, base: nat, affine: Affine): Status<(Table, nat)> {
    if !affine.kind.CounterOffset? then Decline(Range)
    else match affine.symbol
      case None => Adjust(nodes, base, affine.offset)
      case Some(s) =>
        var i :- IntScalar(scalars, s);
        var (n1, inv) :- AddSize(nodes, ScalarRef(i));
        var (n2, at) :- AddSize(n1, if affine.sign < 0 then SubNode(base, inv) else AddNode(base, inv));
        Adjust(n2, at, affine.offset)
  }

  // ------------------------------------------------------------------
  // What the built nodes mean
  // ------------------------------------------------------------------

  // after extends before and node at of it has value v.
  ghost predicate Built(before: Table, after: Table, at: nat, v: int, vals: seq<int>) {
    && before <= after && |after| <= MAX_SIZE_EXPRESSIONS && Ordered(after, |vals|)
    && at < |after| && Exact(after, at, vals) == v
  }

  ghost predicate Sized(nodes: Table, vals: seq<int>) {
    |nodes| <= MAX_SIZE_EXPRESSIONS && Ordered(nodes, |vals|)
  }

  function NodeValue(nodes: Table, node: SizeNode, vals: seq<int>): int
    requires Ordered(nodes, |vals|) && NodeOrdered(node, |nodes|, |vals|)
  {
    match node
    case Constant(v) => v
    case ScalarRef(r) => vals[r]
    case MulConstant(l, _) => Combine(node, Exact(nodes, l, vals), 0)
    case MaxZero(l) => Combine(node, Exact(nodes, l, vals), 0)
    case _ => Combine(node, Exact(nodes, node.left, vals), Exact(nodes, node.right, vals))
  }

  lemma AddBuilds(nodes: Table, node: SizeNode, vals: seq<int>)
    requires Sized(nodes, vals) && NodeOrdered(node, |nodes|, |vals|) && AddSize(nodes, node).Success?
    ensures var (after, at) := AddSize(nodes, node).value;
      && Built(nodes, after, at, NodeValue(nodes, node, vals), vals)
      && forall i :: 0 <= i < |nodes| ==> Exact(after, i, vals) == Exact(nodes, i, vals)
  {
    var after := AddSize(nodes, node).value.0;
    forall i | 0 <= i < |nodes| ensures Exact(after, i, vals) == Exact(nodes, i, vals) {
      ExactOfPrefix(nodes, after, i, vals);
    }
  }

  // The exact integer a bound stands for.
  function BoundExact(e: Expr, scalars: seq<Scalar>, vals: seq<int>): int
    decreases e
  {
    match FoldConstant(e)
    case Some(c) => c
    case None =>
      var x := StripPar(e);
      match TermSymbol(x)
      case Some(s) =>
        if ScalarIndex(scalars, s).Some? && ScalarIndex(scalars, s).value < |vals|
        then vals[ScalarIndex(scalars, s).value] else 0
      case None =>
        if !x.Binary? then 0
        else
          StripParDecreases(e);
          var (a, b) := (BoundExact(x.left, scalars, vals), BoundExact(x.right, scalars, vals));
          if x.kind.Plus? then a + b else a - b
  }

  lemma {:induction false} FromHirBuilds(nodes: Table, scalars: seq<Scalar>, e: Expr, vals: seq<int>)
    requires Sized(nodes, vals) && |vals| == |scalars| && FromHir(nodes, scalars, e).Success?
    ensures Built(nodes, FromHir(nodes, scalars, e).value.0, FromHir(nodes, scalars, e).value.1, BoundExact(e, scalars, vals), vals)
    decreases e
  {
    hide Exact, Ordered, FoldConstant;
    match FoldConstant(e)
    case Some(c) => AddBuilds(nodes, Constant(c), vals);
    case None =>
      var x := StripPar(e);
      match TermSymbol(x)
      case Some(s) => AddBuilds(nodes, ScalarRef(ScalarIndex(scalars, s).value), vals);
      case None =>
        StripParDecreases(e);
        FromHirBuilds(nodes, scalars, x.left, vals);
        var (n1, l) := FromHir(nodes, scalars, x.left).value;
        FromHirBuilds(n1, scalars, x.right, vals);
        var (n2, r) := FromHir(n1, scalars, x.right).value;
        ExactOfPrefix(n1, n2, l, vals);
        AddBuilds(n2, if x.kind.Plus? then AddNode(l, r) else SubNode(l, r), vals);
  }

  lemma AdjustBuilds(nodes: Table, base: nat, adjustment: int, vals: seq<int>)
    requires Sized(nodes, vals) && base < |nodes| && Adjust(nodes, base, adjustment).Success?
    ensures Built(nodes, Adjust(nodes, base, adjustment).value.0, Adjust(nodes, base, adjustment).value.1,
                  Exact(nodes, base, vals) + adjustment, vals)
  {
    hide Exact, Ordered;
    if adjustment != 0 {
      var c := Constant(if adjustment < 0 then 0 - adjustment else adjustment);
      AddBuilds(nodes, c, vals);
      var (n1, at) := AddSize(nodes, c).value;
      AddBuilds(n1, if adjustment < 0 then SubNode(base, at) else AddNode(base, at), vals);
    }
  }

  // base +/- invariant + offset, in exact integers.
  function AffineExact(affine: Affine, base: int, scalars: seq<Scalar>, vals: seq<int>): int {
    var inv :=
      if affine.symbol.Some? && ScalarIndex(scalars, affine.symbol.value).Some?
         && ScalarIndex(scalars, affine.symbol.value).value < |vals|
      then vals[ScalarIndex(scalars, affine.symbol.value).value] else 0;
    base + (if affine.sign < 0 then 0 - inv else inv) + affine.offset
  }

  lemma AffineBuilds(nodes: Table, scalars: seq<Scalar>, base: nat, affine: Affine, vals: seq<int>)
    requires Sized(nodes, vals) && |vals| == |scalars| && base < |nodes|
    requires ApplyAffine(nodes, scalars, base, affine).Success?
    ensures Built(nodes, ApplyAffine(nodes, scalars, base, affine).value.0, ApplyAffine(nodes, scalars, base, affine).value.1,
                  AffineExact(affine, Exact(nodes, base, vals), scalars, vals), vals)
  {
    hide Exact, Ordered, Adjust;
    match affine.symbol
    case None => AdjustBuilds(nodes, base, affine.offset, vals);
    case Some(s) =>
      var i := ScalarIndex(scalars, s).value;
      AddBuilds(nodes, ScalarRef(i), vals);
      var (n1, inv) := AddSize(nodes, ScalarRef(i)).value;
      var node := if affine.sign < 0 then SubNode(base, inv) else AddNode(base, inv);
      AddBuilds(n1, node, vals);
      var (n2, at) := AddSize(n1, node).value;
      AdjustBuilds(n2, at, affine.offset, vals);
  }
}
