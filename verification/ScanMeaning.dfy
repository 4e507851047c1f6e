// What the marks of a completed scan mean: each is set exactly when some
// reachable block uses its name in the way the mark says.

module ScanMeaning {
  import opened Hir
  import opened Lowering
  import opened Words
  import opened EffectScan

  // ------------------------------------------------------------------
  // Positions in an expression
  // ------------------------------------------------------------------

  // An expression and the context it stands in.
  datatype Part = Part(e: Expr, u: Use)

  function PartsOf(es: seq<Expr>, u: Use): seq<Part> { seq(|es|, (i: nat) requires i < |es| => Part(es[i], u)) }

  // The immediate parts the scan enters.  A bare name as a base is only
  // matched against the buffers.
  function Parts(e: Expr, u: Use): (r: seq<Part>)
    ensures forall i :: 0 <= i < |r| ==> r[i].e < e && !r[i].u.write && r[i].u.gpu == u.gpu
  {
    match e
    case Subscript(base, index) =>
      (if TermSymbol(base).Some? then [] else [Part(base, Reading(u))]) + [Part(index, Indexing(u))]
    case PackedLoad(_, offset) => [Part(offset, Indexing(u))]
    case PackedStore(_, offset) => [Part(offset, Indexing(u))]
    case Binary(_, l, r) => [Part(l, Reading(u)), Part(r, Reading(u))]
    case Unary(_, x) => [Part(x, Reading(u))]
    case Dot(x) => [Part(x, Reading(u))]
    case Call(f, args) => [Part(f, Indexing(u))] + PartsOf(args, Argument(u))
    case ThisCall(f, args) => [Part(f, Indexing(u))] + PartsOf(args, Argument(u))
    case ArrayLiteral(xs) => PartsOf(xs, Stored(u))
    case DictLiteral(xs) => PartsOf(xs, Stored(u))
    case New(x) => [Part(x, Stored(u))]
    case Capture(_, x) => [Part(x, Reading(u))]
    case Select(c, x, y) => [Part(c, Reading(u)), Part(x, Reading(u)), Part(y, Reading(u))]
    case MaskStore(_, offset, mask) => [Part(offset, Indexing(u)), Part(mask, Indexing(u))]
    case Gather(_, index) => [Part(index, Indexing(u))]
    case _ => []
  }

  // p stands somewhere in the expression.
  ghost predicate Occurs(e: Expr, u: Use, p: Part)
    decreases e
  {
    p == Part(e, u) || exists i :: 0 <= i < |Parts(e, u)| && Occurs(Parts(e, u)[i].e, Parts(e, u)[i].u, p)
  }

  // ------------------------------------------------------------------
  // Ways of using a name
  // ------------------------------------------------------------------

  predicate Reads(p: Part, name: string) {
    match p.e
    case Subscript(base, _) => TermSymbol(base) == Some(name) && !p.u.write
    case PackedLoad(base, _) => TermSymbol(base) == Some(name)
    case Gather(base, _) => TermSymbol(base) == Some(name)
    case _ => false
  }

  predicate Writes(p: Part, name: string) {
    match p.e
    case Subscript(base, _) => TermSymbol(base) == Some(name) && p.u.write
    case PackedStore(base, _) => TermSymbol(base) == Some(name)
    case MaskStore(base, _, _) => TermSymbol(base) == Some(name)
    case _ => false
  }

  predicate Names(p: Part, name: string) { TermSymbol(p.e) == Some(name) && !p.u.write }

  predicate Assigns(p: Part, name: string) { TermSymbol(p.e) == Some(name) && p.u.write }

  predicate IsCapture(e: Expr, name: string) { e.Capture? && e.symbol == name }

  // The use a mark records.
  predicate Records(t: Tables, m: Mark, p: Part) {
    match m
    case ReassignedScalar(n) => n in t.scalars && (Assigns(p, n) || IsCapture(p.e, n))
    case ReassignedBuffer(n) => n in t.buffers && Assigns(p, n)
    case Escaped(n) => n in t.buffers && Names(p, n)
    case UnknownCall(n) => n in t.buffers && Names(p, n) && p.u.callArgument
    case Returned(n) => n in t.buffers && Names(p, n) && p.u.returned
    case GpuRead(n) => n in t.buffers && Reads(p, n) && p.u.gpu
    case GpuWrite(n) => n in t.buffers && Writes(p, n) && p.u.gpu
    case CpuRead(n) => n in t.buffers && Reads(p, n) && !p.u.gpu
    case CpuWrite(n) => n in t.buffers && Writes(p, n) && !p.u.gpu
  }

  // ------------------------------------------------------------------
  // Expressions
  // ------------------------------------------------------------------

  predicate SomeMarks(t: Tables, parts: seq<Part>, m: Mark) {
    exists i :: 0 <= i < |parts| && m in ExprMarks(t, parts[i].e, parts[i].u)
  }

  lemma SomeOf(t: Tables, a: Part, b: Part, c: Part, m: Mark)
    ensures !SomeMarks(t, [], m)
    ensures SomeMarks(t, [a], m) <==> m in ExprMarks(t, a.e, a.u)
    ensures SomeMarks(t, [a, b], m) <==> m in ExprMarks(t, a.e, a.u) || m in ExprMarks(t, b.e, b.u)
    ensures SomeMarks(t, [a, b, c], m) <==>
      m in ExprMarks(t, a.e, a.u) || m in ExprMarks(t, b.e, b.u) || m in ExprMarks(t, c.e, c.u)
  {
    hide ExprMarks;
    assert [a][0] == a && [a, b][0] == a && [a, b][1] == b;
    assert [a, b, c][0] == a && [a, b, c][1] == b && [a, b, c][2] == c;
  }

  lemma SomeOfBoth(t: Tables, a: seq<Part>, b: seq<Part>, m: Mark)
    ensures SomeMarks(t, a + b, m) <==> SomeMarks(t, a, m) || SomeMarks(t, b, m)
  {
    hide ExprMarks;
    if i :| 0 <= i < |a| && m in ExprMarks(t, a[i].e, a[i].u) { assert (a + b)[i] == a[i]; }
    if i :| 0 <= i < |b| && m in ExprMarks(t, b[i].e, b[i].u) { assert (a + b)[|a| + i] == b[i]; }
    if i :| 0 <= i < |a + b| && m in ExprMarks(t, (a + b)[i].e, (a + b)[i].u) {
      assert (a + b)[i] == if i < |a| then a[i] else b[i - |a|];
    }
  }

  lemma {:induction false} SomeOfList(t: Tables, es: seq<Expr>, u: Use, m: Mark)
    ensures m in ListMarks(t, es, u) <==> SomeMarks(t, PartsOf(es, u), m)
    decreases es
  {
    hide ExprMarks, SomeMarks;
    if es == [] {
      SomeOf(t, Part(NoExpr, u), Part(NoExpr, u), Part(NoExpr, u), m);
      assert PartsOf(es, u) == [];
    } else {
      SomeOfList(t, es[1..], u, m);
      SomeOf(t, Part(es[0], u), Part(es[0], u), Part(es[0], u), m);
      SomeOfBoth(t, [Part(es[0], u)], PartsOf(es[1..], u), m);
      assert PartsOf(es, u) == [Part(es[0], u)] + PartsOf(es[1..], u);
    }
  }

  lemma CallParts(t: Tables, f: Part, args: seq<Expr>, u: Use, m: Mark)
    ensures SomeMarks(t, [f] + PartsOf(args, u), m) <==> m in ExprMarks(t, f.e, f.u) || m in ListMarks(t, args, u)
  {
    hide ExprMarks, ListMarks, SomeMarks;
    SomeOf(t, f, f, f, m);
    SomeOfList(t, args, u, m);
    SomeOfBoth(t, [f], PartsOf(args, u), m);
  }

  lemma SubscriptMarks(t: Tables, e: Expr, u: Use, m: Mark)
    requires e.Subscript?
    ensures m in ExprMarks(t, e, u) <==> Records(t, m, Part(e, u)) || SomeMarks(t, Parts(e, u), m)
  {
    hide SomeMarks;
    var (base, index) := (Part(e.base, Reading(u)), Part(e.index, Indexing(u)));
    SomeOf(t, index, index, index, m);
    if TermSymbol(e.base).None? {
      SomeOf(t, base, index, index, m);
      assert Parts(e, u) == [base, index];
    } else {
      assert Parts(e, u) == [index];
    }
  }

  lemma PackedMarks(t: Tables, e: Expr, u: Use, m: Mark)
    requires e.PackedLoad? || e.PackedStore? || e.MaskStore? || e.Gather?
    ensures m in ExprMarks(t, e, u) <==> Records(t, m, Part(e, u)) || SomeMarks(t, Parts(e, u), m)
  {
    hide SomeMarks;
    var p := Parts(e, u);
    SomeOf(t, p[0], p[0], p[0], m);
    if e.MaskStore? { SomeOf(t, p[0], p[1], p[1], m); }
  }

  lemma CallMarks(t: Tables, e: Expr, u: Use, m: Mark)
    requires e.Call? || e.ThisCall? || e.ArrayLiteral? || e.DictLiteral? || e.New?
    ensures m in ExprMarks(t, e, u) <==> SomeMarks(t, Parts(e, u), m)
  {
    hide SomeMarks;
    match e
    case Call(f, args) => CallParts(t, Part(f, Indexing(u)), args, Argument(u), m);
    case ThisCall(f, args) => CallParts(t, Part(f, Indexing(u)), args, Argument(u), m);
    case ArrayLiteral(xs) => SomeOfList(t, xs, Stored(u), m);
    case DictLiteral(xs) => SomeOfList(t, xs, Stored(u), m);
    case New(x) => SomeOf(t, Part(x, Stored(u)), Part(x, Stored(u)), Part(x, Stored(u)), m);
  }

  lemma OperatorMarks(t: Tables, e: Expr, u: Use, m: Mark)
    requires e.Binary? || e.Unary? || e.Dot? || e.Capture? || e.Select?
    ensures m in ExprMarks(t, e, u) <==> Records(t, m, Part(e, u)) || SomeMarks(t, Parts(e, u), m)
  {
    hide SomeMarks;
    var p := Parts(e, u);
    SomeOf(t, p[0], p[0], p[0], m);
    if e.Binary? { SomeOf(t, p[0], p[1], p[1], m); }
    if e.Select? { SomeOf(t, p[0], p[1], p[2], m); }
  }

  lemma NameMarked(t: Tables, e: Expr, u: Use, m: Mark)
    requires e.TermExpr? || e.NoExpr? || e.MalformedExpr?
    ensures m in ExprMarks(t, e, u) <==> Records(t, m, Part(e, u))
  {
  }

  // One level: an expression marks what it does itself and what its parts
  // mark.
  lemma MarksUnfold(t: Tables, e: Expr, u: Use, m: Mark)
    ensures m in ExprMarks(t, e, u) <==> Records(t, m, Part(e, u)) || SomeMarks(t, Parts(e, u), m)
  {
    hide ExprMarks, SomeMarks;
    match e
    case Subscript(_, _) => SubscriptMarks(t, e, u, m);
    case PackedLoad(_, _) | PackedStore(_, _) | MaskStore(_, _, _) | Gather(_, _) => PackedMarks(t, e, u, m);
    case Call(_, _) | ThisCall(_, _) | ArrayLiteral(_) | DictLiteral(_) | New(_) => CallMarks(t, e, u, m);
    case TermExpr(_) | NoExpr | MalformedExpr =>
      NameMarked(t, e, u, m);
      SomeOf(t, Part(e, u), Part(e, u), Part(e, u), m);
    case _ => OperatorMarks(t, e, u, m);
  }

  // An expression sets a mark exactly when somewhere in it a name is used as
  // the mark records.
  lemma {:induction false} MarksOccur(t: Tables, e: Expr, u: Use, m: Mark)
    ensures m in ExprMarks(t, e, u) <==> exists p :: Occurs(e, u, p) && Records(t, m, p)
    decreases e
  {
    hide ExprMarks, Records, Parts;
    MarksUnfold(t, e, u, m);
    var parts := Parts(e, u);
    forall i | 0 <= i < |parts|
      ensures m in ExprMarks(t, parts[i].e, parts[i].u) <==> exists p :: Occurs(parts[i].e, parts[i].u, p) && Records(t, m, p)
    {
      MarksOccur(t, parts[i].e, parts[i].u, m);
    }
    assert Occurs(e, u, Part(e, u));
    if p :| Occurs(e, u, p) && Records(t, m, p) {
      if p != Part(e, u) {
        var i :| 0 <= i < |parts| && Occurs(parts[i].e, parts[i].u, p);
      }
    }
  }

  lemma {:induction false} ListScanned(t: Tables, es: seq<Expr>)
    ensures ListScannable(t, es) <==> forall i :: 0 <= i < |es| ==> Scannable(t, es[i])
    decreases es
  {
    hide Scannable;
    if es != [] {
      ListScanned(t, es[1..]);
      assert forall i :: 0 < i < |es| ==> es[i] == es[1..][i - 1];
    }
  }

  predicate AllScan(t: Tables, parts: seq<Part>) { forall i :: 0 <= i < |parts| ==> Scannable(t, parts[i].e) }

  lemma ListParts(t: Tables, es: seq<Expr>, u: Use)
    ensures AllScan(t, PartsOf(es, u)) <==> ListScannable(t, es)
  {
    hide Scannable, ListScannable;
    ListScanned(t, es);
    var parts := PartsOf(es, u);
    assert forall i :: 0 <= i < |es| ==> parts[i].e == es[i];
  }

  lemma ConsParts(t: Tables, f: Part, parts: seq<Part>)
    ensures AllScan(t, [f] + parts) <==> Scannable(t, f.e) && AllScan(t, parts)
  {
    hide Scannable;
    var all := [f] + parts;
    assert all[0] == f && forall i :: 0 <= i < |parts| ==> all[i + 1] == parts[i];
  }

  lemma CallScanned(t: Tables, e: Expr, u: Use)
    requires e.Call? || e.ThisCall? || e.ArrayLiteral? || e.DictLiteral?
    ensures Scannable(t, e) <==> AllScan(t, Parts(e, u))
  {
    hide AllScan;
    match e
    case Call(f, args) =>
      ListParts(t, args, Argument(u));
      ConsParts(t, Part(f, Indexing(u)), PartsOf(args, Argument(u)));
    case ThisCall(f, args) =>
      ListParts(t, args, Argument(u));
      ConsParts(t, Part(f, Indexing(u)), PartsOf(args, Argument(u)));
    case ArrayLiteral(xs) => ListParts(t, xs, Stored(u));
    case DictLiteral(xs) => ListParts(t, xs, Stored(u));
  }

  lemma ScansUnfold(t: Tables, e: Expr, u: Use)
    ensures Scannable(t, e) <==> e != MalformedExpr && AllScan(t, Parts(e, u))
  {
    if e.Call? || e.ThisCall? || e.ArrayLiteral? || e.DictLiteral? {
      CallScanned(t, e, u);
    } else {
      hide AllScan;
      var p := Parts(e, u);
      var last := Part(e, u);
      if |p| == 0 {
        AllOf(t, last, last, last);
      } else {
        AllOf(t, p[0], if |p| > 1 then p[1] else last, if |p| > 2 then p[2] else last);
      }
    }
  }

  lemma AllOf(t: Tables, a: Part, b: Part, c: Part)
    ensures AllScan(t, [])
    ensures AllScan(t, [a]) <==> Scannable(t, a.e)
    ensures AllScan(t, [a, b]) <==> Scannable(t, a.e) && Scannable(t, b.e)
    ensures AllScan(t, [a, b, c]) <==> Scannable(t, a.e) && Scannable(t, b.e) && Scannable(t, c.e)
  {
    hide Scannable;
    assert [a][0] == a && [a, b][0] == a && [a, b][1] == b;
    assert [a, b, c][0] == a && [a, b, c][1] == b && [a, b, c][2] == c;
  }

  // The scan of an expression fails exactly when a malformed expression
  // stands somewhere in it.
  lemma {:induction false} MalformedOccurs(t: Tables, e: Expr, u: Use)
    ensures Scannable(t, e) <==> forall p :: Occurs(e, u, p) ==> p.e != MalformedExpr
    decreases e
  {
    hide Parts, Scannable;
    ScansUnfold(t, e, u);
    var parts := Parts(e, u);
    forall i | 0 <= i < |parts|
      ensures Scannable(t, parts[i].e) <==> forall p :: Occurs(parts[i].e, parts[i].u, p) ==> p.e != MalformedExpr
    {
      MalformedOccurs(t, parts[i].e, parts[i].u);
    }
    assert Occurs(e, u, Part(e, u));
    if Scannable(t, e) {
      forall p | Occurs(e, u, p) ensures p.e != MalformedExpr {
        if p != Part(e, u) {
          var i :| 0 <= i < |parts| && Occurs(parts[i].e, parts[i].u, p);
          assert Scannable(t, parts[i].e);
        }
      }
    } else if e != MalformedExpr {
      var i :| 0 <= i < |parts| && !Scannable(t, parts[i].e);
      var p :| Occurs(parts[i].e, parts[i].u, p) && p.e == MalformedExpr;
      assert Occurs(e, u, p);
    }
  }

  // Only the whole expression can stand in a write position, and every part
  // is on the expression's side of the selected loops.
  lemma {:induction false} OccursOnce(e: Expr, u: Use, p: Part)
    requires Occurs(e, u, p)
    ensures p.u.write ==> p == Part(e, u)
    ensures p.u.gpu == u.gpu
    decreases e
  {
    if p != Part(e, u) {
      var i :| 0 <= i < |Parts(e, u)| && Occurs(Parts(e, u)[i].e, Parts(e, u)[i].u, p);
      OccursOnce(Parts(e, u)[i].e, Parts(e, u)[i].u, p);
    }
  }

  function Moved(u: Use, gpu: bool): Use { u.(gpu := gpu) }

  lemma PartsMoved(e: Expr, u: Use, gpu: bool)
    ensures |Parts(e, Moved(u, gpu))| == |Parts(e, u)|
    ensures forall i :: 0 <= i < |Parts(e, u)| ==>
      Parts(e, Moved(u, gpu))[i] == Part(Parts(e, u)[i].e, Moved(Parts(e, u)[i].u, gpu))
  {
  }

  // The same positions exist on either side.
  lemma {:induction false} OccursMoved(e: Expr, u: Use, p: Part, gpu: bool)
    requires Occurs(e, u, p)
    ensures Occurs(e, Moved(u, gpu), Part(p.e, Moved(p.u, gpu)))
    decreases e
  {
    hide Parts;
    if p != Part(e, u) {
      var i :| 0 <= i < |Parts(e, u)| && Occurs(Parts(e, u)[i].e, Parts(e, u)[i].u, p);
      OccursMoved(Parts(e, u)[i].e, Parts(e, u)[i].u, p, gpu);
      PartsMoved(e, u, gpu);
      assert Occurs(Parts(e, Moved(u, gpu))[i].e, Parts(e, Moved(u, gpu))[i].u, Part(p.e, Moved(p.u, gpu)));
    }
  }

  // ------------------------------------------------------------------
  // Blocks
  // ------------------------------------------------------------------

  function StmtParts(s: ScanStmt, gpu: bool): set<Part> {
    {Part(s.rhs, Use(false, false, TermSymbol(s.lhs) == Some("$return"), gpu))} +
    (if s.declares then {} else {Part(s.lhs, Use(true, false, false, gpu))})
  }

  // The block owns the expression, in the context the scan starts it in.
  ghost predicate Owns(b: Block, gpu: bool, q: Part) {
    match b.shape
    case BasicShape(stmts) => exists s :: s in stmts && q in StmtParts(s, gpu)
    case IfShape(arms) => exists arm :: arm in arms && q == Part(arm.cond, Moved(PLAIN, gpu))
    case ForShape(start, stop, collection, _) =>
      q == Part(start, Moved(PLAIN, gpu)) || q == Part(stop, Moved(PLAIN, gpu)) || q == Part(collection, Moved(PLAIN, gpu))
    case WhileShape(cond, _) => q == Part(cond, Moved(PLAIN, gpu))
    case MalformedShape => false
  }

  ghost predicate OwnMarks(t: Tables, b: Block, gpu: bool, m: Mark) {
    exists q :: Owns(b, gpu, q) && m in ExprMarks(t, q.e, q.u)
  }

  // A block is refused exactly when its shape is malformed or a malformed
  // expression stands in one it owns.
  lemma MalformedBlock(t: Tables, b: Block, gpu: bool)
    ensures BlockScannable(t, b) <==>
      b.shape != MalformedShape && forall q, p :: Owns(b, gpu, q) && Occurs(q.e, q.u, p) ==> p.e != MalformedExpr
  {
    hide Scannable, Occurs;
    forall q | Owns(b, gpu, q) ensures Scannable(t, q.e) <==> forall p :: Occurs(q.e, q.u, p) ==> p.e != MalformedExpr {
      MalformedOccurs(t, q.e, q.u);
    }
    BlockOwns(t, b, gpu);
  }

  lemma BlockOwns(t: Tables, b: Block, gpu: bool)
    ensures BlockScannable(t, b) <==> b.shape != MalformedShape && forall q :: Owns(b, gpu, q) ==> Scannable(t, q.e)
  {
    hide Scannable;
    match b.shape
    case BasicShape(stmts) =>
      forall s | s in stmts ensures StmtScannable(t, s) <==> forall q :: q in StmtParts(s, gpu) ==> Scannable(t, q.e) {
        var (rhs, lhs) := (Part(s.rhs, Use(false, false, TermSymbol(s.lhs) == Some("$return"), gpu)), Part(s.lhs, Use(true, false, false, gpu)));
        assert rhs in StmtParts(s, gpu) && (!s.declares ==> lhs in StmtParts(s, gpu));
      }
      if forall q :: Owns(b, gpu, q) ==> Scannable(t, q.e) {
        forall s | s in stmts ensures StmtScannable(t, s) {
          forall q | q in StmtParts(s, gpu) ensures Scannable(t, q.e) {
            assert Owns(b, gpu, q);
          }
        }
      }
    case IfShape(arms) =>
      if forall q :: Owns(b, gpu, q) ==> Scannable(t, q.e) {
        forall arm | arm in arms ensures Scannable(t, arm.cond) {
          assert Owns(b, gpu, Part(arm.cond, Moved(PLAIN, gpu)));
        }
      }
    case ForShape(start, stop, collection, _) =>
      assert forall x :: x in {start, stop, collection} ==> Owns(b, gpu, Part(x, Moved(PLAIN, gpu)));
      if forall q :: Owns(b, gpu, q) ==> Scannable(t, q.e) {
        forall x | x in {start, stop, collection} ensures Scannable(t, x) {
          assert Owns(b, gpu, Part(x, Moved(PLAIN, gpu)));
        }
      }
    case WhileShape(cond, _) =>
      if forall q :: Owns(b, gpu, q) ==> Scannable(t, q.e) {
        assert Owns(b, gpu, Part(cond, Moved(PLAIN, gpu)));
      }
    case MalformedShape =>
  }

  lemma StmtMarked(t: Tables, s: ScanStmt, gpu: bool, m: Mark)
    ensures m in StmtMarks(t, s, gpu) <==> exists q :: q in StmtParts(s, gpu) && m in ExprMarks(t, q.e, q.u)
  {
    hide ExprMarks;
    var (rhs, lhs) := (Part(s.rhs, Use(false, false, TermSymbol(s.lhs) == Some("$return"), gpu)), Part(s.lhs, Use(true, false, false, gpu)));
    assert rhs in StmtParts(s, gpu) && (!s.declares ==> lhs in StmtParts(s, gpu));
  }

  lemma {:induction false} StmtsMarked(t: Tables, stmts: seq<ScanStmt>, gpu: bool, m: Mark)
    ensures m in StmtsMarks(t, stmts, gpu) <==> exists s :: s in stmts && m in StmtMarks(t, s, gpu)
  {
    hide StmtMarks;
    if stmts != [] {
      var (front, last) := (stmts[..|stmts| - 1], stmts[|stmts| - 1]);
      StmtsMarked(t, front, gpu, m);
      assert forall s :: s in stmts <==> s in front || s == last;
    }
  }

  lemma {:induction false} ArmsMarked(t: Tables, arms: seq<Arm>, gpu: bool, m: Mark)
    ensures m in ArmsMarks(t, arms, gpu) <==> exists arm :: arm in arms && m in ExprMarks(t, arm.cond, Moved(PLAIN, gpu))
  {
    hide ExprMarks;
    if arms != [] {
      var (front, last) := (arms[..|arms| - 1], arms[|arms| - 1]);
      ArmsMarked(t, front, gpu, m);
      assert forall arm :: arm in arms <==> arm in front || arm == last;
    }
  }

  lemma BasicMarked(t: Tables, stmts: seq<ScanStmt>, b: Block, gpu: bool, m: Mark)
    requires b.shape == BasicShape(stmts)
    ensures m in BlockMarks(t, b, gpu) <==> OwnMarks(t, b, gpu, m)
  {
    hide ExprMarks, StmtMarks, StmtParts, StmtsMarks;
    StmtsMarked(t, stmts, gpu, m);
    forall s | s in stmts
      ensures m in StmtMarks(t, s, gpu) <==> exists q :: q in StmtParts(s, gpu) && m in ExprMarks(t, q.e, q.u)
    {
      StmtMarked(t, s, gpu, m);
    }
    if s :| s in stmts && m in StmtMarks(t, s, gpu) {
      var q :| q in StmtParts(s, gpu) && m in ExprMarks(t, q.e, q.u);
      assert Owns(b, gpu, q);
    }
  }

  lemma IfMarked(t: Tables, arms: seq<Arm>, b: Block, gpu: bool, m: Mark)
    requires b.shape == IfShape(arms)
    ensures m in BlockMarks(t, b, gpu) <==> OwnMarks(t, b, gpu, m)
  {
    hide ExprMarks, ArmsMarks;
    ArmsMarked(t, arms, gpu, m);
    if arm :| arm in arms && m in ExprMarks(t, arm.cond, Moved(PLAIN, gpu)) {
      assert Owns(b, gpu, Part(arm.cond, Moved(PLAIN, gpu)));
    }
  }

  lemma BlockMarked(t: Tables, b: Block, gpu: bool, m: Mark)
    ensures m in BlockMarks(t, b, gpu) <==> OwnMarks(t, b, gpu, m)
  {
    hide ExprMarks;
    match b.shape
    case BasicShape(stmts) => BasicMarked(t, stmts, b, gpu, m);
    case IfShape(arms) => IfMarked(t, arms, b, gpu, m);
    case ForShape(start, stop, collection, _) =>
      assert Owns(b, gpu, Part(start, Moved(PLAIN, gpu))) && Owns(b, gpu, Part(stop, Moved(PLAIN, gpu)));
      assert Owns(b, gpu, Part(collection, Moved(PLAIN, gpu)));
    case WhileShape(cond, _) => assert Owns(b, gpu, Part(cond, Moved(PLAIN, gpu)));
    case MalformedShape =>
  }

  // p stands in an expression of the block.
  ghost predicate Stands(b: Block, p: Part) {
    exists q :: Owns(b, p.u.gpu, q) && Occurs(q.e, q.u, p)
  }

  lemma OwnsSide(b: Block, gpu: bool, q: Part)
    requires Owns(b, gpu, q)
    ensures q.u.gpu == gpu && forall other :: Owns(b, other, Part(q.e, Moved(q.u, other)))
  {
    forall other ensures Owns(b, other, Part(q.e, Moved(q.u, other))) {
      match b.shape
      case BasicShape(stmts) =>
        var s :| s in stmts && q in StmtParts(s, gpu);
        assert Part(q.e, Moved(q.u, other)) in StmtParts(s, other);
      case _ =>
    }
  }

  lemma BlockStands(t: Tables, b: Block, gpu: bool, m: Mark)
    ensures m in BlockMarks(t, b, gpu) <==> exists p :: Stands(b, p) && p.u.gpu == gpu && Records(t, m, p)
  {
    hide BlockMarks, Owns, Occurs, Records, ExprMarks;
    BlockMarked(t, b, gpu, m);
    if m in BlockMarks(t, b, gpu) {
      var q :| Owns(b, gpu, q) && m in ExprMarks(t, q.e, q.u);
      MarksOccur(t, q.e, q.u, m);
      var p :| Occurs(q.e, q.u, p) && Records(t, m, p);
      OwnsSide(b, gpu, q);
      OccursOnce(q.e, q.u, p);
      assert Stands(b, p);
    }
    if p :| Stands(b, p) && p.u.gpu == gpu && Records(t, m, p) {
      var q :| Owns(b, p.u.gpu, q) && Occurs(q.e, q.u, p);
      MarksOccur(t, q.e, q.u, m);
    }
  }

  lemma StandsMoved(b: Block, p: Part, gpu: bool)
    requires Stands(b, p)
    ensures Stands(b, Part(p.e, Moved(p.u, gpu)))
  {
    hide Owns, Occurs;
    var q :| Owns(b, p.u.gpu, q) && Occurs(q.e, q.u, p);
    OwnsSide(b, p.u.gpu, q);
    OccursMoved(q.e, q.u, p, gpu);
    assert Owns(b, gpu, Part(q.e, Moved(q.u, gpu)));
  }

  // ------------------------------------------------------------------
  // The whole function
  // ------------------------------------------------------------------

  // Marks about accesses say on which side of the selected loops they are.
  predicate Sided(m: Mark) { m.GpuRead? || m.GpuWrite? || m.CpuRead? || m.CpuWrite? }

  // Some reachable block uses a name as the mark records.
  ghost predicate Used(g: Graph, t: Tables, stop: Option<Id>, inner: Option<Id>, m: Mark) {
    exists v, p :: ReachedBlock(g, t, stop, inner, v) && Stands(g[v.id], p) && Records(t, m, p)
  }

  lemma MarkUsed(g: Graph, t: Tables, stop: Option<Id>, inner: Option<Id>, r: Record, m: Mark) returns (v: Visit, p: Part)
    requires Completed(g, t, stop, inner, r) && m in r.marks
    ensures ReachedBlock(g, t, stop, inner, v) && Stands(g[v.id], p) && p.u.gpu == v.gpu && Records(t, m, p)
  {
    hide Completed, FromSome, BlockMarks, Stands, Records;
    v := MarkSource(g, t, stop, inner, r, m);
    BlockStands(t, g[v.id], v.gpu, m);
    p :| Stands(g[v.id], p) && p.u.gpu == v.gpu && Records(t, m, p);
  }

  // Whatever stands in a reachable block is marked, on the side the block was
  // scanned on.
  lemma UseMarked(g: Graph, t: Tables, stop: Option<Id>, inner: Option<Id>, r: Record, m: Mark, v: Visit, p: Part)
    requires Completed(g, t, stop, inner, r) && ReachedBlock(g, t, stop, inner, v) && Stands(g[v.id], p)
    requires v.id in r.flags ==> Records(t, m, Part(p.e, Moved(p.u, r.flags[v.id])))
    ensures m in r.marks
  {
    hide Completed, FromSome, BlockMarks, BlockScannable, Targets, Stands, Records;
    ReachedIsFinished(g, t, stop, inner, r, v);
    StandsMoved(g[v.id], p, r.flags[v.id]);
    BlockStands(t, g[v.id], r.flags[v.id], m);
  }

  // After a completed scan, for every kind of mark but the accesses: a name
  // is marked exactly when some reachable block uses it as the mark says.
  lemma ScanExact(g: Graph, t: Tables, stop: Option<Id>, inner: Option<Id>, r: Record, m: Mark)
    requires Completed(g, t, stop, inner, r) && !Sided(m)
    ensures m in r.marks <==> Used(g, t, stop, inner, m)
  {
    hide Completed, FromSome, Stands;
    if m in r.marks {
      var v, p := MarkUsed(g, t, stop, inner, r, m);
    }
    if v, p :| ReachedBlock(g, t, stop, inner, v) && Stands(g[v.id], p) && Records(t, m, p) {
      UseMarked(g, t, stop, inner, r, m, v, p);
    }
  }

  // inside holds the bodies of the selected loops: their blocks lead only to
  // one another, as every body that lowers does, and they are entered only
  // from the loops.
  ghost predicate Enclosed(g: Graph, t: Tables, inner: Option<Id>, inside: set<Id>) {
    && (inner.Some? ==> inner.value !in inside)
    && (forall id, next: Option<Id> :: id in g && id in inside && next in Targets(g[id]) && next.Some? ==> next.value in inside)
    && (forall id :: id in g && id !in inside && g[id].succ.Some? ==> g[id].succ.value !in inside)
    && (forall id, next: Option<Id> :: id in g && id !in inside && next in Inners(g[id]) && next.Some? ==>
         (next.value in inside <==> g[id].shape.ForShape? && id in t.selected))
  }

  lemma EdgeSide(g: Graph, t: Tables, inner: Option<Id>, inside: set<Id>, from: Visit, to: Visit)
    requires Enclosed(g, t, inner, inside) && from.id in g && Edge(g, t, from, to) && (from.gpu <==> from.id in inside)
    ensures to.gpu <==> to.id in inside
  {
    assert Some(to.id) in Targets(g[from.id]);
  }

  lemma {:induction false} WaySide(g: Graph, t: Tables, stop: Option<Id>, inner: Option<Id>, inside: set<Id>, path: seq<Visit>)
    requires Enclosed(g, t, inner, inside) && Way(g, t, stop, path) && path[0].gpu == (path[0].id in inside)
    ensures path[|path| - 1].gpu <==> path[|path| - 1].id in inside
  {
    hide Enclosed, Edge;
    if |path| > 1 {
      var front := path[..|path| - 1];
      WaySide(g, t, stop, inner, inside, front);
      assert path[|front| - 1] == front[|front| - 1] && Edge(g, t, path[|front| - 1], path[|front|]);
      EdgeSide(g, t, inner, inside, front[|front| - 1], path[|path| - 1]);
    }
  }

  lemma ReachedSide(g: Graph, t: Tables, stop: Option<Id>, inner: Option<Id>, inside: set<Id>, v: Visit)
    requires Enclosed(g, t, inner, inside) && ReachedBlock(g, t, stop, inner, v)
    ensures v.gpu <==> v.id in inside
  {
    hide Enclosed;
    var e :| e in EntryOf(inner, false) && Leads(g, t, stop, e, v);
    var path :| WayTo(g, t, stop, path, e, v);
    assert e.id !in inside by { EntrySide(g, t, inner, inside); }
    WaySide(g, t, stop, inner, inside, path);
  }

  lemma EntrySide(g: Graph, t: Tables, inner: Option<Id>, inside: set<Id>)
    requires Enclosed(g, t, inner, inside)
    ensures inner.Some? ==> inner.value !in inside
  {
  }

  // A reachable block on the side of the selected loops the mark speaks of
  // accesses the buffer as it says.
  ghost predicate Accessed(g: Graph, t: Tables, stop: Option<Id>, inner: Option<Id>, inside: set<Id>, m: Mark) {
    exists v, p ::
      ReachedBlock(g, t, stop, inner, v) && Stands(g[v.id], p) && p.u.gpu == (v.id in inside) && Records(t, m, p)
  }

  // After a completed scan a buffer is marked as read or written by the CPU
  // exactly when some reachable block outside the selected loops reads or
  // writes an element of it, and by the GPU exactly when some block inside
  // does.
  lemma AccessExact(g: Graph, t: Tables, stop: Option<Id>, inner: Option<Id>, inside: set<Id>, r: Record, m: Mark)
    requires Completed(g, t, stop, inner, r) && Enclosed(g, t, inner, inside)
    ensures m in r.marks <==> Accessed(g, t, stop, inner, inside, m)
  {
    hide Completed, FromSome, Stands, Records, Enclosed;
    if m in r.marks {
      var v, p := MarkUsed(g, t, stop, inner, r, m);
      ReachedSide(g, t, stop, inner, inside, v);
    }
    if v, p :| ReachedBlock(g, t, stop, inner, v) && Stands(g[v.id], p) && p.u.gpu == (v.id in inside) && Records(t, m, p) {
      FlagIs(g, t, stop, inner, inside, r, v);
      UseMarked(g, t, stop, inner, r, m, v, p);
    }
  }

  // The flag a block was scanned under is its side.
  lemma FlagIs(g: Graph, t: Tables, stop: Option<Id>, inner: Option<Id>, inside: set<Id>, r: Record, v: Visit)
    requires Completed(g, t, stop, inner, r) && Enclosed(g, t, inner, inside) && ReachedBlock(g, t, stop, inner, v)
    ensures v.id in r.flags && r.flags[v.id] == (v.id in inside)
  {
    hide Enclosed, BlockMarks, BlockScannable, Targets, FromSome, NewMarked;
    ReachedIsFinished(g, t, stop, inner, r, v);
    assert EffectScan.New(NOTHING, r, v.id);
    ReachedSide(g, t, stop, inner, inside, Visit(v.id, r.flags[v.id]));
  }

  // ------------------------------------------------------------------
  // Captures anywhere
  // ------------------------------------------------------------------

  // The bases the scan does not enter.
  function Bases(e: Expr): (r: seq<Expr>)
    ensures forall i :: 0 <= i < |r| ==> r[i] < e
  {
    match e
    case Subscript(base, _) => if TermSymbol(base).Some? then [base] else []
    case PackedLoad(base, _) => [base]
    case PackedStore(base, _) => [base]
    case MaskStore(base, _, _) => [base]
    case Gather(base, _) => [base]
    case _ => []
  }

  // A capture of the name anywhere in the expression.
  predicate CapturesAnywhere(e: Expr, name: string)
    decreases e
  {
    || IsCapture(e, name)
    || (exists i :: 0 <= i < |Parts(e, PLAIN)| && CapturesAnywhere(Parts(e, PLAIN)[i].e, name))
    || (exists i :: 0 <= i < |Bases(e)| && CapturesAnywhere(Bases(e)[i], name))
  }

  // Every access in the expression is through a bare name.
  predicate PlainBases(e: Expr)
    decreases e
  {
    && (forall i :: 0 <= i < |Bases(e)| ==> TermSymbol(Bases(e)[i]).Some?)
    && (forall i :: 0 <= i < |Parts(e, PLAIN)| ==> PlainBases(Parts(e, PLAIN)[i].e))
  }

  lemma SameParts(e: Expr, u: Use)
    ensures |Parts(e, u)| == |Parts(e, PLAIN)|
    ensures forall i :: 0 <= i < |Parts(e, u)| ==> Parts(e, u)[i].e == Parts(e, PLAIN)[i].e
  {
  }

  lemma NameHoldsNothing(e: Expr, name: string)
    requires TermSymbol(e).Some?
    ensures !CapturesAnywhere(e, name)
  {
  }

  // Where every access is through a bare name, the scan enters every capture.
  lemma {:induction false} PlainSeesAll(e: Expr, u: Use, name: string)
    requires PlainBases(e)
    ensures CapturesAnywhere(e, name) <==> exists p :: Occurs(e, u, p) && IsCapture(p.e, name)
    decreases e
  {
    hide Parts, Bases, IsCapture;
    var parts := Parts(e, u);
    SameParts(e, u);
    forall i | 0 <= i < |Bases(e)| ensures !CapturesAnywhere(Bases(e)[i], name) {
      NameHoldsNothing(Bases(e)[i], name);
    }
    forall i | 0 <= i < |parts|
      ensures CapturesAnywhere(parts[i].e, name) <==> exists p :: Occurs(parts[i].e, parts[i].u, p) && IsCapture(p.e, name)
    {
      PlainSeesAll(parts[i].e, parts[i].u, name);
    }
    assert Occurs(e, u, Part(e, u));
    if p :| Occurs(e, u, p) && IsCapture(p.e, name) {
      if p != Part(e, u) {
        var i :| 0 <= i < |parts| && Occurs(parts[i].e, parts[i].u, p);
      }
    }
  }

  // An expression of a reachable block assigns the name outside its
  // declaration or captures it, however deep.
  ghost predicate Changes(g: Graph, t: Tables, stop: Option<Id>, inner: Option<Id>, name: string) {
    exists v, q :: ReachedBlock(g, t, stop, inner, v) && Owns(g[v.id], v.gpu, q) && (Assigns(q, name) || CapturesAnywhere(q.e, name))
  }

  ghost predicate PlainFunction(g: Graph, t: Tables, stop: Option<Id>, inner: Option<Id>) {
    forall v, q :: ReachedBlock(g, t, stop, inner, v) && Owns(g[v.id], v.gpu, q) ==> PlainBases(q.e)
  }

  // Where every access of the function is through a bare name, as in all code
  // the callback is given, a scalar is marked reassigned exactly when some
  // reachable block assigns it outside its declaration or captures it
  // anywhere.
  lemma ScanCatchesAll(g: Graph, t: Tables, stop: Option<Id>, inner: Option<Id>, r: Record, name: string)
    requires Completed(g, t, stop, inner, r) && PlainFunction(g, t, stop, inner) && name in t.scalars
    ensures ReassignedScalar(name) in r.marks <==> Changes(g, t, stop, inner, name)
  {
    hide Completed, FromSome, Owns, CapturesAnywhere, PlainBases, Occurs;
    var m := ReassignedScalar(name);
    if m in r.marks {
      var v, p := MarkUsed(g, t, stop, inner, r, m);
      var q :| Owns(g[v.id], p.u.gpu, q) && Occurs(q.e, q.u, p);
      OccursOnce(q.e, q.u, p);
      PlainSeesAll(q.e, q.u, name);
    }
    if v, q :| ReachedBlock(g, t, stop, inner, v) && Owns(g[v.id], v.gpu, q) && (Assigns(q, name) || CapturesAnywhere(q.e, name)) {
      PlainSeesAll(q.e, q.u, name);
      var p := Part(q.e, q.u);
      SelfOccurs(q);
      if !Assigns(q, name) {
        p :| Occurs(q.e, q.u, p) && IsCapture(p.e, name);
      }
      OccursOnce(q.e, q.u, p);
      OwnsSide(g[v.id], v.gpu, q);
      assert Stands(g[v.id], p);
      UseMarked(g, t, stop, inner, r, m, v, p);
    }
  }

  lemma SelfOccurs(q: Part)
    ensures Occurs(q.e, q.u, q)
  {
  }

  const HIDDEN := PackedLoad(Capture("x", NoExpr), NoExpr)

  // The hypothesis is needed: below a base that is no bare name a capture of
  // x marks nothing.
  lemma MissedCapture(u: Use)
    ensures CapturesAnywhere(HIDDEN, "x") && !PlainBases(HIDDEN) && Scannable(Tables({"x"}, {}, {}), HIDDEN)
    ensures ExprMarks(Tables({"x"}, {}, {}), HIDDEN, u) == {}
  {
    assert Bases(HIDDEN)[0] == Capture("x", NoExpr);
    assert IsCapture(Bases(HIDDEN)[0], "x") && CapturesAnywhere(Bases(HIDDEN)[0], "x");
  }
}
