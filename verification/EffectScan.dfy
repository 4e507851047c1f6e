// The effect scan: a walk over the reachable, possibly cyclic, HIR graph that
// marks every binding the function reassigns, captures or lets escape.

module EffectScan {
  import opened Hir
  import opened Lowering
  import opened Words

  const MAX_VISITED: nat := 1024

  type Id = nat

  // declares: the statement is the declaration of its target.
  datatype ScanStmt = ScanStmt(lhs: Expr, rhs: Expr, declares: bool)

  datatype Arm = Arm(cond: Expr, inner: Option<Id>)

  datatype Shape =
    | BasicShape(stmts: seq<ScanStmt>)
    | IfShape(arms: seq<Arm>)
    | ForShape(start: Expr, stop: Expr, collection: Expr, body: Option<Id>)
    | WhileShape(cond: Expr, body: Option<Id>)
    | MalformedShape

  datatype Block = Block(shape: Shape, succ: Option<Id>)

  type Graph = map<Id, Block>

  // Scalar parameters, catalog buffers, and the selected loops.
  datatype Tables = Tables(scalars: set<string>, buffers: set<string>, selected: set<Id>)

  datatype Mark =
    | ReassignedScalar(name: string)
    | ReassignedBuffer(name: string)
    | Escaped(name: string)
    | UnknownCall(name: string)
    | Returned(name: string)
    | GpuRead(name: string)
    | GpuWrite(name: string)
    | CpuRead(name: string)
    | CpuWrite(name: string)

  // The context an expression is scanned in.
  datatype Use = Use(write: bool, callArgument: bool, returned: bool, gpu: bool)

  // ------------------------------------------------------------------
  // What one expression marks
  // ------------------------------------------------------------------

  function AccessMark(name: string, write: bool, gpu: bool): Mark {
    if gpu then (if write then GpuWrite(name) else GpuRead(name))
    else if write then CpuWrite(name) else CpuRead(name)
  }

  function AccessMarks(t: Tables, base: Expr, write: bool, gpu: bool): set<Mark> {
    match TermSymbol(base)
    case Some(s) => if s in t.buffers then {AccessMark(s, write, gpu)} else {}
    case None => {}
  }

  predicate NamesBuffer(t: Tables, base: Expr) { TermSymbol(base).Some? && TermSymbol(base).value in t.buffers }

  function NameMarks(t: Tables, name: string, u: Use): set<Mark> {
    (if u.write && name in t.scalars then {ReassignedScalar(name)} else {}) +
    (if name !in t.buffers then {}
     else if u.write then {ReassignedBuffer(name)}
     else {Escaped(name)} + (if u.callArgument then {UnknownCall(name)} else {}) + (if u.returned then {Returned(name)} else {}))
  }

  const PLAIN := Use(false, false, false, false)

  function Reading(u: Use): Use { u.(write := false) }
  function Indexing(u: Use): Use { Use(false, false, false, u.gpu) }
  function Argument(u: Use): Use { Use(false, true, false, u.gpu) }
  function Stored(u: Use): Use { Use(false, true, u.returned, u.gpu) }

  function ExprMarks(t: Tables, e: Expr, u: Use): set<Mark>
    decreases e
  {
    match e
    case NoExpr => {}
    case TermExpr(SymbolTerm(name)) => NameMarks(t, name, u)
    case TermExpr(_) => {}
    case Subscript(base, index) =>
      (if NamesBuffer(t, base) then AccessMarks(t, base, u.write, u.gpu) else ExprMarks(t, base, Reading(u)))
      + ExprMarks(t, index, Indexing(u))
    case PackedLoad(base, offset) => AccessMarks(t, base, false, u.gpu) + ExprMarks(t, offset, Indexing(u))
    case PackedStore(base, offset) => AccessMarks(t, base, true, u.gpu) + ExprMarks(t, offset, Indexing(u))
    case Binary(_, l, r) => ExprMarks(t, l, Reading(u)) + ExprMarks(t, r, Reading(u))
    case Unary(_, x) => ExprMarks(t, x, Reading(u))
    case Dot(x) => ExprMarks(t, x, Reading(u))
    case Call(f, args) => ExprMarks(t, f, Indexing(u)) + ListMarks(t, args, Argument(u))
    case ThisCall(f, args) => ExprMarks(t, f, Indexing(u)) + ListMarks(t, args, Argument(u))
    case ArrayLiteral(xs) => ListMarks(t, xs, Stored(u))
    case DictLiteral(xs) => ListMarks(t, xs, Stored(u))
    case New(x) => ExprMarks(t, x, Stored(u))
    case Capture(name, x) =>
      (if name in t.scalars then {ReassignedScalar(name)} else {}) + ExprMarks(t, x, Reading(u))
    case Select(c, x, y) => ExprMarks(t, c, Reading(u)) + ExprMarks(t, x, Reading(u)) + ExprMarks(t, y, Reading(u))
    case MaskStore(base, offset, mask) =>
      AccessMarks(t, base, true, u.gpu) + ExprMarks(t, offset, Indexing(u)) + ExprMarks(t, mask, Indexing(u))
    case Gather(base, index) => AccessMarks(t, base, false, u.gpu) + ExprMarks(t, index, Indexing(u))
    case MalformedExpr => {}
  }

  function ListMarks(t: Tables, es: seq<Expr>, u: Use): set<Mark>
    decreases es
  {
    if es == [] then {} else ExprMarks(t, es[0], u) + ListMarks(t, es[1..], u)
  }

  // The scan meets no malformed expression.
  predicate Scannable(t: Tables, e: Expr)
    decreases e
  {
    match e
    case Subscript(base, index) => (NamesBuffer(t, base) || Scannable(t, base)) && Scannable(t, index)
    case PackedLoad(_, offset) => Scannable(t, offset)
    case PackedStore(_, offset) => Scannable(t, offset)
    case Binary(_, l, r) => Scannable(t, l) && Scannable(t, r)
    case Unary(_, x) => Scannable(t, x)
    case Dot(x) => Scannable(t, x)
    case Call(f, args) => Scannable(t, f) && ListScannable(t, args)
    case ThisCall(f, args) => Scannable(t, f) && ListScannable(t, args)
    case ArrayLiteral(xs) => ListScannable(t, xs)
    case DictLiteral(xs) => ListScannable(t, xs)
    case New(x) => Scannable(t, x)
    case Capture(_, x) => Scannable(t, x)
    case Select(c, x, y) => Scannable(t, c) && Scannable(t, x) && Scannable(t, y)
    case MaskStore(_, offset, mask) => Scannable(t, offset) && Scannable(t, mask)
    case Gather(_, index) => Scannable(t, index)
    case MalformedExpr => false
    case _ => true
  }

  predicate ListScannable(t: Tables, es: seq<Expr>)
    decreases es
  {
    es == [] || (Scannable(t, es[0]) && ListScannable(t, es[1..]))
  }

  function StmtMarks(t: Tables, s: ScanStmt, gpu: bool): set<Mark> {
    ExprMarks(t, s.rhs, Use(false, false, TermSymbol(s.lhs) == Some("$return"), gpu)) +
    (if s.declares then {} else ExprMarks(t, s.lhs, Use(true, false, false, gpu)))
  }

  predicate StmtScannable(t: Tables, s: ScanStmt) { Scannable(t, s.rhs) && (s.declares || Scannable(t, s.lhs)) }

  // ------------------------------------------------------------------
  // Blocks
  // ------------------------------------------------------------------

  function StmtsMarks(t: Tables, stmts: seq<ScanStmt>, gpu: bool): set<Mark> {
    if stmts == [] then {} else StmtsMarks(t, stmts[..|stmts| - 1], gpu) + StmtMarks(t, stmts[|stmts| - 1], gpu)
  }

  function ArmsMarks(t: Tables, arms: seq<Arm>, gpu: bool): set<Mark> {
    if arms == [] then {}
    else ArmsMarks(t, arms[..|arms| - 1], gpu) + ExprMarks(t, arms[|arms| - 1].cond, PLAIN.(gpu := gpu))
  }

  // What the block itself marks, apart from the blocks it leads to.
  function BlockMarks(t: Tables, b: Block, gpu: bool): set<Mark> {
    match b.shape
    case BasicShape(stmts) => StmtsMarks(t, stmts, gpu)
    case IfShape(arms) => ArmsMarks(t, arms, gpu)
    case ForShape(start, stop, collection, _) =>
      ExprMarks(t, start, PLAIN.(gpu := gpu)) + ExprMarks(t, stop, PLAIN.(gpu := gpu)) + ExprMarks(t, collection, PLAIN.(gpu := gpu))
    case WhileShape(cond, _) => ExprMarks(t, cond, PLAIN.(gpu := gpu))
    case MalformedShape => {}
  }

  // Every expression the block owns is well formed.
  predicate BlockScannable(t: Tables, b: Block) {
    match b.shape
    case BasicShape(stmts) => forall s :: s in stmts ==> StmtScannable(t, s)
    case IfShape(arms) => forall arm :: arm in arms ==> Scannable(t, arm.cond)
    case ForShape(start, stop, collection, _) => Scannable(t, start) && Scannable(t, stop) && Scannable(t, collection)
    case WhileShape(cond, _) => Scannable(t, cond)
    case MalformedShape => false
  }

  // The blocks a block encloses, and those it leads to.
  function Inners(b: Block): set<Option<Id>> {
    match b.shape
    case IfShape(arms) => set i | 0 <= i < |arms| :: arms[i].inner
    case ForShape(_, _, _, body) => {body}
    case WhileShape(_, body) => {body}
    case _ => {}
  }

  function Targets(b: Block): set<Option<Id>> { {b.succ} + Inners(b) }

  ghost predicate Closed(g: Graph) {
    forall id, next: Option<Id> :: id in g && next in Targets(g[id]) && next.Some? ==> next.value in g
  }

  // ------------------------------------------------------------------
  // Walks through the function
  // ------------------------------------------------------------------

  // A block and whether it is inside a selected loop.
  datatype Visit = Visit(id: Id, gpu: bool)

  // Whether what the block encloses is inside a selected loop.
  predicate InnerGpu(g: Graph, t: Tables, v: Visit)
    requires v.id in g
  {
    v.gpu || (g[v.id].shape.ForShape? && v.id in t.selected)
  }

  predicate Edge(g: Graph, t: Tables, from: Visit, to: Visit)
    requires from.id in g
  {
    || (Some(to.id) == g[from.id].succ && to.gpu == from.gpu)
    || (Some(to.id) in Inners(g[from.id]) && to.gpu == InnerGpu(g, t, from))
  }

  // A walk along the graph's edges that does not pass the function's end.
  ghost predicate Way(g: Graph, t: Tables, stop: Option<Id>, path: seq<Visit>) {
    && path != []
    && (forall i :: 0 <= i < |path| ==> path[i].id in g && Some(path[i].id) != stop)
    && (forall i :: 0 <= i < |path| - 1 ==> Edge(g, t, path[i], path[i + 1]))
  }

  ghost predicate WayTo(g: Graph, t: Tables, stop: Option<Id>, path: seq<Visit>, from: Visit, to: Visit) {
    Way(g, t, stop, path) && path[0] == from && path[|path| - 1] == to
  }

  ghost predicate Leads(g: Graph, t: Tables, stop: Option<Id>, from: Visit, to: Visit) {
    exists path :: WayTo(g, t, stop, path, from, to)
  }

  ghost predicate FromSome(g: Graph, t: Tables, stop: Option<Id>, entries: set<Visit>, to: Visit) {
    exists e :: e in entries && Leads(g, t, stop, e, to)
  }

  lemma LeadsSelf(g: Graph, t: Tables, stop: Option<Id>, v: Visit)
    requires v.id in g && Some(v.id) != stop
    ensures Leads(g, t, stop, v, v)
  {
    assert WayTo(g, t, stop, [v], v, v);
  }

  lemma LeadsCons(g: Graph, t: Tables, stop: Option<Id>, from: Visit, next: Visit, to: Visit)
    requires from.id in g && Some(from.id) != stop && Edge(g, t, from, next) && Leads(g, t, stop, next, to)
    ensures Leads(g, t, stop, from, to)
  {
    hide Edge;
    var path :| WayTo(g, t, stop, path, next, to);
    assert WayTo(g, t, stop, [from] + path, from, to);
  }

  function EntryOf(block: Option<Id>, gpu: bool): set<Visit> {
    if block.Some? then {Visit(block.value, gpu)} else {}
  }

  function ArmEntries(arms: seq<Arm>, gpu: bool): set<Visit> {
    set arm | arm in arms && arm.inner.Some? :: Visit(arm.inner.value, gpu)
  }

  function InnersOf(g: Graph, t: Tables, v: Visit): set<Visit>
    requires v.id in g
  {
    set next | next in Inners(g[v.id]) && next.Some? :: Visit(next.value, InnerGpu(g, t, v))
  }

  // Where a walk can go from a block.
  function Nexts(g: Graph, t: Tables, v: Visit): set<Visit>
    requires v.id in g
  {
    EntryOf(g[v.id].succ, v.gpu) + InnersOf(g, t, v)
  }

  lemma NextsInclude(g: Graph, t: Tables, v: Visit)
    requires v.id in g
    ensures EntryOf(g[v.id].succ, v.gpu) <= Nexts(g, t, v) && InnersOf(g, t, v) <= Nexts(g, t, v)
  {
  }

  lemma FromNext(g: Graph, t: Tables, stop: Option<Id>, v: Visit, entries: set<Visit>, to: Visit)
    requires v.id in g && Some(v.id) != stop && entries <= Nexts(g, t, v) && FromSome(g, t, stop, entries, to)
    ensures Leads(g, t, stop, v, to)
  {
    hide Leads, Inners;
    var e :| e in entries && Leads(g, t, stop, e, to);
    assert Edge(g, t, v, e);
    LeadsCons(g, t, stop, v, e, to);
  }

  // ------------------------------------------------------------------
  // What a scan has done
  // ------------------------------------------------------------------

  datatype Outcome = Applied | Exhausted | Malformed

  // The blocks visited, in order, the flag each was visited under, and the
  // marks set.
  datatype Record = Record(visited: seq<Id>, flags: map<Id, bool>, marks: set<Mark>)

  ghost predicate Later(a: Record, b: Record) {
    && a.visited <= b.visited && a.marks <= b.marks
    && (forall id :: id in a.flags ==> id in b.flags && b.flags[id] == a.flags[id])
  }

  predicate New(a: Record, b: Record, id: Id) { id in b.visited && id !in a.visited }

  // A visited block whose marks are set and whose targets are visited.
  ghost predicate Finished(g: Graph, t: Tables, stop: Option<Id>, r: Record, id: Id) {
    && id in g && id in r.flags
    && BlockScannable(t, g[id]) && BlockMarks(t, g[id], r.flags[id]) <= r.marks
    && (forall next :: next in Targets(g[id]) ==> next.None? || next == stop || next.value in r.visited)
  }

  // Every block visited between a and b is finished.
  ghost predicate NewFinished(g: Graph, t: Tables, stop: Option<Id>, a: Record, b: Record) {
    forall id :: New(a, b, id) ==> Finished(g, t, stop, b, id)
  }

  // Every block visited between a and b is reached from an entry under its
  // flag.
  ghost predicate NewReached(g: Graph, t: Tables, stop: Option<Id>, entries: set<Visit>, a: Record, b: Record) {
    forall id :: New(a, b, id) ==> id in b.flags && FromSome(g, t, stop, entries, Visit(id, b.flags[id]))
  }

  ghost predicate MarkedBy(g: Graph, t: Tables, a: Record, b: Record, id: Id, m: Mark) {
    New(a, b, id) && id in g && id in b.flags && m in BlockMarks(t, g[id], b.flags[id])
  }

  // Every mark set between a and b is one of own, or that of a block visited
  // since.
  ghost predicate NewMarked(g: Graph, t: Tables, own: set<Mark>, a: Record, b: Record) {
    forall m :: m in b.marks && m !in a.marks && m !in own ==> exists id :: MarkedBy(g, t, a, b, id, m)
  }

  // The budget is used up, and a block reached from an entry is not visited.
  ghost predicate Overrun(g: Graph, t: Tables, stop: Option<Id>, entries: set<Visit>, visited: seq<Id>) {
    |visited| == MAX_VISITED && exists v :: Missed(g, t, stop, entries, visited, v)
  }

  ghost predicate Missed(g: Graph, t: Tables, stop: Option<Id>, entries: set<Visit>, visited: seq<Id>, v: Visit) {
    v.id !in visited && FromSome(g, t, stop, entries, v)
  }

  // b continues a, visiting only blocks reached from the entries.
  ghost predicate Extends(g: Graph, t: Tables, stop: Option<Id>, entries: set<Visit>, a: Record, b: Record) {
    Later(a, b) && NewReached(g, t, stop, entries, a, b)
  }

  // and completes every one of them.
  ghost predicate Completes(g: Graph, t: Tables, stop: Option<Id>, entries: set<Visit>, own: set<Mark>, a: Record, b: Record) {
    Extends(g, t, stop, entries, a, b) && NewFinished(g, t, stop, a, b) && NewMarked(g, t, own, a, b)
  }

  lemma ExtendsLater(g: Graph, t: Tables, stop: Option<Id>, entries: set<Visit>, a: Record, b: Record)
    requires Extends(g, t, stop, entries, a, b)
    ensures Later(a, b) && |a.visited| <= |b.visited|
  {
  }

  lemma EntriesGrow(g: Graph, t: Tables, stop: Option<Id>, e1: set<Visit>, e2: set<Visit>, to: Visit)
    requires FromSome(g, t, stop, e1, to) && e1 <= e2
    ensures FromSome(g, t, stop, e2, to)
  {
    hide Leads;
  }

  lemma ExtendsTwice(g: Graph, t: Tables, stop: Option<Id>, e1: set<Visit>, e2: set<Visit>, entries: set<Visit>, a: Record, b: Record, c: Record)
    requires Extends(g, t, stop, e1, a, b) && Extends(g, t, stop, e2, b, c) && e1 <= entries && e2 <= entries
    ensures Extends(g, t, stop, entries, a, c)
  {
    hide FromSome;
    forall id | New(a, c, id) ensures id in c.flags && FromSome(g, t, stop, entries, Visit(id, c.flags[id])) {
      if id in b.visited {
        assert New(a, b, id);
        EntriesGrow(g, t, stop, e1, entries, Visit(id, c.flags[id]));
      } else {
        assert New(b, c, id);
        EntriesGrow(g, t, stop, e2, entries, Visit(id, c.flags[id]));
      }
    }
  }

  lemma FinishedGrows(g: Graph, t: Tables, stop: Option<Id>, a: Record, b: Record, c: Record)
    requires NewFinished(g, t, stop, a, b) && NewFinished(g, t, stop, b, c) && Later(b, c)
    ensures NewFinished(g, t, stop, a, c)
  {
    hide BlockMarks, BlockScannable, Targets;
    forall id | New(a, c, id) ensures Finished(g, t, stop, c, id) {
      if id in b.visited {
        assert New(a, b, id) && Finished(g, t, stop, b, id);
      } else {
        assert New(b, c, id);
      }
    }
  }

  lemma MarkedGrows(g: Graph, t: Tables, own1: set<Mark>, own2: set<Mark>, own: set<Mark>, a: Record, b: Record, c: Record)
    requires NewMarked(g, t, own1, a, b) && NewMarked(g, t, own2, b, c) && Later(a, b) && Later(b, c)
    requires own1 <= own && own2 <= own
    ensures NewMarked(g, t, own, a, c)
  {
    hide BlockMarks;
    forall m | m in c.marks && m !in a.marks && m !in own ensures exists id :: MarkedBy(g, t, a, c, id, m) {
      if m in b.marks {
        var id :| MarkedBy(g, t, a, b, id, m);
        assert MarkedBy(g, t, a, c, id, m);
      } else {
        var id :| MarkedBy(g, t, b, c, id, m);
        assert MarkedBy(g, t, a, c, id, m);
      }
    }
  }

  lemma CompletesTwice(
    g: Graph, t: Tables, stop: Option<Id>, e1: set<Visit>, own1: set<Mark>, e2: set<Visit>, own2: set<Mark>,
    entries: set<Visit>, own: set<Mark>, a: Record, b: Record, c: Record)
    requires Completes(g, t, stop, e1, own1, a, b) && Completes(g, t, stop, e2, own2, b, c)
    requires e1 <= entries && e2 <= entries && own1 <= own && own2 <= own
    ensures Completes(g, t, stop, entries, own, a, c)
  {
    hide NewFinished, NewReached, NewMarked;
    ExtendsTwice(g, t, stop, e1, e2, entries, a, b, c);
    FinishedGrows(g, t, stop, a, b, c);
    MarkedGrows(g, t, own1, own2, own, a, b, c);
  }

  lemma OverrunGrows(g: Graph, t: Tables, stop: Option<Id>, e1: set<Visit>, e2: set<Visit>, visited: seq<Id>)
    requires Overrun(g, t, stop, e1, visited) && e1 <= e2
    ensures Overrun(g, t, stop, e2, visited)
  {
    hide FromSome;
    var v :| Missed(g, t, stop, e1, visited, v);
    EntriesGrow(g, t, stop, e1, e2, v);
    assert Missed(g, t, stop, e2, visited, v);
  }

  // Scanning an expression visits nothing.
  lemma OnlyMarks(g: Graph, t: Tables, stop: Option<Id>, own: set<Mark>, a: Record, b: Record)
    requires a.visited == b.visited && a.flags == b.flags && a.marks <= b.marks
    ensures Extends(g, t, stop, {}, a, b)
    ensures b.marks <= a.marks + own ==> Completes(g, t, stop, {}, own, a, b)
  {
  }

  lemma NothingDone(g: Graph, t: Tables, stop: Option<Id>, entries: set<Visit>, a: Record)
    ensures Completes(g, t, stop, entries, {}, a, a) && Extends(g, t, stop, entries, a, a)
  {
  }

  // The block v is visited, then what it leads to: everything is reached
  // from v.
  lemma VisitExtends(g: Graph, t: Tables, stop: Option<Id>, v: Visit, entries: set<Visit>, a: Record, b: Record, c: Record)
    requires v.id in g && Some(v.id) != stop && entries <= Nexts(g, t, v)
    requires Later(a, b) && b.visited == a.visited + [v.id] && v.id in b.flags && b.flags[v.id] == v.gpu
    requires Extends(g, t, stop, entries, b, c)
    ensures Extends(g, t, stop, {v}, a, c)
  {
    hide Leads, Nexts, Edge;
    forall id | New(a, c, id) ensures id in c.flags && FromSome(g, t, stop, {v}, Visit(id, c.flags[id])) {
      if id == v.id {
        LeadsSelf(g, t, stop, v);
        assert v in {v};
      } else {
        assert New(b, c, id);
        FromNext(g, t, stop, v, entries, Visit(id, c.flags[id]));
        assert v in {v};
      }
    }
  }

  // Every mark set is that of a block visited.
  lemma VisitMarked(g: Graph, t: Tables, v: Visit, a: Record, b: Record, c: Record)
    requires v.id in g && v.id !in a.visited && b.visited == a.visited + [v.id] && b.marks == a.marks
    requires Later(b, c) && v.id in b.flags && b.flags[v.id] == v.gpu
    requires NewMarked(g, t, BlockMarks(t, g[v.id], v.gpu), b, c)
    ensures NewMarked(g, t, {}, a, c)
  {
    hide BlockMarks;
    assert b.visited[|a.visited|] == v.id;
    forall m | m in c.marks && m !in a.marks ensures exists id :: MarkedBy(g, t, a, c, id, m) {
      if m in BlockMarks(t, g[v.id], v.gpu) {
        assert MarkedBy(g, t, a, c, v.id, m);
      } else {
        var id :| MarkedBy(g, t, b, c, id, m);
        assert MarkedBy(g, t, a, c, id, m);
      }
    }
  }

  // The block and everything after it is complete.
  lemma VisitCompletes(g: Graph, t: Tables, stop: Option<Id>, v: Visit, entries: set<Visit>, a: Record, b: Record, c: Record)
    requires v.id in g && Some(v.id) != stop && entries <= Nexts(g, t, v) && v.id !in a.visited
    requires Later(a, b) && b.visited == a.visited + [v.id] && b.marks == a.marks && v.id in b.flags && b.flags[v.id] == v.gpu
    requires Completes(g, t, stop, entries, BlockMarks(t, g[v.id], v.gpu), b, c) && Finished(g, t, stop, c, v.id)
    ensures Completes(g, t, stop, {v}, {}, a, c)
  {
    hide Leads, Nexts, Edge, BlockMarks, BlockScannable, Targets, NewReached, NewMarked;
    VisitExtends(g, t, stop, v, entries, a, b, c);
    VisitMarked(g, t, v, a, b, c);
    forall id | New(a, c, id) ensures Finished(g, t, stop, c, id) {
      if id != v.id {
        assert New(b, c, id);
      }
    }
  }

  lemma NoRoom(g: Graph, t: Tables, stop: Option<Id>, v: Visit, visited: seq<Id>)
    requires v.id in g && Some(v.id) != stop && v.id !in visited && |visited| == MAX_VISITED
    ensures Overrun(g, t, stop, {v}, visited)
  {
    LeadsSelf(g, t, stop, v);
    assert v in {v} && Missed(g, t, stop, {v}, visited, v);
  }

  lemma VisitOverrun(g: Graph, t: Tables, stop: Option<Id>, v: Visit, entries: set<Visit>, visited: seq<Id>)
    requires v.id in g && Some(v.id) != stop && entries <= Nexts(g, t, v) && Overrun(g, t, stop, entries, visited)
    ensures Overrun(g, t, stop, {v}, visited)
  {
    hide Leads, Nexts, Edge;
    var w :| Missed(g, t, stop, entries, visited, w);
    FromNext(g, t, stop, v, entries, w);
    assert v in {v} && Missed(g, t, stop, {v}, visited, w);
  }

  ghost predicate AllIn(targets: set<Option<Id>>, stop: Option<Id>, visited: seq<Id>) {
    forall next :: next in targets ==> next.None? || next == stop || next.value in visited
  }

  lemma SuccessorIn(g: Graph, id: Id)
    requires Closed(g) && id in g && g[id].succ.Some?
    ensures g[id].succ.value in g
  {
    assert g[id].succ in Targets(g[id]);
  }

  // A block whose own marks are set, whose inner blocks were visited first
  // and whose successor was visited then.
  lemma VisitFinished(g: Graph, t: Tables, stop: Option<Id>, id: Id, gpu: bool, a: Record, b: Record, c: Record)
    requires Later(a, b) && Later(b, c) && id in g && id in a.flags && a.flags[id] == gpu
    requires BlockScannable(t, g[id]) && BlockMarks(t, g[id], gpu) <= b.marks && AllIn(Inners(g[id]), stop, b.visited)
    requires g[id].succ.None? || g[id].succ == stop || g[id].succ.value in c.visited
    ensures Finished(g, t, stop, c, id)
  {
    hide BlockScannable, BlockMarks, Inners;
  }

  predicate Distinct(visited: seq<Id>) { forall i, j :: 0 <= i < j < |visited| ==> visited[i] != visited[j] }

  class Scan {
    const g: Graph
    const t: Tables
    const stop: Option<Id>
    var visited: seq<Id>
    var marks: set<Mark>
    ghost var flags: map<Id, bool>

    constructor (g: Graph, t: Tables, stop: Option<Id>)
      ensures this.g == g && this.t == t && this.stop == stop && Now() == Record([], map[], {})
    {
      this.g, this.t, this.stop, visited, marks, flags := g, t, stop, [], {}, map[];
    }

    ghost predicate Valid()
      reads this
    {
      Closed(g) && |visited| <= MAX_VISITED && Distinct(visited) && forall id :: id in visited <==> id in flags
    }

    ghost function Now(): Record
      reads this
    {
      Record(visited, flags, marks)
    }

    method ScanList(es: seq<Expr>, u: Use) returns (r: Outcome)
      modifies `marks
      ensures old(marks) <= marks && !r.Exhausted? && (r.Applied? <==> ListScannable(t, es))
      ensures r.Applied? ==> marks == old(marks) + ListMarks(t, es, u)
      decreases es
    {
      if es == [] { return Applied; }
      r := ScanExpression(es[0], u);
      if !r.Applied? { return; }
      r := ScanList(es[1..], u);
    }

    method ScanPair(x: Expr, y: Expr, u: Use, ghost e: Expr) returns (r: Outcome)
      requires x < e && y < e
      modifies `marks
      ensures old(marks) <= marks && !r.Exhausted? && (r.Applied? <==> Scannable(t, x) && Scannable(t, y))
      ensures r.Applied? ==> marks == old(marks) + ExprMarks(t, x, u) + ExprMarks(t, y, u)
      decreases e, 0
    {
      r := ScanExpression(x, u);
      if !r.Applied? { return; }
      r := ScanExpression(y, u);
    }

    method ScanAccess(base: Expr, offset: Expr, write: bool, u: Use, ghost e: Expr) returns (r: Outcome)
      requires offset < e
      modifies `marks
      ensures old(marks) <= marks && !r.Exhausted? && (r.Applied? <==> Scannable(t, offset))
      ensures r.Applied? ==> marks == old(marks) + AccessMarks(t, base, write, u.gpu) + ExprMarks(t, offset, Indexing(u))
      decreases e, 0
    {
      hide AccessMarks;
      marks := marks + AccessMarks(t, base, write, u.gpu);
      r := ScanExpression(offset, Indexing(u));
    }

    method ScanCall(f: Expr, args: seq<Expr>, u: Use, ghost e: Expr) returns (r: Outcome)
      requires (e.Call? && f == e.callee && args == e.args) || (e.ThisCall? && f == e.receiver && args == e.thisArgs)
      modifies `marks
      ensures old(marks) <= marks && !r.Exhausted? && (r.Applied? <==> Scannable(t, f) && ListScannable(t, args))
      ensures r.Applied? ==> marks == old(marks) + ExprMarks(t, f, Indexing(u)) + ListMarks(t, args, Argument(u))
      decreases e, 0
    {
      r := ScanExpression(f, Indexing(u));
      if !r.Applied? { return; }
      r := ScanList(args, Argument(u));
    }

    method ScanName(name: string, u: Use)
      modifies `marks
      ensures marks == old(marks) + NameMarks(t, name, u)
    {
      if u.write && name in t.scalars { marks := marks + {ReassignedScalar(name)}; }
      if name !in t.buffers { return; }
      if u.write {
        marks := marks + {ReassignedBuffer(name)};
        return;
      }
      marks := marks + {Escaped(name)};
      if u.callArgument { marks := marks + {UnknownCall(name)}; }
      if u.returned { marks := marks + {Returned(name)}; }
    }

    method ScanSubscript(e: Expr, u: Use) returns (r: Outcome)
      requires e.Subscript?
      modifies `marks
      ensures old(marks) <= marks && !r.Exhausted? && (r.Applied? <==> Scannable(t, e))
      ensures r.Applied? ==> marks == old(marks) + ExprMarks(t, e, u)
      decreases e, 1
    {
      hide AccessMarks, NamesBuffer;
      if NamesBuffer(t, e.base) {
        marks := marks + AccessMarks(t, e.base, u.write, u.gpu);
      } else {
        r := ScanExpression(e.base, Reading(u));
        if !r.Applied? { return; }
      }
      r := ScanExpression(e.index, Indexing(u));
    }

    method ScanCapture(e: Expr, u: Use) returns (r: Outcome)
      requires e.Capture?
      modifies `marks
      ensures old(marks) <= marks && !r.Exhausted? && (r.Applied? <==> Scannable(t, e))
      ensures r.Applied? ==> marks == old(marks) + ExprMarks(t, e, u)
      decreases e, 1
    {
      if e.symbol in t.scalars { marks := marks + {ReassignedScalar(e.symbol)}; }
      r := ScanExpression(e.captured, Reading(u));
    }

    method ScanSelect(e: Expr, u: Use) returns (r: Outcome)
      requires e.Select?
      modifies `marks
      ensures old(marks) <= marks && !r.Exhausted? && (r.Applied? <==> Scannable(t, e))
      ensures r.Applied? ==> marks == old(marks) + ExprMarks(t, e, u)
      decreases e, 1
    {
      r := ScanExpression(e.cond, Reading(u));
      if !r.Applied? { return; }
      r := ScanPair(e.ifTrue, e.ifFalse, Reading(u), e);
    }

    method ScanMaskStore(e: Expr, u: Use) returns (r: Outcome)
      requires e.MaskStore?
      modifies `marks
      ensures old(marks) <= marks && !r.Exhausted? && (r.Applied? <==> Scannable(t, e))
      ensures r.Applied? ==> marks == old(marks) + ExprMarks(t, e, u)
      decreases e, 1
    {
      hide AccessMarks;
      marks := marks + AccessMarks(t, e.maskBase, true, u.gpu);
      r := ScanPair(e.maskOffset, e.mask, Indexing(u), e);
    }

    // Scans one expression, preserving the context of direct buffer uses.
    method ScanExpression(e: Expr, u: Use) returns (r: Outcome)
      modifies `marks
      ensures old(marks) <= marks && !r.Exhausted? && (r.Applied? <==> Scannable(t, e))
      ensures r.Applied? ==> marks == old(marks) + ExprMarks(t, e, u)
      decreases e, 2
    {
      hide AccessMarks, NameMarks;
      match e
      case NoExpr => return Applied;
      case TermExpr(SymbolTerm(name)) =>
        ScanName(name, u);
        return Applied;
      case TermExpr(_) => return Applied;
      case Subscript(_, _) => r := ScanSubscript(e, u);
      case PackedLoad(base, offset) => r := ScanAccess(base, offset, false, u, e);
      case PackedStore(base, offset) => r := ScanAccess(base, offset, true, u, e);
      case Binary(_, l, x) => r := ScanPair(l, x, Reading(u), e);
      case Unary(_, x) => r := ScanExpression(x, Reading(u));
      case Dot(x) => r := ScanExpression(x, Reading(u));
      case Call(f, args) => r := ScanCall(f, args, u, e);
      case ThisCall(f, args) => r := ScanCall(f, args, u, e);
      case ArrayLiteral(xs) => r := ScanList(xs, Stored(u));
      case DictLiteral(xs) => r := ScanList(xs, Stored(u));
      case New(x) => r := ScanExpression(x, Stored(u));
      case Capture(_, _) => r := ScanCapture(e, u);
      case Select(_, _, _) => r := ScanSelect(e, u);
      case MaskStore(_, _, _) => r := ScanMaskStore(e, u);
      case Gather(base, index) => r := ScanAccess(base, index, false, u, e);
      case MalformedExpr => return Malformed;
    }

    method ScanStatement(s: ScanStmt, gpu: bool) returns (r: Outcome)
      modifies `marks
      ensures old(marks) <= marks && !r.Exhausted? && (r.Applied? <==> StmtScannable(t, s))
      ensures r.Applied? ==> marks == old(marks) + StmtMarks(t, s, gpu)
    {
      r := ScanExpression(s.rhs, Use(false, false, TermSymbol(s.lhs) == Some("$return"), gpu));
      if !r.Applied? { return; }
      if s.declares { return Applied; }
      r := ScanExpression(s.lhs, Use(true, false, false, gpu));
    }

    method ScanStatements(stmts: seq<ScanStmt>, gpu: bool) returns (r: Outcome)
      modifies `marks
      ensures old(marks) <= marks && !r.Exhausted? && (r.Applied? <==> forall s :: s in stmts ==> StmtScannable(t, s))
      ensures r.Applied? ==> marks == old(marks) + StmtsMarks(t, stmts, gpu)
    {
      hide StmtScannable, StmtMarks;
      for i := 0 to |stmts|
        invariant old(marks) <= marks && marks == old(marks) + StmtsMarks(t, stmts[..i], gpu)
        invariant forall j :: 0 <= j < i ==> StmtScannable(t, stmts[j])
      {
        assert stmts[..i + 1][..i] == stmts[..i];
        r := ScanStatement(stmts[i], gpu);
        if !r.Applied? { return; }
      }
      assert stmts[..|stmts|] == stmts;
      return Applied;
    }

    ghost predicate Reached(block: Option<Id>)
      reads this
    {
      block.None? || block == stop || block.value in visited
    }

    // A block that cannot be scanned has been visited.
    ghost predicate MetBad()
      reads this
    {
      exists id :: id in visited && id in g && !BlockScannable(t, g[id])
    }

    // Scans the conditions and inner blocks of an IF chain.
    method ScanArms(arms: seq<Arm>, gpu: bool) returns (r: Outcome)
      requires Valid()
      requires forall i :: 0 <= i < |arms| && arms[i].inner.Some? ==> arms[i].inner.value in g
      modifies `visited, `marks, `flags
      ensures Valid() && Extends(g, t, stop, ArmEntries(arms, gpu), old(Now()), Now())
      ensures r.Exhausted? ==> Overrun(g, t, stop, ArmEntries(arms, gpu), visited)
      ensures r.Malformed? ==> MetBad() || exists arm :: arm in arms && !Scannable(t, arm.cond)
      ensures r.Applied? ==> Completes(g, t, stop, ArmEntries(arms, gpu), ArmsMarks(t, arms, gpu), old(Now()), Now())
      ensures r.Applied? ==> ArmsMarks(t, arms, gpu) <= marks
      ensures r.Applied? ==> forall i :: 0 <= i < |arms| ==> Reached(arms[i].inner) && Scannable(t, arms[i].cond)
      decreases MAX_VISITED - |visited|, 2
    {
      hide NewFinished, NewReached, NewMarked, Overrun, Closed, BlockScannable, ExprMarks, Scannable;
      ghost var start, entries, own := Now(), ArmEntries(arms, gpu), ArmsMarks(t, arms, gpu);
      OnlyMarks(g, t, stop, {}, start, start);
      CompletesTwice(g, t, stop, {}, {}, {}, {}, entries, own, start, start, start);
      for i := 0 to |arms|
        invariant Valid() && Completes(g, t, stop, entries, own, start, Now())
        invariant ArmsMarks(t, arms[..i], gpu) <= marks
        invariant forall j :: 0 <= j < i ==> Reached(arms[j].inner) && Scannable(t, arms[j].cond)
      {
        ArmOwn(arms, i, gpu);
        ghost var r0 := Now();
        r := ScanExpression(arms[i].cond, PLAIN.(gpu := gpu));
        assert r.Applied? ==> marks <= r0.marks + own;
        OnlyMarks(g, t, stop, own, r0, Now());
        ExtendsTwice(g, t, stop, entries, {}, entries, start, r0, Now());
        if !r.Applied? { return; }
        CompletesTwice(g, t, stop, entries, own, {}, own, entries, own, start, r0, Now());
        ghost var r1 := Now();
        r := ScanBlock(arms[i].inner, gpu);
        ExtendsTwice(g, t, stop, entries, EntryOf(arms[i].inner, gpu), entries, start, r1, Now());
        if r.Exhausted? { OverrunGrows(g, t, stop, EntryOf(arms[i].inner, gpu), entries, visited); }
        if !r.Applied? { return; }
        CompletesTwice(g, t, stop, entries, own, EntryOf(arms[i].inner, gpu), {}, entries, own, start, r1, Now());
      }
      assert arms[..|arms|] == arms;
      return Applied;
    }

    lemma ArmOwn(arms: seq<Arm>, i: nat, gpu: bool)
      requires i < |arms|
      ensures ArmsMarks(t, arms[..i + 1], gpu) == ArmsMarks(t, arms[..i], gpu) + ExprMarks(t, arms[i].cond, PLAIN.(gpu := gpu))
      ensures ExprMarks(t, arms[i].cond, PLAIN.(gpu := gpu)) <= ArmsMarks(t, arms, gpu)
      ensures EntryOf(arms[i].inner, gpu) <= ArmEntries(arms, gpu)
    {
      assert arms[..i + 1][..i] == arms[..i];
      ArmsInclude(t, arms, i + 1, gpu);
    }

    // Scans the expressions and the body of a loop.
    method ScanLoop(exprs: seq<Expr>, body: Option<Id>, gpu: bool, inside: bool) returns (r: Outcome)
      requires Valid() && (body.Some? ==> body.value in g)
      modifies `visited, `marks, `flags
      ensures Valid() && Extends(g, t, stop, EntryOf(body, inside), old(Now()), Now())
      ensures r.Exhausted? ==> Overrun(g, t, stop, EntryOf(body, inside), visited)
      ensures r.Malformed? ==> MetBad() || !ListScannable(t, exprs)
      ensures r.Applied? ==> ListScannable(t, exprs) && Reached(body) && ListMarks(t, exprs, PLAIN.(gpu := gpu)) <= marks
      ensures r.Applied? ==>
        Completes(g, t, stop, EntryOf(body, inside), ListMarks(t, exprs, PLAIN.(gpu := gpu)), old(Now()), Now())
      decreases MAX_VISITED - |visited|, 2
    {
      hide NewFinished, NewReached, NewMarked, Overrun, Closed, BlockScannable, ListMarks, ListScannable;
      ghost var start, entries, own := Now(), EntryOf(body, inside), ListMarks(t, exprs, PLAIN.(gpu := gpu));
      r := ScanList(exprs, PLAIN.(gpu := gpu));
      ghost var r1 := Now();
      OnlyMarks(g, t, stop, own, start, r1);
      OnlyMarks(g, t, stop, own, r1, r1);
      ExtendsTwice(g, t, stop, {}, {}, entries, start, r1, r1);
      if !r.Applied? { return; }
      r := ScanBlock(body, inside);
      ExtendsTwice(g, t, stop, {}, entries, entries, start, r1, Now());
      if r.Applied? {
        CompletesTwice(g, t, stop, {}, own, entries, {}, entries, own, start, r1, Now());
      }
    }

    // Scans the blocks reachable from one block and not visited before.  Each
    // block uses one unit of the budget, so the recursion ends on cycles too.
    method ScanBlock(block: Option<Id>, gpu: bool) returns (r: Outcome)
      requires Valid() && (block.Some? ==> block.value in g)
      modifies `visited, `marks, `flags
      ensures Valid() && Extends(g, t, stop, EntryOf(block, gpu), old(Now()), Now())
      ensures r.Exhausted? ==> Overrun(g, t, stop, EntryOf(block, gpu), visited)
      ensures r.Malformed? ==> MetBad()
      ensures r.Applied? ==> Completes(g, t, stop, EntryOf(block, gpu), {}, old(Now()), Now()) && Reached(block)
      decreases MAX_VISITED - |visited|, 1
    {
      hide BlockScannable, Completes, Extends, Overrun, Closed;
      NothingDone(g, t, stop, EntryOf(block, gpu), Now());
      if block.None? || block == stop { return Applied; }
      if block.value in visited { return Applied; }
      if |visited| >= MAX_VISITED {
        NoRoom(g, t, stop, Visit(block.value, gpu), visited);
        return Exhausted;
      }
      r := VisitBlock(block.value, gpu);
    }

    method Meet(id: Id, gpu: bool)
      requires Valid() && id !in visited && |visited| < MAX_VISITED
      modifies `visited, `flags
      ensures Valid() && Later(old(Now()), Now())
      ensures visited == old(visited) + [id] && flags == old(flags)[id := gpu]
    {
      hide Closed;
      visited := visited + [id];
      flags := flags[id := gpu];
    }

    method VisitBlock(id: Id, gpu: bool) returns (r: Outcome)
      requires Valid() && id in g && Some(id) != stop && id !in visited && |visited| < MAX_VISITED
      modifies `visited, `marks, `flags
      ensures Valid() && id in visited && Extends(g, t, stop, {Visit(id, gpu)}, old(Now()), Now())
      ensures r.Exhausted? ==> Overrun(g, t, stop, {Visit(id, gpu)}, visited)
      ensures r.Malformed? ==> MetBad()
      ensures r.Applied? ==> Completes(g, t, stop, {Visit(id, gpu)}, {}, old(Now()), Now())
      decreases MAX_VISITED - |visited|, 0
    {
      hide BlockScannable, BlockMarks, Nexts, Targets, Completes, Extends, Overrun, Finished, Closed, Distinct, Later;
      ghost var start, v := Now(), Visit(id, gpu);
      Meet(id, gpu);
      ghost var met := Now();
      r := ScanVisited(id, gpu);
      ExtendsLater(g, t, stop, Nexts(g, t, v), met, Now());
      VisitExtends(g, t, stop, v, Nexts(g, t, v), start, met, Now());
      if r.Exhausted? { VisitOverrun(g, t, stop, v, Nexts(g, t, v), visited); }
      if !r.Applied? { return; }
      VisitCompletes(g, t, stop, v, Nexts(g, t, v), start, met, Now());
    }

    // Scans what a block just visited encloses, then what follows it.
    method ScanVisited(id: Id, gpu: bool) returns (r: Outcome)
      requires Valid() && id in g && id in visited && flags[id] == gpu
      modifies `visited, `marks, `flags
      ensures Valid() && Extends(g, t, stop, Nexts(g, t, Visit(id, gpu)), old(Now()), Now())
      ensures r.Exhausted? ==> Overrun(g, t, stop, Nexts(g, t, Visit(id, gpu)), visited)
      ensures r.Malformed? ==> MetBad()
      ensures r.Applied? ==>
        Completes(g, t, stop, Nexts(g, t, Visit(id, gpu)), BlockMarks(t, g[id], gpu), old(Now()), Now())
      ensures r.Applied? ==> Finished(g, t, stop, Now(), id)
      decreases MAX_VISITED - |visited|, 4
    {
      hide BlockScannable, BlockMarks, Inners, InnersOf, Nexts, EntryOf, Completes, Extends, Overrun, Finished, Closed, Distinct, Later, AllIn;
      ghost var met, v := Now(), Visit(id, gpu);
      NextsInclude(g, t, v);
      r := ScanShape(id, gpu);
      ghost var shaped := Now();
      ExtendsLater(g, t, stop, InnersOf(g, t, v), met, shaped);
      NothingDone(g, t, stop, Nexts(g, t, v), shaped);
      ExtendsTwice(g, t, stop, InnersOf(g, t, v), Nexts(g, t, v), Nexts(g, t, v), met, shaped, shaped);
      if r.Exhausted? { OverrunGrows(g, t, stop, InnersOf(g, t, v), Nexts(g, t, v), visited); }
      if !r.Applied? { return; }
      if g[id].succ.Some? { SuccessorIn(g, id); }
      r := ScanBlock(g[id].succ, gpu);
      ExtendsLater(g, t, stop, EntryOf(g[id].succ, gpu), shaped, Now());
      ExtendsTwice(g, t, stop, InnersOf(g, t, v), EntryOf(g[id].succ, gpu), Nexts(g, t, v), met, shaped, Now());
      if r.Exhausted? { OverrunGrows(g, t, stop, EntryOf(g[id].succ, gpu), Nexts(g, t, v), visited); }
      if !r.Applied? { return; }
      CompletesTwice(g, t, stop, InnersOf(g, t, v), BlockMarks(t, g[id], gpu), EntryOf(g[id].succ, gpu), {},
        Nexts(g, t, v), BlockMarks(t, g[id], gpu), met, shaped, Now());
      VisitFinished(g, t, stop, id, gpu, met, shaped, Now());
    }

    // What a block owns: its statements, conditions and inner blocks.
    method ScanShape(id: Id, gpu: bool) returns (r: Outcome)
      requires Valid() && id in g && id in visited
      modifies `visited, `marks, `flags
      ensures Valid() && Extends(g, t, stop, InnersOf(g, t, Visit(id, gpu)), old(Now()), Now())
      ensures r.Exhausted? ==> Overrun(g, t, stop, InnersOf(g, t, Visit(id, gpu)), visited)
      ensures r.Malformed? ==> MetBad()
      ensures r.Applied? ==>
        Completes(g, t, stop, InnersOf(g, t, Visit(id, gpu)), BlockMarks(t, g[id], gpu), old(Now()), Now())
      ensures r.Applied? ==> BlockMarks(t, g[id], gpu) <= marks && BlockScannable(t, g[id])
      ensures r.Applied? ==> AllIn(Inners(g[id]), stop, visited)
      decreases MAX_VISITED - |visited|, 3
    {
      hide Extends, NewFinished, NewMarked, Overrun, ExprMarks, Scannable, Distinct;
      ghost var start := Now();
      InnersAre(g, t, Visit(id, gpu));
      match g[id].shape
      case BasicShape(stmts) =>
        r := ScanStatements(stmts, gpu);
        OnlyMarks(g, t, stop, StmtsMarks(t, stmts, gpu), start, Now());
      case IfShape(arms) =>
        ArmTargets(g, t, id, gpu);
        r := ScanArms(arms, gpu);
        ExtendsLater(g, t, stop, ArmEntries(arms, gpu), start, Now());
      case ForShape(first, last, collection, body) =>
        assert body in Inners(g[id]) && body in Targets(g[id]);
        r := ScanLoop([first, last, collection], body, gpu, gpu || id in t.selected);
        ExtendsLater(g, t, stop, EntryOf(body, gpu || id in t.selected), start, Now());
        ThreeMarks(t, first, last, collection, PLAIN.(gpu := gpu));
      case WhileShape(cond, body) =>
        assert body in Inners(g[id]) && body in Targets(g[id]);
        r := ScanLoop([cond], body, gpu, gpu);
        ExtendsLater(g, t, stop, EntryOf(body, gpu), start, Now());
        OneMark(t, cond, PLAIN.(gpu := gpu));
      case MalformedShape =>
        OnlyMarks(g, t, stop, {}, start, start);
        return Malformed;
    }
  }

  lemma {:induction false} ArmsInclude(t: Tables, arms: seq<Arm>, i: nat, gpu: bool)
    requires i <= |arms|
    ensures ArmsMarks(t, arms[..i], gpu) <= ArmsMarks(t, arms, gpu)
  {
    if i < |arms| {
      assert arms[..|arms| - 1][..i] == arms[..i];
      ArmsInclude(t, arms[..|arms| - 1], i, gpu);
    } else {
      assert arms[..i] == arms;
    }
  }

  lemma InnersAre(g: Graph, t: Tables, v: Visit)
    requires v.id in g
    ensures g[v.id].shape.BasicShape? || g[v.id].shape.MalformedShape? ==> InnersOf(g, t, v) == {}
    ensures g[v.id].shape.ForShape? || g[v.id].shape.WhileShape? ==> InnersOf(g, t, v) == EntryOf(g[v.id].shape.body, InnerGpu(g, t, v))
  {
  }

  lemma ArmTargets(g: Graph, t: Tables, id: Id, gpu: bool)
    requires id in g && g[id].shape.IfShape?
    ensures InnersOf(g, t, Visit(id, gpu)) == ArmEntries(g[id].shape.arms, gpu)
    ensures forall i :: 0 <= i < |g[id].shape.arms| ==> g[id].shape.arms[i].inner in Targets(g[id])
    ensures forall next :: next in Inners(g[id]) ==> exists i :: 0 <= i < |g[id].shape.arms| && g[id].shape.arms[i].inner == next
  {
    var arms := g[id].shape.arms;
    forall v | v in InnersOf(g, t, Visit(id, gpu)) ensures v in ArmEntries(arms, gpu) {
      var i :| 0 <= i < |arms| && arms[i].inner == Some(v.id);
      assert arms[i] in arms;
    }
    forall v | v in ArmEntries(arms, gpu) ensures v in InnersOf(g, t, Visit(id, gpu)) {
      var arm :| arm in arms && arm.inner == Some(v.id);
      var i :| 0 <= i < |arms| && arms[i] == arm;
      assert arms[i].inner in Inners(g[id]);
    }
  }

  lemma OneMark(t: Tables, x: Expr, u: Use)
    ensures ListMarks(t, [x], u) == ExprMarks(t, x, u)
    ensures ListScannable(t, [x]) <==> Scannable(t, x)
  {
    assert [x][1..] == [];
  }

  lemma ThreeMarks(t: Tables, x: Expr, y: Expr, z: Expr, u: Use)
    ensures ListMarks(t, [x, y, z], u) == ExprMarks(t, x, u) + ExprMarks(t, y, u) + ExprMarks(t, z, u)
    ensures ListScannable(t, [x, y, z]) <==> Scannable(t, x) && Scannable(t, y) && Scannable(t, z)
  {
    assert [x, y, z][1..] == [y, z] && [y, z][1..] == [z];
    OneMark(t, z, u);
  }

  // ------------------------------------------------------------------
  // The whole function
  // ------------------------------------------------------------------

  const NOTHING := Record([], map[], {})

  // A completed scan from `inner`.
  ghost predicate Completed(g: Graph, t: Tables, stop: Option<Id>, inner: Option<Id>, r: Record) {
    && Completes(g, t, stop, EntryOf(inner, false), {}, NOTHING, r)
    && |r.visited| <= MAX_VISITED
    && (inner.None? || inner == stop || inner.value in r.visited)
  }

  method ScanFunction(g: Graph, t: Tables, inner: Option<Id>, stop: Option<Id>) returns (scan: Scan, r: Outcome)
    requires Closed(g) && (inner.Some? ==> inner.value in g)
    ensures fresh(scan) && Extends(g, t, stop, EntryOf(inner, false), NOTHING, scan.Now()) && Distinct(scan.visited)
    ensures r.Applied? ==> Completed(g, t, stop, inner, scan.Now())
    ensures r.Exhausted? ==> Overrun(g, t, stop, EntryOf(inner, false), scan.visited)
    ensures r.Malformed? ==> exists id :: id in scan.visited && id in g && !BlockScannable(t, g[id])
  {
    scan := new Scan(g, t, stop);
    r := scan.ScanBlock(inner, false);
  }

  lemma {:induction false} ReachableVisited(g: Graph, t: Tables, stop: Option<Id>, r: Record, path: seq<Visit>)
    requires NewFinished(g, t, stop, NOTHING, r) && Way(g, t, stop, path) && path[0].id in r.visited
    ensures path[|path| - 1].id in r.visited
  {
    hide BlockMarks, BlockScannable, Inners;
    if |path| > 1 {
      var front := path[..|path| - 1];
      ReachableVisited(g, t, stop, r, front);
      var (last, next) := (front[|front| - 1], path[|path| - 1]);
      assert New(NOTHING, r, last.id) && Finished(g, t, stop, r, last.id);
      assert path[|front| - 1] == last && path[|front|] == next && Edge(g, t, last, next);
      assert Some(next.id) in Targets(g[last.id]);
    }
  }

  // A block reached from the first one.
  ghost predicate ReachedBlock(g: Graph, t: Tables, stop: Option<Id>, inner: Option<Id>, v: Visit) {
    v.id in g && FromSome(g, t, stop, EntryOf(inner, false), v)
  }

  lemma ReachedIsFinished(g: Graph, t: Tables, stop: Option<Id>, inner: Option<Id>, r: Record, v: Visit)
    requires Completed(g, t, stop, inner, r) && ReachedBlock(g, t, stop, inner, v)
    ensures v.id in r.visited && Finished(g, t, stop, r, v.id)
  {
    hide BlockMarks, BlockScannable, Targets, NewMarked, NewReached;
    var e :| e in EntryOf(inner, false) && Leads(g, t, stop, e, v);
    var path :| WayTo(g, t, stop, path, e, v);
    ReachableVisited(g, t, stop, r, path);
    assert New(NOTHING, r, v.id);
  }

  lemma MarkSource(g: Graph, t: Tables, stop: Option<Id>, inner: Option<Id>, r: Record, m: Mark) returns (v: Visit)
    requires Completed(g, t, stop, inner, r) && m in r.marks
    ensures ReachedBlock(g, t, stop, inner, v) && m in BlockMarks(t, g[v.id], v.gpu)
  {
    hide BlockMarks, FromSome, NewFinished;
    var id :| MarkedBy(g, t, NOTHING, r, id, m);
    assert New(NOTHING, r, id);
    v := Visit(id, r.flags[id]);
  }

  // A completed scan met every reachable block, so at most 1024 blocks are
  // reachable.
  lemma BudgetBounds(g: Graph, t: Tables, stop: Option<Id>, inner: Option<Id>, r: Record, blocks: set<Visit>)
    requires Completed(g, t, stop, inner, r)
    requires forall v :: v in blocks ==> ReachedBlock(g, t, stop, inner, v)
    ensures |set v | v in blocks :: v.id| <= 1024
  {
    hide Completed, Finished, ReachedBlock;
    var ids := set v | v in blocks :: v.id;
    forall id | id in ids ensures id in r.visited {
      var v :| v in blocks && v.id == id;
      ReachedIsFinished(g, t, stop, inner, r, v);
    }
    WithinVisited(r.visited, ids);
    assert |r.visited| <= MAX_VISITED by { CompletedBudget(g, t, stop, inner, r); }
  }

  lemma CompletedBudget(g: Graph, t: Tables, stop: Option<Id>, inner: Option<Id>, r: Record)
    requires Completed(g, t, stop, inner, r)
    ensures |r.visited| <= MAX_VISITED
  {
  }

  lemma {:induction false} WithinVisited(visited: seq<Id>, ids: set<Id>)
    requires forall id :: id in ids ==> id in visited
    ensures |ids| <= |visited|
    decreases |visited|
  {
    if visited != [] {
      var (front, last) := (visited[..|visited| - 1], visited[|visited| - 1]);
      WithinVisited(front, ids - {last});
      if last in ids {
        assert ids == (ids - {last}) + {last};
      } else {
        assert ids - {last} == ids;
      }
    } else {
      assert ids == {};
    }
  }

  // A scan that runs out of budget has more than 1024 reachable blocks.
  lemma OverrunMeans(g: Graph, t: Tables, stop: Option<Id>, inner: Option<Id>, r: Record) returns (blocks: seq<Visit>)
    requires Extends(g, t, stop, EntryOf(inner, false), NOTHING, r) && Distinct(r.visited)
    requires Overrun(g, t, stop, EntryOf(inner, false), r.visited)
    ensures |blocks| == 1025
    ensures forall i, j :: 0 <= i < j < |blocks| ==> blocks[i].id != blocks[j].id
    ensures forall v :: v in blocks ==> FromSome(g, t, stop, EntryOf(inner, false), v)
  {
    hide FromSome;
    var missed :| Missed(g, t, stop, EntryOf(inner, false), r.visited, missed);
    forall id | id in r.visited ensures id in r.flags && FromSome(g, t, stop, EntryOf(inner, false), Visit(id, r.flags[id])) {
      assert New(NOTHING, r, id);
    }
    var met := seq(|r.visited|, (i: nat) requires i < |r.visited| && r.visited[i] in r.flags => Visit(r.visited[i], r.flags[r.visited[i]]));
    blocks := met + [missed];
  }
}
