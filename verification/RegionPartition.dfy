// Partition of a function's top-level loops into regions: consecutive loops
// with nothing observable between them become the kernels of one dispatch.

module RegionPartition {
  import opened Lowering
  import opened Words

  const MAX_VISITED: nat := 1024
  const MAX_KERNELS: nat := 32

  type Id = nat

  // A statement and its right-hand side, by name.
  datatype Statement = Statement(name: nat, rhs: nat)

  // stmts are the statements of a BASIC block.
  datatype Kind = Basic(stmts: seq<Statement>) | RangedFor | OtherFor | OtherKind

  datatype Block = Block(kind: Kind, succ: Option<Id>, own: bool)

  type Graph = map<Id, Block>

  ghost predicate Closed(g: Graph) {
    forall id :: id in g && g[id].succ.Some? ==> g[id].succ.value in g
  }

  datatype Span = Span(first: nat, count: nat) {
    predicate Has(i: nat) { first <= i < first + count }
  }

  // ------------------------------------------------------------------
  // The partition of a row of blocks
  // ------------------------------------------------------------------

  // What a block is to the partition: a loop, a boundary, or nothing.
  datatype Item = LoopItem | Boundary | Silent

  // at: the positions of the loops met; open: the last region is not closed.
  datatype Fold = Fold(at: seq<nat>, closed: seq<Span>, open: bool, first: nat)

  function FoldStep(f: Fold, item: Item, position: nat): Fold {
    match item
    case LoopItem => f.(at := f.at + [position], open := true, first := if f.open then f.first else |f.at|)
    case Boundary =>
      if f.open && f.first <= |f.at| then f.(closed := f.closed + [Span(f.first, |f.at| - f.first)], open := false)
      else f
    case Silent => f
  }

  function FoldAll(items: seq<Item>): Fold {
    if items == [] then Fold([], [], false, 0)
    else FoldStep(FoldAll(items[..|items| - 1]), items[|items| - 1], |items| - 1)
  }

  // The regions found so far, the open one included.
  function Spans(f: Fold): seq<Span> {
    if f.open && f.first <= |f.at| then f.closed + [Span(f.first, |f.at| - f.first)] else f.closed
  }

  // Consecutive non-empty spans covering 0 .. n - 1, in order.
  ghost predicate Tiles(spans: seq<Span>, n: nat) {
    && (spans == [] <==> n == 0)
    && (spans != [] ==> spans[0].first == 0 && spans[|spans| - 1].first + spans[|spans| - 1].count == n)
    && (forall i :: 0 <= i < |spans| ==> spans[i].count > 0)
    && (forall i :: 0 <= i < |spans| - 1 ==> spans[i].first + spans[i].count == spans[i + 1].first)
  }

  // Loops i and i + 1 are in one region.
  ghost predicate Joined(spans: seq<Span>, i: nat) {
    exists s :: s in spans && s.Has(i) && s.Has(i + 1)
  }

  // No boundary strictly between two positions.
  ghost predicate Clear(items: seq<Item>, from: nat, to: nat) {
    forall r :: from < r < to && r < |items| ==> !items[r].Boundary?
  }

  // at lists the loops of the row, in order.
  ghost predicate Lists(items: seq<Item>, at: seq<nat>) {
    && (forall i :: 0 <= i < |at| ==> at[i] < |items| && items[at[i]].LoopItem?)
    && (forall i, j :: 0 <= i < j < |at| ==> at[i] < at[j])
    && (forall p :: 0 <= p < |items| && items[p].LoopItem? ==> p in at)
  }

  // What a fold knows about the row behind it.
  ghost predicate Folded(items: seq<Item>, f: Fold) {
    && Lists(items, f.at)
    && f.first <= |f.at| && (f.open ==> f.first < |f.at|)
    && Tiles(Spans(f), |f.at|)
    && (f.open <==> f.at != [] && Clear(items, f.at[|f.at| - 1], |items|))
    && JoinsClear(items, f.at, Spans(f), |f.at|)
  }

  // Of the first n loops, neighbours are joined exactly when nothing
  // observable stands between them.
  ghost predicate JoinsClear(items: seq<Item>, at: seq<nat>, spans: seq<Span>, n: nat)
    requires n <= |at|
  {
    forall i: nat :: i + 1 < n ==> (Joined(spans, i) <==> Clear(items, at[i], at[i + 1]))
  }

  lemma {:induction false} TilesCount(spans: seq<Span>, n: nat)
    requires Tiles(spans, n)
    ensures |spans| <= n
    ensures forall s, i: nat :: s in spans && s.Has(i) ==> i < n
  {
    if spans != [] {
      var last := spans[|spans| - 1];
      var front := spans[..|spans| - 1];
      if front != [] {
        assert spans[|spans| - 2].first + spans[|spans| - 2].count == last.first;
        assert Tiles(front, last.first);
        TilesCount(front, last.first);
      }
      assert forall s :: s in spans ==> s in front || s == last;
    }
  }

  lemma ClearSnoc(items: seq<Item>, item: Item, from: nat, to: nat)
    requires to <= |items|
    ensures Clear(items + [item], from, to) <==> Clear(items, from, to)
  {
    assert forall r :: 0 <= r < |items| ==> (items + [item])[r] == items[r];
  }

  lemma ListsSnoc(items: seq<Item>, item: Item, at: seq<nat>)
    requires Lists(items, at)
    ensures Lists(items + [item], if item.LoopItem? then at + [|items|] else at)
  {
    var longer, at' := items + [item], if item.LoopItem? then at + [|items|] else at;
    forall p | 0 <= p < |longer| && longer[p].LoopItem? ensures p in at' {
      if p < |items| {
        assert items[p].LoopItem?;
        assert p in at;
      } else {
        assert at'[|at|] == p;
      }
    }
  }

  lemma JoinedSnoc(closed: seq<Span>, s: Span, i: nat)
    ensures Joined(closed + [s], i) <==> Joined(closed, i) || (s.Has(i) && s.Has(i + 1))
  {
    assert (closed + [s])[|closed|] == s;
    if Joined(closed, i) {
      var x :| x in closed && x.Has(i) && x.Has(i + 1);
      assert x in closed + [s];
    }
    if Joined(closed + [s], i) {
      var x :| x in closed + [s] && x.Has(i) && x.Has(i + 1);
      assert x in closed || x == s;
    }
  }

  // A loop extends the open region.
  lemma ExtendTiles(closed: seq<Span>, first: nat, n: nat)
    requires first < n && Tiles(closed + [Span(first, n - first)], n)
    ensures Tiles(closed + [Span(first, n + 1 - first)], n + 1) && Tiles(closed, first)
  {
    var (before, after) := (closed + [Span(first, n - first)], closed + [Span(first, n + 1 - first)]);
    assert forall i :: 0 <= i < |closed| ==> after[i] == before[i] == closed[i];
    assert before[|closed|] == Span(first, n - first) && after[|closed|] == Span(first, n + 1 - first);
    if closed != [] {
      assert before[|closed| - 1].first + before[|closed| - 1].count == before[|closed|].first;
    }
  }

  // A loop after a boundary starts a region of its own.
  lemma StartTiles(closed: seq<Span>, n: nat)
    requires Tiles(closed, n)
    ensures Tiles(closed + [Span(n, 1)], n + 1)
  {
    var after := closed + [Span(n, 1)];
    assert forall i :: 0 <= i < |closed| ==> after[i] == closed[i];
    assert after[|closed|] == Span(n, 1);
  }

  lemma NoJoinBeyond(spans: seq<Span>, n: nat, i: nat)
    requires Tiles(spans, n) && n <= i + 1
    ensures !Joined(spans, i)
  {
    TilesCount(spans, n);
  }

  lemma OpenLoopSpans(closed: seq<Span>, first: nat, n: nat, before: seq<Span>, after: seq<Span>)
    requires first < n && before == closed + [Span(first, n - first)] && after == closed + [Span(first, n + 1 - first)]
    requires Tiles(before, n)
    ensures Tiles(after, n + 1) && Joined(after, n - 1)
    ensures forall i: nat :: i + 1 < n ==> (Joined(after, i) <==> Joined(before, i))
  {
    ExtendTiles(closed, first, n);
    hide Joined, Tiles;
    JoinedSnoc(closed, Span(first, n + 1 - first), n - 1);
    forall i: nat | i + 1 < n ensures Joined(after, i) <==> Joined(before, i) {
      JoinedSnoc(closed, Span(first, n + 1 - first), i);
      JoinedSnoc(closed, Span(first, n - first), i);
    }
  }

  lemma ClosedLoopSpans(closed: seq<Span>, n: nat)
    requires Tiles(closed, n)
    ensures Tiles(closed + [Span(n, 1)], n + 1)
    ensures forall i: nat :: i + 1 < n ==> (Joined(closed + [Span(n, 1)], i) <==> Joined(closed, i))
    ensures n > 0 ==> !Joined(closed + [Span(n, 1)], n - 1)
  {
    StartTiles(closed, n);
    if n > 0 {
      NoJoinBeyond(closed, n, n - 1);
    }
    hide Joined, Tiles;
    forall i: nat | i < n ensures Joined(closed + [Span(n, 1)], i) <==> Joined(closed, i) {
      JoinedSnoc(closed, Span(n, 1), i);
    }
  }

  // The spans after a loop: tiles again, with the new loop joined to the one
  // before exactly when the region was open.
  lemma LoopSpans(f: Fold, position: nat)
    requires f.first <= |f.at| && (f.open ==> f.first < |f.at|) && Tiles(Spans(f), |f.at|)
    ensures var next := FoldStep(f, LoopItem, position);
      && Tiles(Spans(next), |f.at| + 1) && next.first <= |f.at|
      && (forall i: nat :: i + 1 < |f.at| ==> (Joined(Spans(next), i) <==> Joined(Spans(f), i)))
      && (|f.at| > 0 ==> (Joined(Spans(next), |f.at| - 1) <==> f.open))
  {
    hide Joined, Tiles;
    if f.open {
      OpenLoopSpans(f.closed, f.first, |f.at|, Spans(f), Spans(FoldStep(f, LoopItem, position)));
    } else {
      ClosedLoopSpans(f.closed, |f.at|);
    }
  }

  lemma LoopFolds(items: seq<Item>, f: Fold)
    requires Folded(items, f)
    ensures Folded(items + [LoopItem], FoldStep(f, LoopItem, |items|))
  {
    hide Joined, Tiles, Lists, Spans, Clear;
    var (longer, next, n) := (items + [LoopItem], FoldStep(f, LoopItem, |items|), |f.at|);
    ListsSnoc(items, LoopItem, f.at);
    ListsBound(items, f.at);
    LoopSpans(f, |items|);
    if n > 0 {
      ClearSnoc(items, LoopItem, f.at[n - 1], |items|);
    }
    forall i: nat | i + 1 < n ensures Clear(longer, f.at[i], f.at[i + 1]) <==> Clear(items, f.at[i], f.at[i + 1]) {
      ClearSnoc(items, LoopItem, f.at[i], f.at[i + 1]);
    }
    ClearEmpty(longer, |items|);
  }

  lemma ClearEmpty(items: seq<Item>, from: nat)
    ensures Clear(items, from, from + 1)
  {
  }

  lemma ListsBound(items: seq<Item>, at: seq<nat>)
    requires Lists(items, at)
    ensures forall i :: 0 <= i < |at| ==> at[i] < |items|
  {
  }

  lemma ClearExtend(items: seq<Item>, item: Item, from: nat)
    requires from < |items|
    ensures Clear(items + [item], from, |items| + 1) <==> Clear(items, from, |items|) && !item.Boundary?
  {
    var longer := items + [item];
    assert longer[|items|] == item && forall r :: 0 <= r < |items| ==> longer[r] == items[r];
  }

  lemma QuietFolds(items: seq<Item>, f: Fold, item: Item)
    requires Folded(items, f) && !item.LoopItem?
    ensures Folded(items + [item], FoldStep(f, item, |items|))
  {
    hide Joined, Tiles, Lists, Clear;
    var (longer, n) := (items + [item], |f.at|);
    ListsSnoc(items, item, f.at);
    ListsBound(items, f.at);
    if n > 0 {
      ClearExtend(items, item, f.at[n - 1]);
    }
    forall i: nat | i + 1 < n ensures Clear(longer, f.at[i], f.at[i + 1]) <==> Clear(items, f.at[i], f.at[i + 1]) {
      ClearSnoc(items, item, f.at[i], f.at[i + 1]);
    }
  }

  // The partition of every row: its regions tile the loops in order, and two
  // neighbouring loops share one exactly when no boundary stands between.
  lemma {:induction false} PartitionMeaning(items: seq<Item>)
    ensures Folded(items, FoldAll(items))
  {
    hide Folded, FoldStep;
    if items == [] {
      EmptyFolds();
    } else {
      var front, last := items[..|items| - 1], items[|items| - 1];
      PartitionMeaning(front);
      assert front + [last] == items;
      if last.LoopItem? {
        LoopFolds(front, FoldAll(front));
      } else {
        QuietFolds(front, FoldAll(front), last);
      }
    }
  }

  lemma EmptyFolds()
    ensures Folded([], Fold([], [], false, 0))
  {
  }

  // ------------------------------------------------------------------
  // Rows of blocks
  // ------------------------------------------------------------------

  function PlainItem(b: Block): Item {
    match b.kind
    case Basic(stmts) => if stmts == [] then Silent else Boundary
    case RangedFor => LoopItem
    case _ => Silent
  }

  function PlainItems(g: Graph, chain: seq<Id>): (r: seq<Item>)
    requires forall id :: id in chain ==> id in g
    ensures |r| == |chain| && forall p :: 0 <= p < |chain| ==> r[p] == PlainItem(g[chain[p]])
  {
    seq(|chain|, (p: nat) requires p < |chain| => PlainItem(g[chain[p]]))
  }

  function LoopIds(g: Graph, chain: seq<Id>): seq<Id>
    requires forall id :: id in chain ==> id in g
  {
    if chain == [] then []
    else
      var last := chain[|chain| - 1];
      LoopIds(g, chain[..|chain| - 1]) + (if g[last].kind.RangedFor? then [last] else [])
  }

  // The block is the sole-statement initializer validated for loop k.
  predicate Transparent(g: Graph, id: Id, inits: seq<Option<Id>>, k: nat)
    requires id in g
  {
    k < |inits| && inits[k] == Some(id) && g[id].kind.Basic? && |g[id].kind.stmts| == 1
  }

  // The block is an item of its own unless transparent; k loops come before.
  function RebuiltItem(g: Graph, id: Id, inits: seq<Option<Id>>, k: nat): Item
    requires id in g
  {
    if PlainItem(g[id]).Boundary? && Transparent(g, id, inits, k) then Silent else PlainItem(g[id])
  }

  // The same row once initializers of reductions are transparent.
  function RebuiltItems(g: Graph, chain: seq<Id>, inits: seq<Option<Id>>): (r: seq<Item>)
    requires forall id :: id in chain ==> id in g
    ensures |r| == |chain|
  {
    if chain == [] then []
    else
      var (front, last) := (chain[..|chain| - 1], chain[|chain| - 1]);
      RebuiltItems(g, front, inits) + [RebuiltItem(g, last, inits, |LoopIds(g, front)|)]
  }

  lemma {:induction false} RebuiltAt(g: Graph, chain: seq<Id>, inits: seq<Option<Id>>, p: nat)
    requires p < |chain| && forall id :: id in chain ==> id in g
    ensures forall id :: id in chain[..p] ==> id in g
    ensures RebuiltItems(g, chain, inits)[p] == RebuiltItem(g, chain[p], inits, |LoopIds(g, chain[..p])|)
  {
    var front := chain[..|chain| - 1];
    if p < |front| {
      RebuiltAt(g, front, inits, p);
      assert front[..p] == chain[..p];
    }
  }

  lemma {:induction false} SamePositions(a: seq<Item>, b: seq<Item>)
    requires |a| == |b| && forall p :: 0 <= p < |a| ==> (a[p].LoopItem? <==> b[p].LoopItem?)
    ensures FoldAll(a).at == FoldAll(b).at
  {
    if a != [] {
      SamePositions(a[..|a| - 1], b[..|b| - 1]);
    }
  }

  lemma {:induction false} LoopCount(g: Graph, chain: seq<Id>)
    requires forall id :: id in chain ==> id in g
    ensures |FoldAll(PlainItems(g, chain)).at| == |LoopIds(g, chain)|
    ensures forall k :: 0 <= k < |LoopIds(g, chain)| ==>
      FoldAll(PlainItems(g, chain)).at[k] < |chain| && chain[FoldAll(PlainItems(g, chain)).at[k]] == LoopIds(g, chain)[k]
  {
    if chain != [] {
      var front := chain[..|chain| - 1];
      LoopCount(g, front);
      assert PlainItems(g, chain)[..|chain| - 1] == PlainItems(g, front);
    }
  }

  lemma {:induction false} LoopsMonotone(g: Graph, chain: seq<Id>, p: nat)
    requires p <= |chain| && forall id :: id in chain ==> id in g
    ensures forall id :: id in chain[..p] ==> id in g
    ensures LoopIds(g, chain[..p]) <= LoopIds(g, chain)
  {
    if p < |chain| {
      var front := chain[..|chain| - 1];
      assert front[..p] == chain[..p];
      LoopsMonotone(g, front, p);
    } else {
      assert chain[..p] == chain;
    }
  }

  // ------------------------------------------------------------------
  // Walking the graph
  // ------------------------------------------------------------------

  // The n-th pointer of the walk from `inner`.
  function Pointer(g: Graph, inner: Option<Id>, n: nat): Option<Id> {
    if n == 0 then inner
    else
      match Pointer(g, inner, n - 1)
      case None => None
      case Some(id) => if id in g then g[id].succ else None
  }

  predicate Distinct(chain: seq<Id>) { forall i, j :: 0 <= i < j < |chain| ==> chain[i] != chain[j] }

  ghost predicate Walked(g: Graph, inner: Option<Id>, stop: Option<Id>, chain: seq<Id>) {
    forall p :: 0 <= p < |chain| ==> Pointer(g, inner, p) == Some(chain[p]) && Some(chain[p]) != stop && chain[p] in g
  }

  predicate Usable(b: Block) { b.own && (b.kind.Basic? || b.kind.RangedFor?) }

  // A function's top level the compiler accepts: an acyclic chain of at most
  // 1024 own BASIC and ranged FOR blocks with between 1 and 32 loops.
  ghost predicate Acceptable(g: Graph, inner: Option<Id>, stop: Option<Id>, chain: seq<Id>) {
    && Walked(g, inner, stop, chain)
    && (Pointer(g, inner, |chain|).None? || Pointer(g, inner, |chain|) == stop)
    && Distinct(chain) && |chain| <= MAX_VISITED
    && (forall id :: id in chain ==> id in g)
    && (forall id :: id in chain ==> Usable(g[id]))
    && 1 <= |LoopIds(g, chain)| <= MAX_KERNELS
  }

  lemma StillWalking(g: Graph, inner: Option<Id>, stop: Option<Id>, visited: seq<Id>, p: nat)
    requires Walked(g, inner, stop, visited) && p < |visited|
    ensures Pointer(g, inner, p) == Some(visited[p]) && Pointer(g, inner, p) != stop
  {
    hide Pointer;
  }

  lemma NotBeyond(g: Graph, inner: Option<Id>, stop: Option<Id>, visited: seq<Id>, end: nat)
    requires Walked(g, inner, stop, visited)
    requires Pointer(g, inner, end).None? || Pointer(g, inner, end) == stop
    ensures |visited| <= end
  {
    hide Pointer, Walked;
    if end < |visited| {
      StillWalking(g, inner, stop, visited, end);
      assert false;
    }
  }

  lemma AgreeUpTo(g: Graph, inner: Option<Id>, stop: Option<Id>, a: seq<Id>, b: seq<Id>)
    requires Walked(g, inner, stop, a) && Walked(g, inner, stop, b) && |a| <= |b|
    ensures b[..|a|] == a
  {
    hide Pointer;
    forall p | 0 <= p < |a| ensures a[p] == b[p] {
      assert Pointer(g, inner, p) == Some(a[p]);
    }
  }

  // While the walk goes on, every acceptable chain continues it.
  lemma ChainContinues(g: Graph, inner: Option<Id>, stop: Option<Id>, visited: seq<Id>, id: Id, chain: seq<Id>)
    requires Walked(g, inner, stop, visited) && Pointer(g, inner, |visited|) == Some(id) && Some(id) != stop && id in g
    requires Acceptable(g, inner, stop, chain)
    ensures |chain| > |visited| && chain[..|visited|] == visited && chain[|visited|] == id
  {
    hide Acceptable, Pointer, Walked;
    ChainEnds(g, inner, stop, chain);
    WalkedNext(g, inner, stop, visited, id);
    NotBeyond(g, inner, stop, visited + [id], |chain|);
    AgreeUpTo(g, inner, stop, visited + [id], chain);
    assert chain[..|visited|] == chain[..|visited| + 1][..|visited|] == visited;
  }

  lemma WalkedNext(g: Graph, inner: Option<Id>, stop: Option<Id>, visited: seq<Id>, id: Id)
    requires Walked(g, inner, stop, visited) && Pointer(g, inner, |visited|) == Some(id) && Some(id) != stop && id in g
    ensures Walked(g, inner, stop, visited + [id]) && Pointer(g, inner, |visited| + 1) == g[id].succ
  {
  }

  lemma ChainEnds(g: Graph, inner: Option<Id>, stop: Option<Id>, chain: seq<Id>)
    requires Acceptable(g, inner, stop, chain)
    ensures Walked(g, inner, stop, chain)
    ensures Pointer(g, inner, |chain|).None? || Pointer(g, inner, |chain|) == stop
  {
  }

  datatype Found = Found(chain: seq<Id>, loops: seq<Id>, spans: seq<Span>)

  ghost predicate Walking(g: Graph, inner: Option<Id>, stop: Option<Id>, visited: seq<Id>) {
    && Walked(g, inner, stop, visited) && Distinct(visited) && |visited| <= MAX_VISITED
    && (forall id :: id in visited ==> id in g)
    && (forall id :: id in visited ==> Usable(g[id]))
    && |LoopIds(g, visited)| <= MAX_KERNELS
  }

  ghost predicate FoundIn(g: Graph, inner: Option<Id>, stop: Option<Id>, f: Found) {
    && Acceptable(g, inner, stop, f.chain)
    && f.loops == LoopIds(g, f.chain)
    && f.spans == Spans(FoldAll(PlainItems(g, f.chain)))
  }

  // The top levels the walk accepts, block by block.
  lemma AcceptableMeans(g: Graph, inner: Option<Id>, stop: Option<Id>, chain: seq<Id>)
    requires Acceptable(g, inner, stop, chain)
    ensures |chain| <= 1024 && 1 <= |LoopIds(g, chain)| <= 32
    ensures forall i :: 0 <= i < |chain| ==> chain[i] in g && g[chain[i]].own && (g[chain[i]].kind.Basic? || g[chain[i]].kind.RangedFor?)
    ensures chain != [] ==> inner == Some(chain[0])
    ensures forall i :: 0 <= i < |chain| - 1 ==> g[chain[i]].succ == Some(chain[i + 1])
    ensures forall i, j :: 0 <= i < j < |chain| ==> chain[i] != chain[j]
  {
    hide LoopIds;
    forall i | 0 <= i < |chain| ensures chain[i] in g && Usable(g[chain[i]]) {
      assert chain[i] in chain;
    }
    forall i | 0 <= i < |chain| - 1 ensures g[chain[i]].succ == Some(chain[i + 1]) {
      assert Pointer(g, inner, i) == Some(chain[i]) && Pointer(g, inner, i + 1) == Some(chain[i + 1]);
    }
    assert chain != [] ==> Pointer(g, inner, 0) == Some(chain[0]);
  }

  // No block strictly between two positions has a statement.
  ghost predicate NoStatements(g: Graph, chain: seq<Id>, from: nat, to: nat)
    requires forall id :: id in chain ==> id in g
  {
    forall p :: from < p < to && p < |chain| && g[chain[p]].kind.Basic? ==> g[chain[p]].kind.stmts == []
  }

  // The regions of the first walk tile the ranged loops of the chain in
  // order, and two neighbours share one exactly when every block between
  // them is free of statements.
  lemma FoundMeaning(g: Graph, inner: Option<Id>, stop: Option<Id>, f: Found) returns (at: seq<nat>)
    requires FoundIn(g, inner, stop, f)
    ensures forall id :: id in f.chain ==> id in g
    ensures |at| == |f.loops| && Tiles(f.spans, |f.loops|)
    ensures forall i, j :: 0 <= i < j < |at| ==> at[i] < at[j]
    ensures forall k :: 0 <= k < |at| ==> at[k] < |f.chain| && f.chain[at[k]] == f.loops[k]
    ensures forall p: nat :: p in at <==> p < |f.chain| && g[f.chain[p]].kind.RangedFor?
    ensures forall i: nat :: i + 1 < |at| ==> (Joined(f.spans, i) <==> NoStatements(g, f.chain, at[i], at[i + 1]))
  {
    hide FoldAll, Tiles, Joined, Pointer, Walked, Spans, LoopIds;
    var items := PlainItems(g, f.chain);
    PartitionMeaning(items);
    LoopCount(g, f.chain);
    at := FoldAll(items).at;
    forall p | 0 <= p < |f.chain|
      ensures (items[p].LoopItem? <==> g[f.chain[p]].kind.RangedFor?)
        && (items[p].Boundary? <==> g[f.chain[p]].kind.Basic? && g[f.chain[p]].kind.stmts != [])
    {
      assert items[p] == PlainItem(g[f.chain[p]]);
    }
    forall p: nat | p in at ensures p < |f.chain| && g[f.chain[p]].kind.RangedFor? {
      var k :| 0 <= k < |at| && at[k] == p;
    }
  }

  // What stops the walk at the next block, in the order of the checks.
  function Obstacle(g: Graph, visited: seq<Id>, id: Id): Option<Failure>
    requires id in g && forall x :: x in visited ==> x in g
  {
    if id in visited then Some(HardError)
    else if |visited| >= MAX_VISITED then Some(Declined(Limit))
    else if !g[id].own then Some(HardError)
    else match g[id].kind
      case Basic(_) => None
      case RangedFor => if |LoopIds(g, visited)| >= MAX_KERNELS then Some(Declined(Limit)) else None
      case _ => Some(Declined(ControlFlow))
  }

  // The walk passes the blocks of visited and then fails: at the next block,
  // or at the end of a chain without loops.
  ghost predicate StopsWith(g: Graph, inner: Option<Id>, stop: Option<Id>, visited: seq<Id>, error: Failure) {
    && Walking(g, inner, stop, visited)
    && (match Pointer(g, inner, |visited|)
        case Some(id) =>
          if Some(id) == stop then LoopIds(g, visited) == [] && error == Declined(NotDoall)
          else id in g && Obstacle(g, visited, id) == Some(error)
        case None => LoopIds(g, visited) == [] && error == Declined(NotDoall))
  }

  // Why the walk fails: no loop at its end, a cycle or a foreign block, a
  // limit, or a block of another kind.
  lemma StopReasons(g: Graph, inner: Option<Id>, stop: Option<Id>, visited: seq<Id>, error: Failure)
    requires StopsWith(g, inner, stop, visited, error)
    ensures var next := Pointer(g, inner, |visited|);
      var ended := next.None? || next == stop;
      && (ended <==> error == Declined(NotDoall)) && (ended ==> LoopIds(g, visited) == [])
      && (!ended ==>
           var (again, b) := (next.value in visited, g[next.value]);
           && (error == HardError <==> again || (|visited| < 1024 && !b.own))
           && (error == Declined(Limit) <==>
                !again && (|visited| == 1024 || (b.own && b.kind.RangedFor? && |LoopIds(g, visited)| == 32)))
           && (error == Declined(ControlFlow) <==>
                !again && |visited| < 1024 && b.own && !b.kind.Basic? && !b.kind.RangedFor?))
  {
    hide Pointer, LoopIds, Walked;
  }

  // Walks the top-level chain, collecting loops and the regions between
  // statements.
  method FindLoops(g: Graph, inner: Option<Id>, stop: Option<Id>) returns (r: Status<Found>)
    requires Closed(g) && (inner.Some? ==> inner.value in g)
    ensures r.Success? ==> FoundIn(g, inner, stop, r.value)
    ensures r.Failure? ==> forall chain :: !Acceptable(g, inner, stop, chain)
    ensures r.Failure? ==> exists visited :: StopsWith(g, inner, stop, visited, r.error)
  {
    hide Pointer, Acceptable, FoldAll, LoopIds, FoldStep;
    var visited: seq<Id> := [];
    var loops: seq<Id> := [];
    var fold := Fold([], [], false, 0);
    var block := inner;
    EmptyWalk(g, inner, stop);
    while block.Some? && block != stop
      invariant Walking(g, inner, stop, visited) && block == Pointer(g, inner, |visited|)
      invariant loops == LoopIds(g, visited)
      invariant fold == FoldAll(PlainItems(g, visited))
      invariant block.Some? ==> block.value in g
      decreases MAX_VISITED - |visited|
    {
      var id := block.value;
      var b := g[id];
      var failure: Option<Failure> := None;
      if id in visited {
        failure := Some(HardError);
      } else if |visited| >= MAX_VISITED {
        failure := Some(Declined(Limit));
      } else if !b.own {
        failure := Some(HardError);
      } else if b.kind.RangedFor? {
        if |loops| >= MAX_KERNELS { failure := Some(Declined(Limit)); }
      } else if !b.kind.Basic? {
        failure := Some(Declined(ControlFlow));
      }
      if failure.Some? {
        NoneContinues(g, inner, stop, visited, id);
        assert StopsWith(g, inner, stop, visited, failure.value);
        return Status.Failure(failure.value);
      }
      Advance(g, inner, stop, visited, id);
      fold := FoldStep(fold, PlainItem(b), |visited|);
      if b.kind.RangedFor? { loops := loops + [id]; }
      visited := visited + [id];
      block := b.succ;
    }
    if loops == [] {
      NoneWithoutLoops(g, inner, stop, visited);
      assert StopsWith(g, inner, stop, visited, Declined(NotDoall));
      return Decline(NotDoall);
    }
    Finished(g, inner, stop, visited);
    return Success(Found(visited, loops, Spans(fold)));
  }

  // A longer walk met no obstacle at the next block.
  lemma NoObstacle(g: Graph, inner: Option<Id>, stop: Option<Id>, visited: seq<Id>, longer: seq<Id>)
    requires Walking(g, inner, stop, visited) && Walking(g, inner, stop, longer) && |visited| < |longer|
    ensures var id := longer[|visited|];
      Pointer(g, inner, |visited|) == Some(id) && Some(id) != stop && id in g && Obstacle(g, visited, id).None?
  {
    hide Pointer;
    AgreeUpTo(g, inner, stop, visited, longer);
    var n := |visited|;
    assert longer[n] in longer && Usable(g[longer[n]]);
    assert longer[..n + 1][..n] == visited;
    LoopsMonotone(g, longer, n + 1);
    forall i | 0 <= i < n ensures visited[i] != longer[n] {
      assert visited[i] == longer[i];
    }
  }

  // So a chain is rejected for one reason only.
  lemma FailureUnique(g: Graph, inner: Option<Id>, stop: Option<Id>, v1: seq<Id>, e1: Failure, v2: seq<Id>, e2: Failure)
    requires StopsWith(g, inner, stop, v1, e1) && StopsWith(g, inner, stop, v2, e2)
    ensures v1 == v2 && e1 == e2
  {
    hide Pointer, LoopIds, Obstacle;
    if |v1| < |v2| {
      NoObstacle(g, inner, stop, v1, v2);
      assert false;
    } else if |v2| < |v1| {
      NoObstacle(g, inner, stop, v2, v1);
      assert false;
    } else {
      AgreeUpTo(g, inner, stop, v1, v2);
      assert v1 == v2;
    }
  }

  lemma EmptyWalk(g: Graph, inner: Option<Id>, stop: Option<Id>)
    ensures Walking(g, inner, stop, []) && Pointer(g, inner, 0) == inner
    ensures LoopIds(g, []) == [] && FoldAll(PlainItems(g, [])) == Fold([], [], false, 0)
  {
  }

  lemma AdvanceLoops(g: Graph, visited: seq<Id>, id: Id)
    requires id in g && forall x :: x in visited ==> x in g
    ensures forall x :: x in visited + [id] ==> x in g
    ensures LoopIds(g, visited + [id]) == LoopIds(g, visited) + (if g[id].kind.RangedFor? then [id] else [])
  {
    assert (visited + [id])[..|visited|] == visited;
  }

  lemma AdvanceRow(g: Graph, visited: seq<Id>, id: Id)
    requires id in g && forall x :: x in visited ==> x in g
    ensures forall x :: x in visited + [id] ==> x in g
    ensures FoldAll(PlainItems(g, visited + [id])) == FoldStep(FoldAll(PlainItems(g, visited)), PlainItem(g[id]), |visited|)
  {
    hide FoldStep, PlainItem;
    assert PlainItems(g, visited + [id])[..|visited|] == PlainItems(g, visited);
  }

  lemma Advance(g: Graph, inner: Option<Id>, stop: Option<Id>, visited: seq<Id>, id: Id)
    requires Closed(g) && Walking(g, inner, stop, visited) && Pointer(g, inner, |visited|) == Some(id) && Some(id) != stop && id in g
    requires id !in visited && |visited| < MAX_VISITED && Usable(g[id])
    requires g[id].kind.RangedFor? ==> |LoopIds(g, visited)| < MAX_KERNELS
    ensures Walking(g, inner, stop, visited + [id]) && Pointer(g, inner, |visited| + 1) == g[id].succ
    ensures LoopIds(g, visited + [id]) == LoopIds(g, visited) + (if g[id].kind.RangedFor? then [id] else [])
    ensures FoldAll(PlainItems(g, visited + [id])) == FoldStep(FoldAll(PlainItems(g, visited)), PlainItem(g[id]), |visited|)
    ensures g[id].succ.Some? ==> g[id].succ.value in g
  {
    hide FoldStep, FoldAll, LoopIds, Walked, PlainItems, Pointer, PlainItem, Usable;
    AdvanceLoops(g, visited, id);
    AdvanceRow(g, visited, id);
    WalkedNext(g, inner, stop, visited, id);
  }

  lemma Finished(g: Graph, inner: Option<Id>, stop: Option<Id>, visited: seq<Id>)
    requires Walking(g, inner, stop, visited) && LoopIds(g, visited) != []
    requires Pointer(g, inner, |visited|).None? || Pointer(g, inner, |visited|) == stop
    ensures Acceptable(g, inner, stop, visited)
  {
  }

  lemma NoneContinues(g: Graph, inner: Option<Id>, stop: Option<Id>, visited: seq<Id>, id: Id)
    requires Walking(g, inner, stop, visited) && Pointer(g, inner, |visited|) == Some(id) && Some(id) != stop && id in g
    requires id in visited || |visited| >= MAX_VISITED || !Usable(g[id])
      || (g[id].kind.RangedFor? && |LoopIds(g, visited)| >= MAX_KERNELS)
    ensures forall chain :: !Acceptable(g, inner, stop, chain)
  {
    hide Acceptable, Pointer, Walked, LoopIds;
    forall chain ensures !Acceptable(g, inner, stop, chain) {
      if Acceptable(g, inner, stop, chain) {
        Rejected(g, inner, stop, visited, id, chain);
        assert false;
      }
    }
  }

  lemma NoneWithoutLoops(g: Graph, inner: Option<Id>, stop: Option<Id>, visited: seq<Id>)
    requires Walking(g, inner, stop, visited) && LoopIds(g, visited) == []
    requires Pointer(g, inner, |visited|).None? || Pointer(g, inner, |visited|) == stop
    ensures forall chain :: !Acceptable(g, inner, stop, chain)
  {
    hide Pointer, Walked;
    forall chain ensures !Acceptable(g, inner, stop, chain) {
      if Acceptable(g, inner, stop, chain) {
        SameChain(g, inner, stop, visited, chain);
        assert false;
      }
    }
  }

  lemma Rejected(g: Graph, inner: Option<Id>, stop: Option<Id>, visited: seq<Id>, id: Id, chain: seq<Id>)
    requires Walked(g, inner, stop, visited) && Pointer(g, inner, |visited|) == Some(id) && Some(id) != stop && id in g
    requires Acceptable(g, inner, stop, chain)
    ensures id !in visited && |visited| < MAX_VISITED && Usable(g[id])
    ensures forall x :: x in visited ==> x in g
    ensures g[id].kind.RangedFor? ==> |LoopIds(g, visited)| < MAX_KERNELS
  {
    hide Pointer;
    ChainContinues(g, inner, stop, visited, id, chain);
    var n := |visited|;
    assert chain[n] == id && id in chain;
    forall i | 0 <= i < n ensures visited[i] != id {
      assert chain[i] == visited[i];
    }
    LoopsMonotone(g, chain, n + 1);
    assert chain[..n + 1][..n] == visited;
  }

  lemma SameChain(g: Graph, inner: Option<Id>, stop: Option<Id>, visited: seq<Id>, chain: seq<Id>)
    requires Walked(g, inner, stop, visited)
    requires Pointer(g, inner, |visited|).None? || Pointer(g, inner, |visited|) == stop
    requires Acceptable(g, inner, stop, chain)
    ensures chain == visited
  {
    hide Acceptable, Pointer, Walked;
    ChainEnds(g, inner, stop, chain);
    NotBeyond(g, inner, stop, visited, |chain|);
    NotBeyond(g, inner, stop, chain, |visited|);
    AgreeUpTo(g, inner, stop, visited, chain);
  }

  // ------------------------------------------------------------------
  // Rebuilding after the reductions' initializers are known
  // ------------------------------------------------------------------

  datatype DeclarationKind = Parameter | Let | Var | LoopCounter | Synthetic | UnknownKind

  // A local's declaring statement and initializing expression, if any.
  datatype Declared = Declared(kind: DeclarationKind, statement: Option<nat>, initializer: Option<nat>)

  // An own BASIC block whose last statement is the one given.
  predicate EndsWith(b: Block, statement: nat, rhs: nat) {
    b.own && b.kind.Basic? && |b.kind.stmts| > 0
    && b.kind.stmts[|b.kind.stmts| - 1].name == statement && b.kind.stmts[|b.kind.stmts| - 1].rhs == rhs
  }

  // The first block of the chain that leads to the loop.
  ghost predicate Precedes(g: Graph, chain: seq<Id>, p: nat, loop: Id) {
    && p < |chain| && chain[p] in g && g[chain[p]].succ == Some(loop)
    && forall q :: 0 <= q < p && chain[q] in g ==> g[chain[q]].succ != Some(loop)
  }

  // The walk up to the first block that leads to the loop.
  method Predecessor(g: Graph, inner: Option<Id>, stop: Option<Id>, loop: Id, ghost chain: seq<Id>)
    returns (block: Option<Id>, ghost p: nat)
    requires Closed(g) && Acceptable(g, inner, stop, chain)
    ensures block.Some? ==> Precedes(g, chain, p, loop) && chain[p] == block.value
    ensures block.None? ==> forall q: nat :: !Precedes(g, chain, q, loop)
  {
    hide Pointer, Acceptable;
    ChainEnds(g, inner, stop, chain);
    block := inner;
    p := 0;
    PointerStart(g, inner);
    while block.Some? && block != stop
      invariant p <= |chain| && block == Pointer(g, inner, p)
      invariant forall q :: 0 <= q < p && chain[q] in g ==> g[chain[q]].succ != Some(loop)
      decreases |chain| - p
    {
      OnChain(g, inner, stop, chain, p);
      if g[block.value].succ == Some(loop) { return; }
      block := g[block.value].succ;
      p := p + 1;
    }
    AtEnd(g, inner, stop, chain, p);
    assert |chain[..p]| == |chain|;
    block := None;
  }

  // The initializer exists exactly when the accumulator is a mutable local
  // whose initializer is the reduction's identity and the block standing right
  // before the loop is an own BASIC block ending with that declaration; it is
  // then that block.
  method ValidateInitializer(
    g: Graph, inner: Option<Id>, stop: Option<Id>, loop: Id, local: Option<Declared>, identity: nat, ghost chain: seq<Id>)
    returns (initializer: Option<Id>)
    requires Closed(g) && Acceptable(g, inner, stop, chain)
    ensures initializer.Some? <==>
      && local.Some? && local.value.kind == Var && local.value.statement.Some? && local.value.initializer == Some(identity)
      && exists p: nat :: Precedes(g, chain, p, loop) && EndsWith(g[chain[p]], local.value.statement.value, identity)
    ensures initializer.Some? ==> exists p: nat :: Precedes(g, chain, p, loop) && chain[p] == initializer.value
  {
    hide Closed, Acceptable;
    if local.None? || !local.value.kind.Var? || local.value.statement.None? || local.value.initializer != Some(identity) {
      return None;
    }
    ghost var p: nat;
    var block;
    block, p := Predecessor(g, inner, stop, loop, chain);
    if block.None? { return None; }
    forall q: nat ensures Precedes(g, chain, q, loop) <==> q == p {
      if Precedes(g, chain, q, loop) { PrecedesOnce(g, chain, p, q, loop); }
    }
    var b := g[block.value];
    if !b.own || !b.kind.Basic? || |b.kind.stmts| == 0 { return None; }
    var last := b.kind.stmts[|b.kind.stmts| - 1];
    if last.name != local.value.statement.value || last.rhs != identity { return None; }
    return block;
  }

  lemma PrecedesOnce(g: Graph, chain: seq<Id>, p: nat, q: nat, loop: Id)
    requires Precedes(g, chain, p, loop) && Precedes(g, chain, q, loop)
    ensures p == q
  {
  }

  lemma PointerStart(g: Graph, inner: Option<Id>)
    ensures Pointer(g, inner, 0) == inner
  {
  }

  // A walk over an accepted chain stays on it.
  lemma OnChain(g: Graph, inner: Option<Id>, stop: Option<Id>, chain: seq<Id>, p: nat)
    requires Acceptable(g, inner, stop, chain) && p <= |chain|
    requires Pointer(g, inner, p).Some? && Pointer(g, inner, p) != stop
    ensures p < |chain| && Pointer(g, inner, p) == Some(chain[p]) && chain[p] in g && Usable(g[chain[p]])
    ensures Pointer(g, inner, p + 1) == g[chain[p]].succ
  {
    if p < |chain| {
      assert chain[p] in chain;
    }
  }

  // The regions known after p blocks of the chain.
  ghost predicate RebuiltUpTo(g: Graph, chain: seq<Id>, inits: seq<Option<Id>>, p: nat, fold: Fold)
    requires p <= |chain|
  {
    && (forall id :: id in chain[..p] ==> id in g)
    && fold == FoldAll(RebuiltItems(g, chain[..p], inits))
    && |fold.at| == |LoopIds(g, chain[..p])|
    && |fold.closed| + (if fold.open then 1 else 0) <= |fold.at|
  }

  lemma RebuildStart(g: Graph, chain: seq<Id>, inits: seq<Option<Id>>)
    ensures RebuiltUpTo(g, chain, inits, 0, Fold([], [], false, 0))
  {
    assert chain[..0] == [];
  }

  lemma RebuiltLoops(g: Graph, chain: seq<Id>, inits: seq<Option<Id>>)
    requires forall id :: id in chain ==> id in g
    ensures |FoldAll(RebuiltItems(g, chain, inits)).at| == |LoopIds(g, chain)|
    ensures FoldAll(RebuiltItems(g, chain, inits)).at == FoldAll(PlainItems(g, chain)).at
  {
    hide FoldAll;
    forall p | 0 <= p < |chain| ensures RebuiltItems(g, chain, inits)[p].LoopItem? <==> PlainItems(g, chain)[p].LoopItem? {
      RebuiltAt(g, chain, inits, p);
    }
    SamePositions(RebuiltItems(g, chain, inits), PlainItems(g, chain));
    LoopCount(g, chain);
  }

  lemma RebuildNext(g: Graph, chain: seq<Id>, inits: seq<Option<Id>>, p: nat, fold: Fold)
    requires p < |chain| && chain[p] in g && RebuiltUpTo(g, chain, inits, p, fold)
    ensures RebuiltUpTo(g, chain, inits, p + 1, FoldStep(fold, RebuiltItem(g, chain[p], inits, |fold.at|), p))
  {
    hide Transparent, PlainItem;
    var longer := chain[..p + 1];
    assert longer[..p] == chain[..p] && longer[p] == chain[p];
    assert RebuiltItems(g, longer, inits)[..p] == RebuiltItems(g, chain[..p], inits);
    RebuiltLoops(g, longer, inits);
    PartitionMeaning(RebuiltItems(g, longer, inits));
    TilesCount(Spans(FoldAll(RebuiltItems(g, longer, inits))), |FoldAll(RebuiltItems(g, longer, inits)).at|);
  }

  // The loop met next is the next candidate, and there is a region for it.
  lemma CandidateNext(g: Graph, inner: Option<Id>, stop: Option<Id>, chain: seq<Id>, p: nat)
    requires Acceptable(g, inner, stop, chain) && p < |chain| && chain[p] in g && g[chain[p]].kind.RangedFor?
    ensures forall id :: id in chain[..p] ==> id in g
    ensures |LoopIds(g, chain[..p])| < |LoopIds(g, chain)| <= MAX_KERNELS
    ensures LoopIds(g, chain)[|LoopIds(g, chain[..p])|] == chain[p]
  {
    hide Walked, Pointer, Distinct, Usable;
    LoopsMonotone(g, chain, p + 1);
    assert chain[..p + 1][..p] == chain[..p];
  }

  lemma AtEnd(g: Graph, inner: Option<Id>, stop: Option<Id>, chain: seq<Id>, p: nat)
    requires Acceptable(g, inner, stop, chain) && p <= |chain|
    requires Pointer(g, inner, p).None? || Pointer(g, inner, p) == stop
    ensures chain[..p] == chain && |LoopIds(g, chain)| > 0
  {
    hide Pointer, Walked;
    NotBeyond(g, inner, stop, chain, p);
  }

  // What a BASIC block does to the fold.
  lemma BasicStep(fold: Fold, g: Graph, id: Id, inits: seq<Option<Id>>, p: nat)
    requires id in g && g[id].kind.Basic? && (fold.open ==> fold.first <= |fold.at|)
    ensures FoldStep(fold, RebuiltItem(g, id, inits, |fold.at|), p) ==
      if fold.open && g[id].kind.stmts != [] && !Transparent(g, id, inits, |fold.at|)
      then fold.(closed := fold.closed + [Span(fold.first, |fold.at| - fold.first)], open := false) else fold
  {
  }

  lemma OpenFirst(g: Graph, chain: seq<Id>, inits: seq<Option<Id>>, p: nat, fold: Fold)
    requires p <= |chain| && RebuiltUpTo(g, chain, inits, p, fold)
    ensures fold.first <= |fold.at| && (fold.at != [] ==> Spans(fold) != [])
  {
    PartitionMeaning(RebuiltItems(g, chain[..p], inits));
  }

  // Walks the chain again, with transparent initializers.  It terminates
  // because the chain was found acyclic, meets the same loops, and never
  // runs out of regions.
  method RebuildRegions(g: Graph, inner: Option<Id>, stop: Option<Id>, loops: seq<Id>, inits: seq<Option<Id>>, ghost found: Found)
    returns (r: Status<seq<Span>>)
    requires Closed(g) && FoundIn(g, inner, stop, found) && loops == found.loops && |inits| == |loops|
    ensures forall id :: id in found.chain ==> id in g
    ensures r == Success(Spans(FoldAll(RebuiltItems(g, found.chain, inits))))
  {
    hide Pointer, Acceptable, RebuiltUpTo, FoldAll, RebuiltItems, LoopIds, Transparent, PlainItems, PlainItem, Spans;
    ghost var chain := found.chain;
    var p := 0;
    var fold := Fold([], [], false, 0);
    var block := inner;
    PointerStart(g, inner);
    RebuildStart(g, chain, inits);
    while block.Some? && block != stop
      invariant p <= |chain| && block == Pointer(g, inner, p) && RebuiltUpTo(g, chain, inits, p, fold)
      decreases |chain| - p
    {
      OnChain(g, inner, stop, chain, p);
      RebuildNext(g, chain, inits, p, fold);
      OpenFirst(g, chain, inits, p, fold);
      FoldBounds(g, chain, inits, p, fold);
      var (id, b) := (block.value, g[block.value]);
      if b.kind.Basic? {
        BasicStep(fold, g, id, inits, p);
        var transparent := fold.open && |fold.at| < |loops| && Transparent(g, id, inits, |fold.at|);
        TransparentBound(g, id, inits, |fold.at|);
        if fold.open && b.kind.stmts != [] && !transparent {
          fold := fold.(closed := fold.closed + [Span(fold.first, |fold.at| - fold.first)], open := false);
        }
      } else if b.kind.RangedFor? {
        CandidateNext(g, inner, stop, chain, p);
        LoopStep(fold, g, id, inits, p);
        if |fold.at| >= |loops| || loops[|fold.at|] != id { return Status.Failure(HardError); }
        if !fold.open && |fold.closed| >= MAX_KERNELS { return Decline(Limit); }
        fold := FoldStep(fold, LoopItem, p);
      } else {
        return Status.Failure(HardError);
      }
      block := b.succ;
      p := p + 1;
    }
    AtEnd(g, inner, stop, chain, p);
    FoldBounds(g, chain, inits, p, fold);
    OpenFirst(g, chain, inits, p, fold);
    ChainIds(g, inner, stop, chain);
    if |fold.at| != |loops| || Spans(fold) == [] { return Status.Failure(HardError); }
    return Success(Spans(fold));
  }

  lemma FoldBounds(g: Graph, chain: seq<Id>, inits: seq<Option<Id>>, p: nat, fold: Fold)
    requires p <= |chain| && RebuiltUpTo(g, chain, inits, p, fold)
    ensures forall id :: id in chain[..p] ==> id in g
    ensures |fold.at| == |LoopIds(g, chain[..p])| && |fold.closed| <= |fold.at|
    ensures fold == FoldAll(RebuiltItems(g, chain[..p], inits))
  {
  }

  lemma TransparentBound(g: Graph, id: Id, inits: seq<Option<Id>>, k: nat)
    requires id in g
    ensures Transparent(g, id, inits, k) ==> k < |inits|
  {
  }

  lemma LoopStep(fold: Fold, g: Graph, id: Id, inits: seq<Option<Id>>, p: nat)
    requires id in g && g[id].kind.RangedFor?
    ensures FoldStep(fold, RebuiltItem(g, id, inits, |fold.at|), p) == FoldStep(fold, LoopItem, p)
  {
  }

  lemma ChainIds(g: Graph, inner: Option<Id>, stop: Option<Id>, chain: seq<Id>)
    requires Acceptable(g, inner, stop, chain)
    ensures forall id :: id in chain ==> id in g
  {
  }

  // ------------------------------------------------------------------
  // What the rebuilt partition means
  // ------------------------------------------------------------------

  // The block has no statement, or the one that initializes loop k.
  predicate QuietBlock(g: Graph, id: Id, inits: seq<Option<Id>>, k: nat)
    requires id in g
  {
    g[id].kind.Basic? && g[id].kind.stmts != [] ==> |g[id].kind.stmts| == 1 && k < |inits| && inits[k] == Some(id)
  }

  // Nothing observable between loops i and i + 1: every block is empty, or is
  // the sole-statement initializer of loop i + 1.
  ghost predicate Quiet(g: Graph, chain: seq<Id>, at: seq<nat>, inits: seq<Option<Id>>, i: nat)
    requires i + 1 < |at| && forall id :: id in chain ==> id in g
  {
    forall p :: at[i] < p < at[i + 1] && p < |chain| ==> QuietBlock(g, chain[p], inits, i + 1)
  }

  // Between loops i and i + 1 exactly i + 1 loops have been met.
  lemma LoopsBetween(g: Graph, chain: seq<Id>, at: seq<nat>, i: nat, p: nat)
    requires forall id :: id in chain ==> id in g
    requires at == FoldAll(PlainItems(g, chain)).at && i + 1 < |at| && at[i] < p < at[i + 1] && p < |chain|
    ensures forall id :: id in chain[..p] ==> id in g
    ensures |LoopIds(g, chain[..p])| == i + 1
  {
    hide FoldAll, Lists, PlainItem;
    var items, prefix := PlainItems(g, chain), PlainItems(g, chain[..p]);
    LoopCount(g, chain[..p]);
    FoldLists(items);
    FoldLists(prefix);
    FoldPrefix(items, p);
    assert items[..p] == prefix;
    ListedBefore(items, at, p, FoldAll(prefix).at, i);
  }

  lemma FoldLists(items: seq<Item>)
    ensures Lists(items, FoldAll(items).at)
  {
    hide FoldAll;
    PartitionMeaning(items);
  }

  // The loops listed before position p.
  lemma ListedBefore(items: seq<Item>, at: seq<nat>, p: nat, before: seq<nat>, i: nat)
    requires Lists(items, at) && p <= |items| && Lists(items[..p], before) && before <= at
    requires i + 1 < |at| && at[i] < p < at[i + 1]
    ensures |before| == i + 1
  {
    assert items[..p][at[i]] == items[at[i]];
    assert at[i] in before;
  }

  lemma {:induction false} FoldPrefix(items: seq<Item>, p: nat)
    requires p <= |items|
    ensures FoldAll(items[..p]).at <= FoldAll(items).at
  {
    if p < |items| {
      var front := items[..|items| - 1];
      assert front[..p] == items[..p];
      FoldPrefix(front, p);
    } else {
      assert items[..p] == items;
    }
  }

  // The final regions: they tile the loops in order, and two neighbouring
  // loops share one exactly when every block between them is empty or the
  // sole-statement initializer of the later loop.
  lemma RebuiltMeaning(g: Graph, chain: seq<Id>, inits: seq<Option<Id>>, i: nat)
    requires forall id :: id in chain ==> id in g
    requires forall id :: id in chain ==> Usable(g[id])
    ensures var f := FoldAll(RebuiltItems(g, chain, inits));
      && Tiles(Spans(f), |LoopIds(g, chain)|) && |Spans(f)| <= |LoopIds(g, chain)| == |f.at|
      && (i + 1 < |f.at| ==> (Joined(Spans(f), i) <==> Quiet(g, chain, f.at, inits, i)))
  {
    hide FoldAll, QuietBlock, Spans;
    var items := RebuiltItems(g, chain, inits);
    var f := FoldAll(items);
    PartitionMeaning(items);
    RebuiltLoops(g, chain, inits);
    TilesCount(Spans(f), |f.at|);
    if i + 1 < |f.at| {
      forall p | f.at[i] < p < f.at[i + 1] && p < |chain|
        ensures items[p].Boundary? <==> !QuietBlock(g, chain[p], inits, i + 1)
      {
        BoundaryMeans(g, chain, inits, f.at, i, p);
      }
    }
  }

  lemma BoundaryMeans(g: Graph, chain: seq<Id>, inits: seq<Option<Id>>, at: seq<nat>, i: nat, p: nat)
    requires forall id :: id in chain ==> id in g
    requires at == FoldAll(PlainItems(g, chain)).at && i + 1 < |at| && at[i] < p < at[i + 1] && p < |chain|
    ensures RebuiltItems(g, chain, inits)[p].Boundary? <==> !QuietBlock(g, chain[p], inits, i + 1)
  {
    hide FoldAll, PlainItems;
    LoopsBetween(g, chain, at, i, p);
    RebuiltAt(g, chain, inits, p);
  }

  // Rebuilding only ever merges: loops together before are together after.
  lemma RebuildCoarsens(g: Graph, chain: seq<Id>, inits: seq<Option<Id>>, i: nat)
    requires forall id :: id in chain ==> id in g
    requires i + 1 < |LoopIds(g, chain)| && Joined(Spans(FoldAll(PlainItems(g, chain))), i)
    ensures Joined(Spans(FoldAll(RebuiltItems(g, chain, inits))), i)
  {
    hide FoldAll, Transparent, Spans, Joined;
    var plain, rebuilt := PlainItems(g, chain), RebuiltItems(g, chain, inits);
    PartitionMeaning(plain);
    PartitionMeaning(rebuilt);
    RebuiltLoops(g, chain, inits);
    var at := FoldAll(plain).at;
    forall p | at[i] < p < at[i + 1] && p < |chain| ensures !rebuilt[p].Boundary? {
      RebuiltAt(g, chain, inits, p);
    }
  }
}
