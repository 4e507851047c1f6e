// The part of the high-level IR the accelerator compiler reads, the meaning
// of its expressions and straight-line statements, and the two shared
// optimizer helpers the compiler relies on: exact constant folding and
// counter-affine index normalisation.

module Hir {
  import opened Words

  datatype Term =
    | SymbolTerm(name: string)
    | IntTerm(i: Int32)
    | LongTerm(l: Int64)
    | FloatTerm(bits: Word)
    | OtherTerm
    | NullTerm

  type Int64 = x: int | -0x8000_0000_0000_0000 <= x <= 0x7FFF_FFFF_FFFF_FFFF

  datatype BinaryKind =
    | Lt | Lte | Gt | Gte | Eq | Neq
    | Plus | Minus | Mul | Div | Mod | And | Or | Xor | Shl | Shr
    | LAnd | LOr | PCheck | TypeIs | VInduct

  datatype UnaryKind = Neg | Not | Par | PBase | PLen

  // NoExpr stands for a null expression pointer.
  datatype Expr =
    | NoExpr
    | TermExpr(term: Term)
    | Binary(kind: BinaryKind, left: Expr, right: Expr)
    | Unary(unary: UnaryKind, operand: Expr)
    | Subscript(base: Expr, index: Expr)
    | PackedLoad(base: Expr, offset: Expr)
    | PackedStore(base: Expr, offset: Expr)
    | Dot(object: Expr)
    | Call(callee: Expr, args: seq<Expr>)
    | ThisCall(receiver: Expr, thisArgs: seq<Expr>)
    | ArrayLiteral(elems: seq<Expr>)
    | DictLiteral(values: seq<Expr>)
    | New(init: Expr)
    | Capture(symbol: string, captured: Expr)
    | Select(cond: Expr, ifTrue: Expr, ifFalse: Expr)
    | MaskStore(maskBase: Expr, maskOffset: Expr, mask: Expr)
    | Gather(gatherBase: Expr, gatherIndex: Expr)
    | MalformedExpr

  datatype Stmt = Stmt(lhs: Expr, rhs: Expr)

  // A plain symbol term, without unwrapping any other expression.
  function TermSymbol(e: Expr): Option<string> {
    if e.TermExpr? && e.term.SymbolTerm? then Some(e.term.name) else None
  }

  function TermInt(e: Expr): Option<Int32> {
    if e.TermExpr? && e.term.IntTerm? then Some(e.term.i) else None
  }

  function StripPar(e: Expr): Expr {
    if e.Unary? && e.unary.Par? then StripPar(e.operand) else e
  }

  lemma {:induction false} StripParDecreases(e: Expr)
    ensures StripPar(e) == e || StripPar(e) < e
  {
    if e.Unary? && e.unary.Par? {
      StripParDecreases(e.operand);
    }
  }

  // ------------------------------------------------------------------
  // Exact constant folding in checked 64-bit arithmetic.
  // ------------------------------------------------------------------

  const FOLD_MAX_DEPTH := 64

  function Checked64(x: int): Option<Int64> {
    if -0x8000_0000_0000_0000 <= x <= 0x7FFF_FFFF_FFFF_FFFF then Some(x) else None
  }

  function Fold(e: Expr, depth: nat): Option<Int64> {
    if depth >= FOLD_MAX_DEPTH then None
    else match e
      case TermExpr(IntTerm(i)) => Some(i)
      case TermExpr(LongTerm(l)) => Some(l)
      case Unary(Par, x) => Fold(x, depth + 1)
      case Unary(Neg, x) => var v :- Fold(x, depth + 1); Checked64(0 - v)
      case Binary(Plus, l, r) =>
        var a :- Fold(l, depth + 1); var b :- Fold(r, depth + 1); Checked64(a + b)
      case Binary(Minus, l, r) =>
        var a :- Fold(l, depth + 1); var b :- Fold(r, depth + 1); Checked64(a - b)
      case _ => None
  }

  function FoldConstant(e: Expr): Option<Int64> { Fold(e, 0) }

  lemma FoldUnfold(e: Expr)
    ensures FoldConstant(e) == Fold(e, 0)
  {
  }

  // Literals joined by sums, differences and negations.
  predicate SumForm(e: Expr) {
    match e
    case TermExpr(t) => t.IntTerm? || t.LongTerm?
    case Unary(k, x) => (k == Par || k == Neg) && SumForm(x)
    case Binary(k, l, r) => (k == Plus || k == Minus) && SumForm(l) && SumForm(r)
    case _ => false
  }

  function ExactSum(e: Expr): int
    requires SumForm(e)
  {
    match e
    case TermExpr(IntTerm(i)) => i
    case TermExpr(LongTerm(l)) => l
    case Unary(k, x) => if k == Neg then 0 - ExactSum(x) else ExactSum(x)
    case Binary(k, l, r) => if k == Plus then ExactSum(l) + ExactSum(r) else ExactSum(l) - ExactSum(r)
  }

  function Height(e: Expr): nat {
    match e
    case Unary(_, x) => 1 + Height(x)
    case Binary(_, l, r) => 1 + if Height(l) > Height(r) then Height(l) else Height(r)
    case _ => 1
  }

  // No part of the sum leaves the 64-bit range.
  predicate SumsFit(e: Expr)
    requires SumForm(e)
  {
    && -0x8000_0000_0000_0000 <= ExactSum(e) <= 0x7FFF_FFFF_FFFF_FFFF
    && match e
       case Unary(_, x) => SumsFit(x)
       case Binary(_, l, r) => SumsFit(l) && SumsFit(r)
       case _ => true
  }

  // Folding finds the exact value of every sum of literals of at most 64
  // levels no part of which leaves the 64-bit range, and of nothing else.
  lemma {:induction false} FoldExact(e: Expr, depth: nat)
    ensures Fold(e, depth).Some? <==> SumForm(e) && depth + Height(e) <= 64 && SumsFit(e)
    ensures Fold(e, depth).Some? ==> Fold(e, depth).value == ExactSum(e)
    decreases e
  {
    match e
    case Unary(_, x) => FoldExact(x, depth + 1);
    case Binary(_, l, r) =>
      FoldExact(l, depth + 1);
      FoldExact(r, depth + 1);
    case _ =>
  }

  // No 64-bit literal occurs in a foldable expression.
  predicate LongFree(e: Expr) {
    match e
    case TermExpr(LongTerm(_)) => false
    case Unary(_, x) => LongFree(x)
    case Binary(_, l, r) => LongFree(l) && LongFree(r)
    case _ => true
  }

  // ------------------------------------------------------------------
  // Counter-affine index normalisation.
  // ------------------------------------------------------------------

  datatype AffineKind = AffineUnknown | AffineInvariant | CounterOffset

  datatype Affine = Affine(kind: AffineKind, offset: int, symbol: Option<string>, sign: int)

  const UNKNOWN_INDEX := Affine(AffineUnknown, 0, None, 1)

  function NormalizeIndex(expr: Expr, counter: string): Affine {
    var e := StripPar(expr);
    match TermSymbol(e)
    case Some(s) =>
      if s == counter then Affine(CounterOffset, 0, None, 1)
      else Affine(AffineInvariant, 0, Some(s), 1)
    case None =>
      match TermInt(e)
      case Some(c) => Affine(AffineInvariant, c, None, 1)
      case None =>
        if !e.Binary? || !(e.kind.Plus? || e.kind.Minus?) then UNKNOWN_INDEX
        else if TermSymbol(e.left) == Some(counter) then NormalizeCounterLeft(e.kind, e.right, counter)
        else if e.kind.Plus? && TermSymbol(e.right) == Some(counter) then NormalizeCounterRight(e.left, counter)
        else UNKNOWN_INDEX
  }

  // `counter + right` or `counter - right`.
  function NormalizeCounterLeft(kind: BinaryKind, right: Expr, counter: string): Affine {
    match TermInt(right)
    case Some(c) =>
      if kind.Minus? && c == INT_MIN then UNKNOWN_INDEX
      else Affine(CounterOffset, if kind.Minus? then -c else c, None, 1)
    case None =>
      match TermSymbol(right)
      case Some(s) =>
        if s == counter then UNKNOWN_INDEX
        else Affine(CounterOffset, 0, Some(s), if kind.Minus? then -1 else 1)
      case None => UNKNOWN_INDEX
  }

  // `left + counter`.
  function NormalizeCounterRight(left: Expr, counter: string): Affine {
    match TermInt(left)
    case Some(c) => Affine(CounterOffset, c, None, 1)
    case None =>
      match TermSymbol(left)
      case Some(s) =>
        if s == counter then UNKNOWN_INDEX else Affine(CounterOffset, 0, Some(s), 1)
      case None => UNKNOWN_INDEX
  }

  lemma {:induction false} StripParStops(e: Expr)
    ensures !(StripPar(e).Unary? && StripPar(e).unary == Par)
  {
    if e.Unary? && e.unary.Par? {
      StripParStops(e.operand);
    }
  }

  // The counter-affine forms, inside any parentheses: the counter, the
  // counter plus or minus a literal or another name, and a literal or
  // another name plus the counter.
  lemma NormalizeForms(e: Expr, counter: string)
    ensures var (x, a) := (StripPar(e), NormalizeIndex(e, counter));
      var name := TermExpr(SymbolTerm(counter));
      && !(x.Unary? && x.unary == Par)
      && (a.kind == CounterOffset <==>
           || x == name
           || (x.Binary? && (x.kind == Plus || x.kind == Minus) && x.left == name && x.right.TermExpr?
               && ((x.right.term.SymbolTerm? && x.right != name)
                   || (x.right.term.IntTerm? && !(x.kind == Minus && x.right.term.i == -0x8000_0000))))
           || (x.Binary? && x.kind == Plus && x.right == name && x.left.TermExpr?
               && ((x.left.term.SymbolTerm? && x.left != name) || x.left.term.IntTerm?)))
      && (a.kind == CounterOffset && x == name ==> a.offset == 0 && a.symbol == None)
      && (a.kind == CounterOffset && x.Binary? ==>
           var other := if x.left == name then x.right else x.left;
           if other.term.IntTerm? then a.symbol == None && a.offset == (if x.kind == Minus then 0 - other.term.i else other.term.i)
           else a.symbol == Some(other.term.name) && a.offset == 0 && (a.sign < 0 <==> x.kind == Minus))
  {
    StripParStops(e);
  }

  // ------------------------------------------------------------------
  // Meaning of expressions and straight-line statements.
  // ------------------------------------------------------------------

  datatype Relation = REq | RNe | RLt | RLe | RGt | RGe

  datatype FloatOp = FAdd | FSub | FMul

  // Float operations are arbitrary functions on 32-bit patterns.
  datatype Alu = Alu(arith: (FloatOp, Word, Word) -> Word, relate: (Relation, Word, Word) -> bool)

  datatype Value = IntVal(w: Word) | LongVal(l: Int64) | FloatVal(f: Word)

  datatype ElemType = IntElem | FloatElem

  datatype BufferName = BufferName(symbol: string, elem: ElemType, slot: nat)

  type Mem = seq<seq<Word>>

  // Memory with one element of one buffer replaced.
  function Put(mem: Mem, slot: nat, at: nat, w: Word): Mem
    requires slot < |mem| && at < |mem[slot]|
  {
    var row: seq<Word> := mem[slot];
    var row': seq<Word> := row[..at] + [w] + row[at + 1..];
    mem[slot := row']
  }

  predicate SameShape(a: Mem, b: Mem) {
    |a| == |b| && forall i :: 0 <= i < |a| ==> |a[i]| == |b[i]|
  }

  // What one loop iteration sees besides the function's variables.
  datatype Frame = Frame(
    counter: string, counterValue: Word,
    args: map<string, Value>, buffers: seq<BufferName>, alu: Alu)

  type Vars = map<string, Value>

  function Truth(b: bool): Value { IntVal(if b then 1 else 0) }

  function Wrap64(x: int): Int64 {
    var m := x % 0x1_0000_0000_0000_0000;
    if m <= 0x7FFF_FFFF_FFFF_FFFF then m else m - 0x1_0000_0000_0000_0000
  }

  predicate Relates(rel: Relation, a: int, b: int) {
    match rel
    case REq => a == b
    case RNe => a != b
    case RLt => a < b
    case RLe => a <= b
    case RGt => a > b
    case RGe => a >= b
  }

  function RelationOf(kind: BinaryKind): Option<Relation> {
    match kind
    case Eq => Some(REq)
    case Neq => Some(RNe)
    case Lt => Some(RLt)
    case Lte => Some(RLe)
    case Gt => Some(RGt)
    case Gte => Some(RGe)
    case _ => None
  }

  function IntBinary(kind: BinaryKind, a: Word, b: Word): Option<Value> {
    match kind
    case Plus => Some(IntVal(Add(a, b)))
    case Minus => Some(IntVal(Sub(a, b)))
    case Mul => Some(IntVal(Words.Mul(a, b)))
    case Div => if b == 0 then None else Some(IntVal(DivWord(a, Signed(b))))
    case Mod => if b == 0 then None else Some(IntVal(ModWord(a, Signed(b))))
    case And => Some(IntVal(BitWord(BitAnd, a, b)))
    case Or => Some(IntVal(BitWord(BitOr, a, b)))
    case Xor => Some(IntVal(BitWord(BitXor, a, b)))
    case Shl => if b > 31 then None else Some(IntVal(ShiftLeft(a, b)))
    case Shr => if b > 31 then None else Some(IntVal(ShiftRight(a, b)))
    case _ => var rel :- RelationOf(kind); Some(Truth(Relates(rel, Signed(a), Signed(b))))
  }

  function BitOperatorOf(kind: BinaryKind): Option<BitOperator> {
    match kind
    case And => Some(BitAnd)
    case Or => Some(BitOr)
    case Xor => Some(BitXor)
    case _ => None
  }

  const TWO_64 := 0x1_0000_0000_0000_0000

  // The bits of a 64-bit value, as a natural.
  function Pattern(l: Int64): nat { l % TWO_64 }

  // Arithmetic with a 64-bit operand is 64-bit arithmetic.
  function LongBinary(kind: BinaryKind, a: Int64, b: Int64): Option<Value> {
    match kind
    case Plus => Some(LongVal(Wrap64(a + b)))
    case Minus => Some(LongVal(Wrap64(a - b)))
    case Mul => Some(LongVal(Wrap64(a * b)))
    case Div => if b == 0 then None else Some(LongVal(Wrap64(TruncDiv(a, b))))
    case Mod => if b == 0 then None else Some(LongVal(Wrap64(TruncMod(a, b))))
    case Shl => if 0 <= b <= 31 then Some(LongVal(Wrap64(a * Power2(b)))) else None
    case Shr => if 0 <= b <= 31 then Some(LongVal(Wrap64(Pattern(a) / Power2(b)))) else None
    case And | Or | Xor => Some(LongVal(Wrap64(Bitwise(BitOperatorOf(kind).value, Pattern(a), Pattern(b), 64))))
    case _ => var rel :- RelationOf(kind); Some(Truth(Relates(rel, a, b)))
  }

  // How an int operand is widened beside a 64-bit one: bitwise operations and
  // equality take its bits, inequality only on the right, all else its value.
  function Widened(kind: BinaryKind, w: Word, onRight: bool): Int64 {
    if BitOperatorOf(kind).Some? || kind.Eq? || (kind.Neq? && onRight) then w else Signed(w)
  }

  function FloatBinary(kind: BinaryKind, a: Word, b: Word, alu: Alu): Option<Value> {
    match kind
    case Plus => Some(FloatVal(alu.arith(FAdd, a, b)))
    case Minus => Some(FloatVal(alu.arith(FSub, a, b)))
    case Mul => Some(FloatVal(alu.arith(FMul, a, b)))
    case _ => var rel :- RelationOf(kind); Some(Truth(alu.relate(rel, a, b)))
  }

  // None: a runtime error, or a mixed-type conversion outside this model.
  function ApplyBinary(kind: BinaryKind, a: Value, b: Value, alu: Alu): Option<Value> {
    match (a, b)
    case (IntVal(x), IntVal(y)) => IntBinary(kind, x, y)
    case (IntVal(x), LongVal(y)) =>
      if kind.Shl? || kind.Shr? then (if 0 <= y <= 31 then IntBinary(kind, x, y) else None)
      else LongBinary(kind, Widened(kind, x, false), y)
    case (LongVal(x), IntVal(y)) => LongBinary(kind, x, Widened(kind, y, true))
    case (LongVal(x), LongVal(y)) => LongBinary(kind, x, y)
    case (FloatVal(x), FloatVal(y)) => FloatBinary(kind, x, y, alu)
    case _ => None
  }

  function Negate(v: Value): Option<Value> {
    match v
    case IntVal(w) => Some(IntVal(Sub(0, w)))
    case LongVal(l) => Some(LongVal(Wrap64(0 - l)))
    case FloatVal(_) => None
  }

  function FindBuffer(buffers: seq<BufferName>, symbol: string): Option<BufferName> {
    if buffers == [] then None
    else if buffers[0].symbol == symbol then Some(buffers[0])
    else FindBuffer(buffers[1..], symbol)
  }

  function LookupName(name: string, frame: Frame, vars: Vars): Option<Value> {
    if name == frame.counter then Some(IntVal(frame.counterValue))
    else if name in frame.args then Some(frame.args[name])
    else if name in vars then Some(vars[name])
    else None
  }

  function ElemValue(elem: ElemType, w: Word): Value {
    match elem
    case IntElem => IntVal(w)
    case FloatElem => FloatVal(w)
  }

  function ReadElement(symbol: string, index: Value, frame: Frame, mem: Mem): Option<Value> {
    var b :- FindBuffer(frame.buffers, symbol);
    if index.IntVal? && b.slot < |mem| && 0 <= Signed(index.w) < |mem[b.slot]|
    then Some(ElemValue(b.elem, mem[b.slot][Signed(index.w)]))
    else None
  }

  function Eval(e: Expr, frame: Frame, vars: Vars, mem: Mem): Option<Value> {
    match e
    case TermExpr(IntTerm(i)) => Some(IntVal(Wrap(i)))
    case TermExpr(LongTerm(l)) => Some(LongVal(l))
    case TermExpr(FloatTerm(b)) => Some(FloatVal(b))
    case TermExpr(SymbolTerm(s)) => LookupName(s, frame, vars)
    case Unary(Par, x) => Eval(x, frame, vars, mem)
    case Unary(Neg, x) => var v :- Eval(x, frame, vars, mem); Negate(v)
    case Binary(kind, l, r) =>
      var a :- Eval(l, frame, vars, mem);
      var b :- Eval(r, frame, vars, mem);
      ApplyBinary(kind, a, b, frame.alu)
    case Subscript(base, index) =>
      var s :- TermSymbol(base);
      var i :- Eval(index, frame, vars, mem);
      ReadElement(s, i, frame, mem)
    case _ => None
  }

  function StoredWord(elem: ElemType, v: Value): Option<Word> {
    match (elem, v)
    case (IntElem, IntVal(w)) => Some(w)
    case (IntElem, LongVal(l)) => Some(Wrap(l))
    case (FloatElem, FloatVal(f)) => Some(f)
    case _ => None
  }

  function WriteElement(symbol: string, index: Value, v: Value, frame: Frame, mem: Mem): Option<Mem> {
    var b :- FindBuffer(frame.buffers, symbol);
    var w: Word :- StoredWord(b.elem, v);
    if index.IntVal? && b.slot < |mem| && 0 <= Signed(index.w) < |mem[b.slot]|
    then Some(Put(mem, b.slot, Signed(index.w), w))
    else None
  }

  function ExecStmt(s: Stmt, frame: Frame, vars: Vars, mem: Mem): Option<(Vars, Mem)> {
    match s.lhs
    case Subscript(base, index) =>
      var symbol :- TermSymbol(base);
      var i :- Eval(index, frame, vars, mem);
      var v :- Eval(s.rhs, frame, vars, mem);
      var mem' :- WriteElement(symbol, i, v, frame, mem);
      Some((vars, mem'))
    case TermExpr(SymbolTerm(name)) =>
      var v :- Eval(s.rhs, frame, vars, mem);
      Some((vars[name := v], mem))
    case _ => None
  }

  function ExecBody(body: seq<Stmt>, frame: Frame, vars: Vars, mem: Mem): Option<(Vars, Mem)>
    decreases |body|
  {
    if body == [] then Some((vars, mem))
    else
      var (vars', mem') :- ExecBody(body[..|body| - 1], frame, vars, mem);
      ExecStmt(body[|body| - 1], frame, vars', mem')
  }

  // ------------------------------------------------------------------
  // Folding and normalisation keep the meaning.
  // ------------------------------------------------------------------

  lemma EvalSum(kind: BinaryKind, l: Expr, r: Expr, a: Word, b: Word, frame: Frame, vars: Vars, mem: Mem)
    requires kind.Plus? || kind.Minus?
    requires Eval(l, frame, vars, mem) == Some(IntVal(a))
    requires Eval(r, frame, vars, mem) == Some(IntVal(b))
    ensures Eval(Binary(kind, l, r), frame, vars, mem) ==
            Some(IntVal(if kind.Plus? then Add(a, b) else Sub(a, b)))
  {
    hide LongBinary, BitWord, FloatBinary;
  }

  lemma NegateWrap(a: int)
    ensures Negate(IntVal(Wrap(a))) == Some(IntVal(Wrap(0 - a)))
  {
    hide Wrap;
    WrapOfSum(a, 0);
  }

  // A folded constant free of 64-bit literals is, modulo 2^32, what the
  // program computes in wrapping int arithmetic.
  lemma {:induction false} FoldMeaning(e: Expr, depth: nat, frame: Frame, vars: Vars, mem: Mem)
    requires Fold(e, depth).Some? && LongFree(e)
    ensures Eval(e, frame, vars, mem) == Some(IntVal(Wrap(Fold(e, depth).value)))
    decreases e
  {
    hide ApplyBinary, Negate, ReadElement, LookupName;
    match e
    case TermExpr(_) =>
    case Unary(Par, x) => FoldMeaning(x, depth + 1, frame, vars, mem);
    case Unary(Neg, x) =>
      FoldMeaning(x, depth + 1, frame, vars, mem);
      NegateWrap(Fold(x, depth + 1).value);
    case Binary(kind, l, r) =>
      FoldMeaning(l, depth + 1, frame, vars, mem);
      FoldMeaning(r, depth + 1, frame, vars, mem);
      var a, b := Fold(l, depth + 1).value, Fold(r, depth + 1).value;
      EvalSum(kind, l, r, Wrap(a), Wrap(b), frame, vars, mem);
      WrapBoth(a, b);
  }

  lemma {:induction false} StripParMeaning(e: Expr, frame: Frame, vars: Vars, mem: Mem)
    ensures Eval(StripPar(e), frame, vars, mem) == Eval(e, frame, vars, mem)
  {
    if e.Unary? && e.unary.Par? {
      StripParMeaning(e.operand, frame, vars, mem);
    }
  }

  // The word a counter-affine index denotes.
  function InvariantWord(affine: Affine, args: map<string, Value>): Word {
    match affine.symbol
    case Some(s) => if s in args && args[s].IntVal? then args[s].w else 0
    case None => 0
  }

  function AffineWord(affine: Affine, counter: Word, args: map<string, Value>): Word {
    var inv: int := InvariantWord(affine, args);
    Wrap(counter + (if affine.sign < 0 then 0 - inv else inv) + affine.offset)
  }

  // Every symbol an accepted index adds is an int argument.
  predicate AffineBound(affine: Affine, counter: string, args: map<string, Value>) {
    affine.symbol.Some? ==>
      affine.symbol.value in args && args[affine.symbol.value].IntVal? && affine.symbol.value != counter
  }

  lemma EvalName(e: Expr, frame: Frame, vars: Vars, mem: Mem)
    ensures TermSymbol(e) == Some(frame.counter) ==>
      Eval(e, frame, vars, mem) == Some(IntVal(frame.counterValue))
    ensures TermSymbol(e).Some? && TermSymbol(e).value != frame.counter && TermSymbol(e).value in frame.args ==>
      Eval(e, frame, vars, mem) == Some(frame.args[TermSymbol(e).value])
    ensures TermInt(e).Some? ==> Eval(e, frame, vars, mem) == Some(IntVal(Wrap(TermInt(e).value)))
  {
  }

  lemma AddSubWord(c: Word, k: int, w: Word)
    ensures Add(c, Wrap(k)) == Wrap(c + k) == Add(Wrap(k), c)
    ensures Sub(c, Wrap(k)) == Wrap(c - k)
    ensures Add(c, w) == Wrap(c + w) == Add(w, c) && Sub(c, w) == Wrap(c - w)
    ensures Wrap(c) == c
  {
    hide Wrap;
    WrapOfWord(c);
    WrapBoth(c, k);
    WrapOfSum(k, c);
  }

  // `counter + right`, `counter - right` or `left + counter`.
  lemma SumMeaning(kind: BinaryKind, left: Expr, right: Expr, frame: Frame, vars: Vars, mem: Mem)
    requires kind.Plus? || kind.Minus?
    requires Eval(left, frame, vars, mem).Some? && Eval(left, frame, vars, mem).value.IntVal?
    requires Eval(right, frame, vars, mem).Some? && Eval(right, frame, vars, mem).value.IntVal?
    ensures var a: int := Eval(left, frame, vars, mem).value.w;
      var b: int := Eval(right, frame, vars, mem).value.w;
      Eval(Binary(kind, left, right), frame, vars, mem) == Some(IntVal(Wrap(if kind.Plus? then a + b else a - b)))
  {
    hide ApplyBinary, Wrap;
    EvalSum(kind, left, right, Eval(left, frame, vars, mem).value.w, Eval(right, frame, vars, mem).value.w, frame, vars, mem);
  }

  lemma CounterLeftMeaning(kind: BinaryKind, left: Expr, right: Expr, frame: Frame, vars: Vars, mem: Mem)
    requires (kind.Plus? || kind.Minus?) && TermSymbol(left) == Some(frame.counter)
    requires NormalizeCounterLeft(kind, right, frame.counter).kind.CounterOffset?
    requires AffineBound(NormalizeCounterLeft(kind, right, frame.counter), frame.counter, frame.args)
    ensures Eval(Binary(kind, left, right), frame, vars, mem) ==
      Some(IntVal(AffineWord(NormalizeCounterLeft(kind, right, frame.counter), frame.counterValue, frame.args)))
  {
    hide Eval, Wrap;
    EvalName(left, frame, vars, mem);
    EvalName(right, frame, vars, mem);
    SumMeaning(kind, left, right, frame, vars, mem);
    if TermInt(right).Some? {
      WrapOfSum(TermInt(right).value, frame.counterValue);
    }
  }

  lemma CounterRightMeaning(left: Expr, right: Expr, frame: Frame, vars: Vars, mem: Mem)
    requires TermSymbol(right) == Some(frame.counter)
    requires NormalizeCounterRight(left, frame.counter).kind.CounterOffset?
    requires AffineBound(NormalizeCounterRight(left, frame.counter), frame.counter, frame.args)
    ensures Eval(Binary(Plus, left, right), frame, vars, mem) ==
      Some(IntVal(AffineWord(NormalizeCounterRight(left, frame.counter), frame.counterValue, frame.args)))
  {
    hide Eval, Wrap;
    EvalName(left, frame, vars, mem);
    EvalName(right, frame, vars, mem);
    SumMeaning(Plus, left, right, frame, vars, mem);
    if TermInt(left).Some? {
      WrapOfSum(TermInt(left).value, frame.counterValue);
    }
  }

  // A normalised counter-affine index denotes exactly what its source
  // expression evaluates to.
  lemma NormalizeMeaning(e: Expr, frame: Frame, vars: Vars, mem: Mem)
    requires NormalizeIndex(e, frame.counter).kind.CounterOffset?
    requires AffineBound(NormalizeIndex(e, frame.counter), frame.counter, frame.args)
    ensures
      Eval(e, frame, vars, mem) ==
      Some(IntVal(AffineWord(NormalizeIndex(e, frame.counter), frame.counterValue, frame.args)))
  {
    hide Eval, Wrap, NormalizeCounterLeft, NormalizeCounterRight, AffineBound;
    StripParMeaning(e, frame, vars, mem);
    var x := StripPar(e);
    EvalName(x, frame, vars, mem);
    if TermSymbol(x) == Some(frame.counter) {
      WrapOfWord(frame.counterValue);
    } else if TermSymbol(x.left) == Some(frame.counter) {
      CounterLeftMeaning(x.kind, x.left, x.right, frame, vars, mem);
    } else {
      CounterRightMeaning(x.left, x.right, frame, vars, mem);
    }
  }
}
