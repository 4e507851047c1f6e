// The program against its truncation: where every operation on a 64-bit value
// meets its guard, the truncated program computes the low word of what the
// program computes.

module Widths {
  import opened Words
  import opened Hir
  import opened Lowering
  import opened LongArithmetic
  import opened ConstantOperands
  import opened Truncation
  import opened WidthLimits

  // ------------------------------------------------------------------
  // Low words
  // ------------------------------------------------------------------

  function Low(v: Value): Value { if v.LongVal? then IntVal(Wrap(v.l)) else v }

  function LowOf(v: Option<Value>): Option<Value> { if v.Some? then Some(Low(v.value)) else None }

  function LowVars(vars: Vars): Vars { map name | name in vars :: Low(vars[name]) }

  predicate ShortVars(vars: map<string, Value>) { forall name :: name in vars ==> !vars[name].LongVal? }

  lemma LowIs(v: Value)
    requires !v.FloatVal?
    ensures Low(v) == IntVal(WordOf(v))
  {
  }

  // ------------------------------------------------------------------
  // The guards
  // ------------------------------------------------------------------

  predicate InRange(v: Value) { v.LongVal? ==> INT_MIN <= v.l <= INT_MAX }

  // Equality that takes an int beside a 64-bit value by its bits.
  predicate ByBits(kind: BinaryKind, x: Value, y: Value) {
    (kind.Eq? && (x.IntVal? || y.IntVal?)) || (kind.Neq? && y.IntVal?)
  }

  // A comparison with a 64-bit operand: both are numbers of an int's range,
  // and not the same negative one compared by bits.
  predicate CompareGuard(kind: BinaryKind, x: Value, y: Value) {
    !x.FloatVal? && !y.FloatVal? && (x.LongVal? || y.LongVal?) ==>
      && InRange(x) && InRange(y)
      && (ByBits(kind, x, y) ==> NumberOf(x) != NumberOf(y) || NumberOf(x) >= 0)
  }

  // A constant operand: the program computes the folded number, and a 64-bit
  // left operand is in the range of an int or divided by 1, or shifted right
  // without bringing down a bit of its upper half.
  predicate ConstantGuard(kind: BinaryKind, x: Value, r: Expr) {
    && ConstantOperand(kind).Some? && FoldConstant(r).Some? && ConstantAllowed(kind, FoldConstant(r).value) && ConstantExact(r)
    && (x.LongVal? ==>
         match kind
         case Shl => true
         case Shr => Pattern(x.l) / 0x1_0000_0000 % Power2(FoldConstant(r).value) == 0
         case _ => InRange(x) || FoldConstant(r).value == 1)
  }

  // Every operation of the expression meets its guard.
  predicate Guarded(e: Expr, frame: Frame, vars: Vars, mem: Mem) {
    match e
    case Unary(_, x) => Guarded(x, frame, vars, mem)
    case Binary(kind, l, r) =>
      var (x, y) := (Eval(l, frame, vars, mem), Eval(r, frame, vars, mem));
      && Guarded(l, frame, vars, mem)
      && if ConstantOperand(kind).Some? then x.Some? ==> ConstantGuard(kind, x.value, r)
         else Guarded(r, frame, vars, mem) && (CompareOpcode(kind).Some? && x.Some? && y.Some? ==> CompareGuard(kind, x.value, y.value))
    case _ => true
  }

  // Every subscript is counter-affine over int arguments.
  predicate Indexed(e: Expr, frame: Frame) {
    match e
    case Unary(_, x) => Indexed(x, frame)
    case Binary(kind, l, r) => Indexed(l, frame) && (ConstantOperand(kind).None? ==> Indexed(r, frame))
    case Subscript(_, index) => IndexKnown(index, frame)
    case _ => true
  }

  predicate IndexKnown(index: Expr, frame: Frame) {
    && NormalizeIndex(index, frame.counter).kind.CounterOffset?
    && AffineBound(NormalizeIndex(index, frame.counter), frame.counter, frame.args)
  }

  // ------------------------------------------------------------------
  // One operation
  // ------------------------------------------------------------------

  lemma NegLow(v: Value)
    ensures Negate(Low(v)) == LowOf(Negate(v))
  {
    hide Wrap, Wrap64;
    if !v.FloatVal? {
      NegateWord(v);
      LowIs(v);
      NegateWord(Low(v));
    }
  }

  // Sums, products and bitwise operations need no guard.
  lemma ArithLow(kind: BinaryKind, x: Value, y: Value, alu: Alu)
    requires CompareOpcode(kind).None? && ConstantOperand(kind).None?
    ensures ApplyBinary(kind, Low(x), Low(y), alu) == LowOf(ApplyBinary(kind, x, y, alu))
  {
    hide ApplyBinary, Wrap;
    if x.FloatVal? || y.FloatVal? {
      MixedLow(kind, x, y, alu);
    } else if kind.Plus? || kind.Minus? || kind.Mul? {
      ArithWord(kind, x, y, alu);
      ArithWord(kind, Low(x), Low(y), alu);
    } else if BitOperatorOf(kind).Some? {
      BitsWord(kind, x, y, alu);
      BitsWord(kind, Low(x), Low(y), alu);
    } else {
      NoOperation(kind, x, y, alu);
      NoOperation(kind, Low(x), Low(y), alu);
    }
  }

  lemma MixedLow(kind: BinaryKind, x: Value, y: Value, alu: Alu)
    requires x.FloatVal? || y.FloatVal?
    ensures ApplyBinary(kind, Low(x), Low(y), alu) == LowOf(ApplyBinary(kind, x, y, alu))
  {
    hide IntBinary, LongBinary, Wrap;
  }

  lemma NoOperation(kind: BinaryKind, x: Value, y: Value, alu: Alu)
    requires CompareOpcode(kind).None? && ConstantOperand(kind).None? && BitOperatorOf(kind).None?
    requires !(kind.Plus? || kind.Minus? || kind.Mul?) && !x.FloatVal? && !y.FloatVal?
    ensures ApplyBinary(kind, x, y, alu) == None
  {
    hide Wrap, Wrap64;
  }

  // With a 64-bit operand the program compares the numbers.
  lemma NumbersCompared(kind: BinaryKind, x: Value, y: Value, alu: Alu)
    requires CompareOpcode(kind).Some? && CompareGuard(kind, x, y)
    requires !x.FloatVal? && !y.FloatVal? && (x.LongVal? || y.LongVal?)
    ensures ApplyBinary(kind, x, y, alu) == Some(Truth(Relates(RelationOf(kind).value, NumberOf(x), NumberOf(y))))
  {
    hide BitWord, DivWord, ModWord, Wrap, Wrap64, Bitwise, TruncDiv, TruncMod, Power2, FloatBinary, IntBinary;
  }

  lemma IntsCompared(kind: BinaryKind, a: Word, b: Word, alu: Alu)
    requires CompareOpcode(kind).Some?
    ensures ApplyBinary(kind, IntVal(a), IntVal(b), alu) == Some(Truth(Relates(RelationOf(kind).value, Signed(a), Signed(b))))
  {
    hide BitWord, DivWord, ModWord, Wrap, LongBinary, FloatBinary;
  }

  lemma NumberOfLow(v: Value)
    requires !v.FloatVal? && InRange(v)
    ensures Signed(WordOf(v)) == NumberOf(v)
  {
    hide Wrap;
    if v.LongVal? { SignedOfWrap(v.l); }
  }

  lemma CompareLow(kind: BinaryKind, x: Value, y: Value, alu: Alu)
    requires CompareOpcode(kind).Some? && CompareGuard(kind, x, y)
    ensures ApplyBinary(kind, Low(x), Low(y), alu) == LowOf(ApplyBinary(kind, x, y, alu))
  {
    hide ApplyBinary, Wrap, Relates;
    if x.FloatVal? || y.FloatVal? {
      MixedLow(kind, x, y, alu);
    } else {
      LowIs(x);
      LowIs(y);
      if x.LongVal? || y.LongVal? {
        NumbersCompared(kind, x, y, alu);
        NumberOfLow(x);
        NumberOfLow(y);
      } else {
        IntsCompared(kind, x.w, y.w, alu);
      }
      IntsCompared(kind, WordOf(x), WordOf(y), alu);
    }
  }

  // An exact constant evaluates to the folded number.
  lemma ConstantNumber(r: Expr)
    requires FoldConstant(r).Some? && ConstantExact(r)
    ensures SourceConstant(r).Some?
    ensures LongFree(r) ==> SourceConstant(r).value == IntVal(Wrap(FoldConstant(r).value))
    ensures !LongFree(r) ==> SourceConstant(r).value == LongVal(FoldConstant(r).value)
  {
    if LongFree(r) {
      FoldMeaning(r, 0, NO_FRAME, map[], []);
    }
  }

  // The folded number, as an int or as a 64-bit value.
  predicate Folded(k: Value, c: Int64) { k == IntVal(Wrap(c)) || k == LongVal(c) }

  lemma DivideLow(kind: BinaryKind, l: Int64, k: Value, c: Int64, alu: Alu)
    requires (kind.Div? || kind.Mod?) && ConstantAllowed(kind, c) && Folded(k, c)
    requires INT_MIN <= l <= INT_MAX || c == 1
    ensures var q := if kind.Div? then TruncDiv(l, c) else TruncMod(l, c);
      && ApplyBinary(kind, LongVal(l), k, alu) == Some(LongVal(q))
      && ApplyBinary(kind, IntVal(Wrap(l)), IntVal(Wrap(c)), alu) == Some(IntVal(Wrap(q)))
  {
    hide BitWord, FloatBinary, TruncDiv, TruncMod, Wrap, Wrap64;
    SignedOfWrap(c);
    if INT_MIN <= l <= INT_MAX {
      SignedOfWrap(l);
      QuotientFits(l, c);
      Within64(TruncDiv(l, c));
      Within64(TruncMod(l, c));
    } else {
      Whole(l);
      Whole(Signed(Wrap(l)));
      Keeps64(l);
      Keeps64(0);
      WrapOfWord(Wrap(l));
    }
  }

  lemma ShiftLow(kind: BinaryKind, l: Int64, k: Value, c: Int64, alu: Alu)
    requires (kind.Shl? || kind.Shr?) && 0 <= c <= 31 && Folded(k, c)
    requires kind.Shr? ==> Pattern(l) / 0x1_0000_0000 % Power2(c) == 0
    ensures ApplyBinary(kind, IntVal(Wrap(l)), IntVal(Wrap(c)), alu) == LowOf(ApplyBinary(kind, LongVal(l), k, alu))
    ensures ApplyBinary(kind, LongVal(l), k, alu).Some? && ApplyBinary(kind, LongVal(l), k, alu).value.LongVal?
  {
    hide BitWord, FloatBinary, Wrap, Wrap64, Pattern, Power2;
    SignedOfWrap(c);
    WrapUnique(c, c, 0);
    if kind.Shl? {
      ShiftLeftWord(l, c);
    } else {
      WrapOf64(Pattern(l) / Power2(c));
      WideShiftIff(l, c);
    }
  }

  // A division, remainder or shift by an exact constant, in the program and
  // in its truncation.
  lemma ConstantLow(kind: BinaryKind, x: Value, r: Expr, alu: Alu)
    requires ConstantGuard(kind, x, r)
    ensures SourceConstant(r).Some?
    ensures ApplyBinary(kind, Low(x), IntVal(Wrap(FoldConstant(r).value)), alu) ==
      LowOf(ApplyBinary(kind, x, SourceConstant(r).value, alu))
  {
    hide ApplyBinary, FoldConstant, SourceConstant, LongFree, Wrap, TruncDiv, TruncMod;
    var c := FoldConstant(r).value;
    ConstantNumber(r);
    match x
    case FloatVal(_) => FloatConstant(kind, x, SourceConstant(r).value, alu); FloatConstant(kind, x, IntVal(Wrap(c)), alu);
    case IntVal(w) =>
      IntOperand(kind, w, c, alu);
      LongOperand(kind, w, c, alu);
    case LongVal(l) =>
      if kind.Div? || kind.Mod? {
        DivideLow(kind, l, SourceConstant(r).value, c, alu);
      } else {
        ShiftLow(kind, l, SourceConstant(r).value, c, alu);
      }
  }

  lemma FloatConstant(kind: BinaryKind, x: Value, y: Value, alu: Alu)
    requires x.FloatVal? && !y.FloatVal?
    ensures ApplyBinary(kind, x, y, alu) == None
  {
  }

  // ------------------------------------------------------------------
  // Expressions
  // ------------------------------------------------------------------

  lemma NameLow(name: string, frame: Frame, vars: Vars)
    requires ShortVars(frame.args)
    ensures LookupName(name, frame, LowVars(vars)) == LowOf(LookupName(name, frame, vars))
  {
  }

  lemma IndexLow(base: Expr, index: Expr, frame: Frame, vars: Vars, mem: Mem)
    requires IndexKnown(index, frame)
    ensures Eval(Subscript(base, index), frame, LowVars(vars), mem) == LowOf(Eval(Subscript(base, index), frame, vars, mem))
  {
    hide NormalizeIndex, AffineBound, AffineWord;
    NormalizeMeaning(index, frame, vars, mem);
    NormalizeMeaning(index, frame, LowVars(vars), mem);
  }

  lemma BinaryEvaluates(kind: BinaryKind, l: Expr, r: Expr, frame: Frame, vars: Vars, mem: Mem)
    ensures var (x, y) := (Eval(l, frame, vars, mem), Eval(r, frame, vars, mem));
      Eval(Binary(kind, l, r), frame, vars, mem) ==
      if x.Some? && y.Some? then ApplyBinary(kind, x.value, y.value, frame.alu) else None
  {
    hide ApplyBinary;
  }

  lemma ConstantEvaluates(r: Expr, frame: Frame, vars: Vars, mem: Mem)
    requires FoldConstant(r).Some? && 0 <= FoldConstant(r).value <= INT_MAX
    ensures Eval(r, frame, vars, mem) == SourceConstant(r)
    ensures Eval(TruncatedConstant(r), frame, LowVars(vars), mem) == Some(IntVal(Wrap(FoldConstant(r).value)))
  {
    hide Wrap;
    FoldUnfold(r);
    ClosedMeaning(r, 0, frame, vars, mem);
  }

  lemma GuardAllows(kind: BinaryKind, x: Value, r: Expr)
    requires ConstantGuard(kind, x, r)
    ensures FoldConstant(r).Some? && 0 <= FoldConstant(r).value <= INT_MAX
  {
  }

  // Division, remainder and shifts.
  lemma ByConstantLow(e: Expr, frame: Frame, vars: Vars, mem: Mem)
    requires e.Binary? && ConstantOperand(e.kind).Some? && Guarded(e, frame, vars, mem)
    requires EvalTruncated(e.left, frame, LowVars(vars), mem) == LowOf(Eval(e.left, frame, vars, mem))
    ensures EvalTruncated(e, frame, LowVars(vars), mem) == LowOf(Eval(e, frame, vars, mem))
  {
    hide Eval, ApplyBinary, ConstantGuard, FoldConstant, ConstantOperand, Wrap;
    var x := Eval(e.left, frame, vars, mem);
    BinaryEvaluates(e.kind, e.left, e.right, frame, vars, mem);
    BinaryEvaluates(e.kind, Truncated(e.left), TruncatedConstant(e.right), frame, LowVars(vars), mem);
    if x.Some? {
      GuardAllows(e.kind, x.value, e.right);
      ConstantEvaluates(e.right, frame, vars, mem);
      ConstantLow(e.kind, x.value, e.right, frame.alu);
    }
  }

  // Every other operation.
  lemma ByOperandLow(e: Expr, frame: Frame, vars: Vars, mem: Mem)
    requires e.Binary? && ConstantOperand(e.kind).None? && Guarded(e, frame, vars, mem)
    requires EvalTruncated(e.left, frame, LowVars(vars), mem) == LowOf(Eval(e.left, frame, vars, mem))
    requires EvalTruncated(e.right, frame, LowVars(vars), mem) == LowOf(Eval(e.right, frame, vars, mem))
    ensures EvalTruncated(e, frame, LowVars(vars), mem) == LowOf(Eval(e, frame, vars, mem))
  {
    hide Eval, ApplyBinary, CompareGuard;
    var (x, y) := (Eval(e.left, frame, vars, mem), Eval(e.right, frame, vars, mem));
    BinaryEvaluates(e.kind, e.left, e.right, frame, vars, mem);
    BinaryEvaluates(e.kind, Truncated(e.left), Truncated(e.right), frame, LowVars(vars), mem);
    if x.Some? && y.Some? {
      if CompareOpcode(e.kind).Some? {
        CompareLow(e.kind, x.value, y.value, frame.alu);
      } else {
        ArithLow(e.kind, x.value, y.value, frame.alu);
      }
    }
  }

  // Where every operation meets its guard, the truncated expression evaluates
  // to the low word of the expression's value, and fails where it fails.
  lemma {:induction false} TruncatedMeaning(e: Expr, frame: Frame, vars: Vars, mem: Mem)
    requires ShortVars(frame.args) && Indexed(e, frame) && Guarded(e, frame, vars, mem)
    ensures EvalTruncated(e, frame, LowVars(vars), mem) == LowOf(Eval(e, frame, vars, mem))
    decreases e
  {
    hide ApplyBinary, Negate, ReadElement, LookupName, IndexKnown, ConstantGuard, CompareGuard, LowVars, Wrap;
    match e
    case TermExpr(SymbolTerm(name)) => NameLow(name, frame, vars);
    case TermExpr(LongTerm(l)) => WrapOfWord(Wrap(l));
    case Unary(op, x) =>
      TruncatedMeaning(x, frame, vars, mem);
      if op.Neg? && Eval(x, frame, vars, mem).Some? {
        NegLow(Eval(x, frame, vars, mem).value);
      }
    case Binary(kind, l, r) =>
      TruncatedMeaning(l, frame, vars, mem);
      if ConstantOperand(kind).Some? {
        ByConstantLow(e, frame, vars, mem);
      } else {
        TruncatedMeaning(r, frame, vars, mem);
        ByOperandLow(e, frame, vars, mem);
      }
    case Subscript(base, index) => IndexLow(base, index, frame, vars, mem);
    case _ =>
  }

  // ------------------------------------------------------------------
  // Guards that hold of every input
  // ------------------------------------------------------------------

  // Plain: an int or a float.  Narrow: a 64-bit value in the range of an int.
  // Wide: any 64-bit value.
  datatype Width = Plain | Narrow | Wide

  predicate OfWidth(w: Width, v: Value) {
    match w
    case Plain => !v.LongVal?
    case Narrow => v.LongVal? && INT_MIN <= v.l <= INT_MAX
    case Wide => v.LongVal?
  }

  function Joined(a: Width, b: Width): Width { if a.Plain? && b.Plain? then Plain else Wide }

  // A constant right operand: division keeps a number within its dividend's
  // range, and by 1 any number; a 64-bit right shift may bring down bits the
  // word does not have.
  function ConstantWidth(kind: BinaryKind, a: Width, r: Expr): Option<Width> {
    if FoldConstant(r).None? || !ConstantAllowed(kind, FoldConstant(r).value) || !ConstantExact(r) then None
    else match kind
      case Div | Mod =>
        if a.Wide? then (if FoldConstant(r) != Some(1) then None else if kind.Div? then Some(Wide) else Some(Narrow))
        else if a.Plain? && LongFree(r) then Some(Plain) else Some(Narrow)
      case Shl => Some(if a.Plain? then Plain else Wide)
      case Shr => if a.Plain? then Some(Plain) else if FoldConstant(r) == Some(0) then Some(Wide) else None
      case _ => None
  }

  predicate NonNegativeLiteral(e: Expr) { TermInt(e).Some? && TermInt(e).value >= 0 }

  predicate Comparable(kind: BinaryKind, a: Width, l: Expr, b: Width, r: Expr) {
    && !a.Wide? && !b.Wide?
    && (kind.Eq? && a.Plain? && b.Narrow? ==> NonNegativeLiteral(l))
    && ((kind.Eq? || kind.Neq?) && a.Narrow? && b.Plain? ==> NonNegativeLiteral(r))
  }

  // The width of an expression over ints and floats; None when an operation
  // in it could miss its guard.
  function WidthOf(e: Expr): Option<Width> {
    match e
    case TermExpr(LongTerm(_)) => Some(Wide)
    case Unary(Neg, x) => var w :- WidthOf(x); Some(Joined(w, Plain))
    case Unary(_, x) => WidthOf(x)
    case Binary(kind, l, r) =>
      var a :- WidthOf(l);
      if ConstantOperand(kind).Some? then ConstantWidth(kind, a, r)
      else
        var b :- WidthOf(r);
        if CompareOpcode(kind).None? then Some(Joined(a, b))
        else if Comparable(kind, a, l, b, r) then Some(Plain) else None
    case _ => Some(Plain)
  }

  lemma NegWidth(w: Width, v: Value)
    requires OfWidth(w, v) && Negate(v).Some?
    ensures OfWidth(Joined(w, Plain), Negate(v).value)
  {
  }

  lemma ArithWidth(kind: BinaryKind, a: Width, x: Value, b: Width, y: Value, alu: Alu)
    requires CompareOpcode(kind).None? && ConstantOperand(kind).None? && OfWidth(a, x) && OfWidth(b, y)
    requires ApplyBinary(kind, x, y, alu).Some?
    ensures OfWidth(Joined(a, b), ApplyBinary(kind, x, y, alu).value)
  {
    hide BitWord, Wrap, Wrap64, Bitwise;
  }

  lemma CompareWidth(kind: BinaryKind, x: Value, y: Value, alu: Alu)
    requires CompareOpcode(kind).Some? && ApplyBinary(kind, x, y, alu).Some?
    ensures !ApplyBinary(kind, x, y, alu).value.LongVal?
  {
    hide BitWord, Wrap, Wrap64, Bitwise, Relates;
  }

  // Operands of comparable widths meet the guard.
  lemma ComparableGuards(kind: BinaryKind, a: Width, l: Expr, x: Value, b: Width, r: Expr, y: Value, frame: Frame, vars: Vars, mem: Mem)
    requires Comparable(kind, a, l, b, r) && OfWidth(a, x) && OfWidth(b, y)
    requires Eval(l, frame, vars, mem) == Some(x) && Eval(r, frame, vars, mem) == Some(y)
    ensures CompareGuard(kind, x, y)
  {
    if NonNegativeLiteral(l) { SignedOfWrap(TermInt(l).value); }
    if NonNegativeLiteral(r) { SignedOfWrap(TermInt(r).value); }
  }

  lemma ConstantGuards(kind: BinaryKind, w: Width, x: Value, r: Expr)
    requires ConstantOperand(kind).Some? && ConstantWidth(kind, w, r).Some? && OfWidth(w, x)
    ensures ConstantGuard(kind, x, r)
  {
    hide FoldConstant, ConstantExact, LongFree, Pattern;
    assert Power2(0) == 1;
  }

  lemma ConstantOfWidth(kind: BinaryKind, w: Width, x: Value, r: Expr, alu: Alu)
    requires ConstantOperand(kind).Some? && ConstantWidth(kind, w, r).Some? && OfWidth(w, x)
    ensures SourceConstant(r).Some?
    ensures var v := ApplyBinary(kind, x, SourceConstant(r).value, alu);
      v.Some? ==> OfWidth(ConstantWidth(kind, w, r).value, v.value)
  {
    hide ApplyBinary, FoldConstant, SourceConstant, LongFree, Wrap, TruncDiv, TruncMod, ConstantExact;
    var c := FoldConstant(r).value;
    ConstantNumber(r);
    match x
    case FloatVal(_) => FloatConstant(kind, x, SourceConstant(r).value, alu);
    case IntVal(a) =>
      IntOperand(kind, a, c, alu);
      LongOperand(kind, a, c, alu);
    case LongVal(l) =>
      if kind.Div? || kind.Mod? {
        DivideLow(kind, l, SourceConstant(r).value, c, alu);
        Whole(l);
        if INT_MIN <= l <= INT_MAX { QuotientFits(l, c); }
      } else {
        ConstantGuards(kind, w, x, r);
        ShiftLow(kind, l, SourceConstant(r).value, c, alu);
      }
  }

  lemma ConstantIs(kind: BinaryKind, w: Width, r: Expr, frame: Frame, vars: Vars, mem: Mem)
    requires ConstantWidth(kind, w, r).Some?
    ensures FoldConstant(r).Some? && Eval(r, frame, vars, mem) == SourceConstant(r)
  {
    FoldUnfold(r);
    ClosedMeaning(r, 0, frame, vars, mem);
  }

  lemma BinaryWidth(e: Expr, frame: Frame, vars: Vars, mem: Mem)
    requires e.Binary? && WidthOf(e).Some?
    requires Guarded(e.left, frame, vars, mem)
    requires Eval(e.left, frame, vars, mem).Some? ==> OfWidth(WidthOf(e.left).value, Eval(e.left, frame, vars, mem).value)
    requires ConstantOperand(e.kind).None? ==> Guarded(e.right, frame, vars, mem)
    requires ConstantOperand(e.kind).None? && Eval(e.right, frame, vars, mem).Some? ==>
      OfWidth(WidthOf(e.right).value, Eval(e.right, frame, vars, mem).value)
    ensures Guarded(e, frame, vars, mem)
    ensures Eval(e, frame, vars, mem).Some? ==> OfWidth(WidthOf(e).value, Eval(e, frame, vars, mem).value)
  {
    hide ApplyBinary, CompareGuard, ConstantGuard, ConstantWidth, Comparable, OfWidth, Joined, Eval;
    var (x, y) := (Eval(e.left, frame, vars, mem), Eval(e.right, frame, vars, mem));
    BinaryEvaluates(e.kind, e.left, e.right, frame, vars, mem);
    var a := WidthOf(e.left).value;
    if ConstantOperand(e.kind).Some? {
      ConstantIs(e.kind, a, e.right, frame, vars, mem);
      if x.Some? {
        ConstantGuards(e.kind, a, x.value, e.right);
        ConstantOfWidth(e.kind, a, x.value, e.right, frame.alu);
      }
    } else if x.Some? && y.Some? {
      var b := WidthOf(e.right).value;
      if CompareOpcode(e.kind).Some? {
        ComparableGuards(e.kind, a, e.left, x.value, b, e.right, y.value, frame, vars, mem);
        if ApplyBinary(e.kind, x.value, y.value, frame.alu).Some? {
          CompareWidth(e.kind, x.value, y.value, frame.alu);
          PlainIs(ApplyBinary(e.kind, x.value, y.value, frame.alu).value);
        }
      } else if ApplyBinary(e.kind, x.value, y.value, frame.alu).Some? {
        ArithWidth(e.kind, a, x.value, b, y.value, frame.alu);
      }
    }
  }

  lemma PlainIs(v: Value)
    ensures OfWidth(Plain, v) <==> !v.LongVal?
  {
  }

  // An expression with a width meets its guards on every input, as long as no
  // variable holds a 64-bit value, and its value has that width.
  lemma {:induction false} WidthGuards(e: Expr, frame: Frame, vars: Vars, mem: Mem)
    requires ShortVars(frame.args) && ShortVars(vars) && WidthOf(e).Some?
    ensures Guarded(e, frame, vars, mem)
    ensures Eval(e, frame, vars, mem).Some? ==> OfWidth(WidthOf(e).value, Eval(e, frame, vars, mem).value)
    decreases e
  {
    hide ApplyBinary, Negate, ConstantGuard, CompareGuard, ConstantWidth, Comparable, Wrap;
    match e
    case Unary(op, x) =>
      WidthGuards(x, frame, vars, mem);
      if op.Neg? && Eval(x, frame, vars, mem).Some? && Negate(Eval(x, frame, vars, mem).value).Some? {
        NegWidth(WidthOf(x).value, Eval(x, frame, vars, mem).value);
      }
    case Binary(kind, l, r) =>
      WidthGuards(l, frame, vars, mem);
      if ConstantOperand(kind).None? {
        WidthGuards(r, frame, vars, mem);
      }
      BinaryWidth(e, frame, vars, mem);
    case _ =>
  }
}
