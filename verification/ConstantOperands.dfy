// Division, remainder and shifts by a constant.  The compiler folds the
// right operand exactly in 64 bits; the program evaluates it with its own
// mixture of 32-bit and 64-bit arithmetic.  This module says exactly when
// the two agree on every int left operand.

module ConstantOperands {
  import opened Words
  import opened Hir
  import opened AccelIr
  import opened Lowering
  import opened LongArithmetic

  const NO_FRAME := Frame("", 0, map[], [], Alu((_, _, _) => 0, (_, _, _) => false))

  // What the program computes for an expression without names.
  function SourceConstant(e: Expr): Option<Value> { Eval(e, NO_FRAME, map[], []) }

  // Only literals and their negations, sums and differences fold, so the
  // source value does not depend on where it is computed.
  lemma {:induction false} ClosedMeaning(e: Expr, depth: nat, frame: Frame, vars: Vars, mem: Mem)
    requires Fold(e, depth).Some?
    ensures Eval(e, frame, vars, mem) == SourceConstant(e)
    ensures SourceConstant(e).Some?
    ensures LongFree(e) ==> SourceConstant(e).value.IntVal?
    ensures !LongFree(e) ==> SourceConstant(e).value.LongVal?
  {
    hide IntBinary, LongBinary, FloatBinary, ReadElement, LookupName;
    match e
    case TermExpr(_) =>
    case Unary(_, x) => ClosedMeaning(x, depth + 1, frame, vars, mem);
    case Binary(kind, l, r) =>
      ClosedMeaning(l, depth + 1, frame, vars, mem);
      ClosedMeaning(r, depth + 1, frame, vars, mem);
      var (a, b) := (SourceConstant(l).value, SourceConstant(r).value);
      SumKind(kind, a, b, frame.alu);
      SumKind(kind, a, b, NO_FRAME.alu);
  }

  // A sum is 64-bit exactly when an operand is.
  lemma SumKind(kind: BinaryKind, a: Value, b: Value, alu: Alu)
    requires (kind.Plus? || kind.Minus?) && !a.FloatVal? && !b.FloatVal?
    ensures var v := ApplyBinary(kind, a, b, alu);
      && v == ApplyBinary(kind, a, b, NO_FRAME.alu) && v.Some?
      && (v.value.LongVal? <==> a.LongVal? || b.LongVal?) && (v.value.IntVal? <==> a.IntVal? && b.IntVal?)
  {
  }

  // Folding and the program agree on the low word.
  lemma {:induction false} FoldWord(e: Expr, depth: nat)
    requires Fold(e, depth).Some?
    ensures SourceConstant(e).Some? && !SourceConstant(e).value.FloatVal?
    ensures WordOf(SourceConstant(e).value) == Wrap(Fold(e, depth).value)
  {
    hide Wrap, Negate, ApplyBinary, ReadElement, LookupName;
    ClosedMeaning(e, depth, NO_FRAME, map[], []);
    match e
    case TermExpr(_) =>
    case Unary(Par, x) => FoldWord(x, depth + 1);
    case Unary(Neg, x) =>
      FoldWord(x, depth + 1);
      NegateWord(SourceConstant(x).value);
      WrapOfSum(Fold(x, depth + 1).value, 0);
    case Binary(kind, l, r) =>
      FoldWord(l, depth + 1);
      FoldWord(r, depth + 1);
      ArithWord(kind, SourceConstant(l).value, SourceConstant(r).value, NO_FRAME.alu);
      WrapBoth(Fold(l, depth + 1).value, Fold(r, depth + 1).value);
  }

  // The program computes the folded number, as an int or as a 64-bit value.
  predicate ConstantExact(r: Expr) {
    LongFree(r) || (FoldConstant(r).Some? && SourceConstant(r) == Some(LongVal(FoldConstant(r).value)))
  }

  // What the IR computes from x.
  function LoweredWord(kind: BinaryKind, x: Word, r: Expr): Word
    requires ConstantOperand(kind).Some? && FoldConstant(r).Some?
  {
    IntOperate(ConstantOperand(kind).value, x, Wrap(FoldConstant(r).value))
  }

  // The program computes a value of the same word from x.
  predicate SameFrom(kind: BinaryKind, x: Word, r: Expr, alu: Alu)
    requires ConstantOperand(kind).Some? && FoldConstant(r).Some?
  {
    && SourceConstant(r).Some?
    && var v := ApplyBinary(kind, IntVal(x), SourceConstant(r).value, alu);
      v.Some? && !v.value.FloatVal? && WordOf(v.value) == LoweredWord(kind, x, r)
  }

  lemma IntOperand(kind: BinaryKind, x: Word, c: Int64, alu: Alu)
    requires ConstantOperand(kind).Some? && ConstantAllowed(kind, c)
    ensures ApplyBinary(kind, IntVal(x), IntVal(Wrap(c)), alu) == Some(IntVal(IntOperate(ConstantOperand(kind).value, x, Wrap(c))))
  {
    hide BitWord, LongBinary, DivWord, ModWord, FloatBinary, Wrap;
    SignedOfWrap(c);
    WrapUnique(c, c, 0);
  }

  lemma LongOperand(kind: BinaryKind, x: Word, c: Int64, alu: Alu)
    requires ConstantOperand(kind).Some? && ConstantAllowed(kind, c)
    ensures var v := ApplyBinary(kind, IntVal(x), LongVal(c), alu);
      && v.Some? && !v.value.FloatVal? && WordOf(v.value) == IntOperate(ConstantOperand(kind).value, x, Wrap(c))
      && (kind.Div? || kind.Mod? ==> v.value.LongVal? && INT_MIN <= v.value.l <= INT_MAX)
      && (kind.Shl? || kind.Shr? ==> v.value.IntVal?)
  {
    hide BitWord, TruncDiv, TruncMod, FloatBinary, Wrap, Wrap64, ShiftLeft, ShiftRight;
    SignedOfWrap(c);
    WrapUnique(c, c, 0);
    if kind.Div? || kind.Mod? {
      QuotientFits(Signed(x), c);
      Within64(TruncDiv(Signed(x), c));
      Within64(TruncMod(Signed(x), c));
    }
  }

  // A wrong constant differs by a multiple of 2^32, so it is no shift amount,
  // and as a divisor it is beyond the right one.
  lemma WrongConstant(kind: BinaryKind, y: Int64, c: Int64)
    requires ConstantOperand(kind).Some? && ConstantAllowed(kind, c) && y != c && Wrap(y) == Wrap(c)
    ensures kind.Div? || kind.Mod? ==> y > c || y < 0 - c
    ensures kind.Shl? || kind.Shr? ==> !(0 <= y <= 31)
  {
    hide Wrap;
    WrapUnique(c, c, 0);
    var k := WrapQuotient(y);
    assert k != 0;
  }

  lemma ExactSame(kind: BinaryKind, r: Expr, alu: Alu)
    requires ConstantOperand(kind).Some? && FoldConstant(r).Some? && ConstantAllowed(kind, FoldConstant(r).value)
    requires ConstantExact(r)
    ensures forall x: Word :: SameFrom(kind, x, r, alu)
  {
    hide ApplyBinary, Eval, Wrap, Fold, IntOperate, ConstantOperand;
    var c := FoldConstant(r).value;
    if LongFree(r) {
      FoldMeaning(r, 0, NO_FRAME, map[], []);
      forall x: Word ensures SameFrom(kind, x, r, alu) { IntOperand(kind, x, c, alu); }
    } else {
      forall x: Word ensures SameFrom(kind, x, r, alu) { LongOperand(kind, x, c, alu); }
    }
  }

  // The emitted operation computes the source's word from every left operand
  // exactly when the program computes the folded number.
  lemma ConstantExactIff(kind: BinaryKind, r: Expr, alu: Alu)
    requires ConstantOperand(kind).Some? && FoldConstant(r).Some? && ConstantAllowed(kind, FoldConstant(r).value)
    ensures ConstantExact(r) <==> forall x: Word :: SameFrom(kind, x, r, alu)
  {
    hide SameFrom, Eval, Fold, Wrap;
    if ConstantExact(r) {
      ExactSame(kind, r, alu);
    } else {
      ClosedMeaning(r, 0, NO_FRAME, map[], []);
      FoldWord(r, 0);
      WrongDiffers(kind, r, SourceConstant(r).value.l, alu);
    }
  }

  lemma WrongDiffers(kind: BinaryKind, r: Expr, y: Int64, alu: Alu)
    requires ConstantOperand(kind).Some? && FoldConstant(r).Some? && ConstantAllowed(kind, FoldConstant(r).value)
    requires SourceConstant(r) == Some(LongVal(y)) && y != FoldConstant(r).value && Wrap(y) == Wrap(FoldConstant(r).value)
    ensures exists x: Word :: !SameFrom(kind, x, r, alu)
  {
    hide FoldConstant, SourceConstant, Wrap, Wrap64, TruncDiv, TruncMod, FloatBinary;
    var c := FoldConstant(r).value;
    WrongConstant(kind, y, c);
    WrapUnique(c, c, 0);
    SignedOfWrap(c);
    WrapOfWord(0);
    if kind.Div? || kind.Mod? {
      DividesNot(c, y);
      Within64(0);
      Within64(c);
      DividesItself(c);
      WrapUnique(1, 1, 0);
      assert !SameFrom(kind, c, r, alu);
    } else {
      assert !SameFrom(kind, 0, r, alu);
    }
  }

  lemma DividesItself(c: int)
    requires c > 0
    ensures TruncDiv(c, c) == 1 && TruncMod(c, c) == 0
  {
  }
}
