// 64-bit source values seen as 32-bit words: which operations on them are
// decided by their low words.

module LongArithmetic {
  import opened Words
  import opened Hir

  // The word a value leaves in a 32-bit element.
  function WordOf(v: Value): Word {
    match v
    case IntVal(w) => w
    case LongVal(l) => Wrap(l)
    case FloatVal(f) => f
  }

  // The number an int or a 64-bit value stands for.
  function NumberOf(v: Value): Int64 {
    match v
    case IntVal(w) => Signed(w)
    case LongVal(l) => l
    case FloatVal(_) => 0
  }

  lemma WrapOf64(x: int)
    ensures Wrap(Wrap64(x)) == Wrap(x)
  {
    hide Wrap;
    var k := Wrap64Quotient(x);
    var q := WrapQuotient(x);
    WrapUnique(Wrap64(x), Wrap(x), q - k * 0x1_0000_0000);
  }

  lemma Wrap64Quotient(x: int) returns (k: int)
    ensures x == Wrap64(x) + k * TWO_64
  {
    k := if x % TWO_64 <= 0x7FFF_FFFF_FFFF_FFFF then x / TWO_64 else x / TWO_64 + 1;
  }

  lemma WrapOfPattern(l: Int64)
    ensures Wrap(Pattern(l)) == Wrap(l)
  {
    hide Wrap;
    var k := l / TWO_64;
    var q := WrapQuotient(l);
    WrapUnique(Pattern(l), Wrap(l), q - k * 0x1_0000_0000);
  }

  lemma NumberWord(v: Value)
    requires !v.FloatVal?
    ensures Wrap(NumberOf(v)) == WordOf(v)
  {
    hide Wrap;
    if v.IntVal? {
      WrapOfWord(v.w);
    }
  }

  // Sums, differences and products of ints and 64-bit values: the low word is
  // that of the low words.
  lemma ArithWord(kind: BinaryKind, x: Value, y: Value, alu: Alu)
    requires (kind.Plus? || kind.Minus? || kind.Mul?) && !x.FloatVal? && !y.FloatVal?
    ensures var v := ApplyBinary(kind, x, y, alu);
      && v.Some? && (v.value.IntVal? <==> x.IntVal? && y.IntVal?) && !v.value.FloatVal?
      && WordOf(v.value) ==
        if kind.Plus? then Add(WordOf(x), WordOf(y)) else if kind.Minus? then Sub(WordOf(x), WordOf(y)) else Words.Mul(WordOf(x), WordOf(y))
  {
    hide Wrap, Wrap64, FloatBinary, BitWord;
    NumberWord(x);
    NumberWord(y);
    var (a: int, b: int) := (NumberOf(x), NumberOf(y));
    WrapBoth(a, b);
    WrapOfProduct(a, b);
    WrapOf64(a + b);
    WrapOf64(a - b);
    WrapOf64(a * b);
  }

  lemma NegateWord(x: Value)
    requires !x.FloatVal?
    ensures var v := Negate(x);
      v.Some? && (v.value.IntVal? <==> x.IntVal?) && !v.value.FloatVal? && WordOf(v.value) == Sub(0, WordOf(x))
  {
    hide Wrap, Wrap64;
    if x.LongVal? {
      WrapOf64(0 - x.l);
      WrapOfSum(x.l, 0);
    }
  }

  function BitsOf(kind: BinaryKind, v: Value, onRight: bool): nat
    requires BitOperatorOf(kind).Some? && !v.FloatVal?
  {
    Pattern(if v.IntVal? then Widened(kind, v.w, onRight) else v.l)
  }

  // Bitwise combinations too.
  lemma BitsWord(kind: BinaryKind, x: Value, y: Value, alu: Alu)
    requires BitOperatorOf(kind).Some? && !x.FloatVal? && !y.FloatVal?
    ensures var v := ApplyBinary(kind, x, y, alu);
      && v.Some? && (v.value.IntVal? <==> x.IntVal? && y.IntVal?) && !v.value.FloatVal?
      && WordOf(v.value) == BitWord(BitOperatorOf(kind).value, WordOf(x), WordOf(y))
  {
    hide Wrap, Wrap64, Bitwise, Pattern;
    if !(x.IntVal? && y.IntVal?) {
      var op := BitOperatorOf(kind).value;
      var (a, b) := (BitsOf(kind, x, false), BitsOf(kind, y, true));
      var r := Bitwise(op, a, b, 64);
      assert ApplyBinary(kind, x, y, alu) == Some(LongVal(Wrap64(r)));
      BitsLow(kind, x, false);
      BitsLow(kind, y, true);
      WrapOf64(r);
      LowWord(op, a, b);
    }
  }

  lemma BitsLow(kind: BinaryKind, v: Value, onRight: bool)
    requires BitOperatorOf(kind).Some? && !v.FloatVal?
    ensures Wrap(BitsOf(kind, v, onRight)) == WordOf(v)
  {
    hide Wrap, Pattern;
    WrapOfPattern(if v.IntVal? then Widened(kind, v.w, onRight) else v.l);
    if v.IntVal? {
      WrapOfWord(v.w);
    }
  }

  lemma LowWord(op: BitOperator, a: nat, b: nat)
    ensures Wrap(Bitwise(op, a, b, 64)) == BitWord(op, Wrap(a), Wrap(b))
  {
    Power2At32();
    BitwiseLow(op, a, b, 64, 32);
  }

  // A left shift too.
  lemma ShiftLeftWord(l: Int64, amount: nat)
    ensures Wrap(Wrap64(l * Power2(amount))) == ShiftLeft(Wrap(l), amount)
  {
    hide Wrap, Wrap64, Power2;
    WrapOf64(l * Power2(amount));
    WrapOfProduct(l, Power2(amount));
    WrapOfProduct(Wrap(l), Power2(amount));
    WrapOfWord(Wrap(l));
  }

  lemma Within64(x: int)
    requires INT_MIN <= x <= INT_MAX
    ensures Wrap64(x) == x
  {
  }

  lemma Keeps64(l: Int64)
    ensures Wrap64(l) == l
  {
  }

  lemma Whole(x: int)
    ensures TruncDiv(x, 1) == x && TruncMod(x, 1) == 0
  {
  }

  // A quotient by a positive divisor does not leave the range of its dividend.
  lemma QuotientFits(x: Int32, d: int)
    requires d > 0
    ensures INT_MIN <= TruncDiv(x, d) <= INT_MAX && INT_MIN <= TruncMod(x, d) <= INT_MAX
  {
    var n := if x < 0 then 0 - x else x;
    QuotientAtMost(n, d);
  }

  lemma QuotientAtMost(n: nat, d: nat)
    requires d > 0
    ensures n / d <= n && n % d <= n
  {
    PartsAtMost(n, n / d, d, n % d);
  }

  lemma PartsAtMost(n: int, q: int, d: int, r: int)
    requires n == q * d + r && q >= 0 && d >= 1 && r >= 0
    ensures q <= n && r <= n
  {
    assert q * d == q * (d - 1) + q;
    assert q * (d - 1) >= 0;
  }

  // A divisor beyond the dividend leaves it as the remainder.
  lemma DividesNot(x: nat, d: int)
    requires d > x || d < 0 - x
    ensures TruncDiv(x, d) == 0 && TruncMod(x, d) == x
  {
    SmallDividend(x, if d < 0 then 0 - d else d);
  }

  lemma SmallDividend(x: nat, m: nat)
    requires x < m
    ensures x / m == 0 && x % m == x
  {
    var p := x / m;
    assert p * m == x - x % m;
    NotBetween(p, m);
  }
}
