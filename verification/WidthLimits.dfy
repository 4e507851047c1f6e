// Which operations on 64-bit values the kernel, which keeps their low words,
// gets right: for each kind of operation the exact condition.

module WidthLimits {
  import opened Words
  import opened Hir
  import opened AccelIr
  import opened Lowering
  import opened LongArithmetic

  // ------------------------------------------------------------------
  // Comparisons
  // ------------------------------------------------------------------

  predicate ComparesAlike(l: Int64, kind: BinaryKind, y: Word, alu: Alu) {
    CompareOpcode(kind).Some? ==>
      ApplyBinary(kind, LongVal(l), LongVal(Signed(y)), alu)
      == Some(IntVal(IntOperate(CompareOpcode(kind).value, Wrap(l), y)))
  }

  // A 64-bit value compares as its word does, in every comparison with every
  // number of an int's range, exactly when it is in that range itself.
  lemma NarrowComparesIff(l: Int64, alu: Alu)
    ensures INT_MIN <= l <= INT_MAX <==> forall kind, y: Word :: ComparesAlike(l, kind, y, alu)
  {
    hide BitWord, Bitwise, TruncDiv, TruncMod, DivWord, ModWord, Power2, Wrap, Wrap64;
    if INT_MIN <= l <= INT_MAX {
      SignedOfWrap(l);
    } else if l > INT_MAX {
      assert !ComparesAlike(l, Lte, 0x7FFF_FFFF, alu);
    } else {
      assert !ComparesAlike(l, Gte, 0x8000_0000, alu);
    }
  }

  // Equality of an int and a 64-bit value of its range takes the int's bits
  // for its number, and so is wrong exactly when both are the same negative
  // number.
  lemma ByBitsIff(kind: BinaryKind, l: Int32, w: Word, longLeft: bool, alu: Alu)
    requires kind.Eq? || (kind.Neq? && longLeft)
    ensures var v := if longLeft then ApplyBinary(kind, LongVal(l), IntVal(w), alu) else ApplyBinary(kind, IntVal(w), LongVal(l), alu);
      v == Some(Truth(if kind.Eq? then l == Signed(w) else l != Signed(w))) <==> l != Signed(w) || l >= 0
  {
    hide Bitwise, Power2, Wrap64, TruncDiv, TruncMod;
  }

  // ------------------------------------------------------------------
  // Right shifts
  // ------------------------------------------------------------------

  lemma {:induction false} PowerSum(a: nat, b: nat)
    ensures Power2(a + b) == Power2(a) * Power2(b)
  {
    if a > 0 {
      PowerSum(a - 1, b);
      Associates(2, Power2(a - 1), Power2(b));
    }
  }

  lemma Associates(a: int, b: int, c: int)
    ensures a * b * c == a * (b * c)
  {
  }

  lemma QuotientIs(a: nat, m: nat, q: nat, r: nat)
    requires a == q * m + r && r < m
    ensures a / m == q
  {
    RemainderIs(a, m, q, r);
    assert a == a / m * m + a % m;
    Difference(a / m, q, m);
    NotBetween(a / m - q, m);
  }

  lemma Difference(a: int, b: int, m: int)
    ensures (a - b) * m == a * m - b * m
  {
  }

  lemma Grows(a: nat, b: nat, q: nat)
    requires a <= b
    ensures a * q <= b * q
  {
    Difference(b, a, q);
  }

  lemma Sum(a: int, b: int, m: int)
    ensures (a + b) * m == a * m + b * m
  {
  }

  // h * (p * q) + w, divided by p.
  lemma ShiftedQuotient(h: nat, w: nat, p: nat, q: nat)
    requires p > 0
    ensures (h * (p * q) + w) / p == h * q + w / p
  {
    var (x, y) := (w / p, w % p);
    assert w == x * p + y;
    Associates(h, q, p);
    Sum(h * q, x, p);
    assert q * p == p * q;
    QuotientIs(h * (p * q) + w, p, h * q + x, y);
  }

  // What it leaves modulo p * q.
  lemma ShiftedParts(h: nat, x: nat, p: nat, q: nat)
    requires p > 0 && x < q
    ensures h * q + x == h / p * (p * q) + (h % p * q + x) && h % p * q + x < p * q
  {
    var (u, v) := (h / p, h % p);
    assert h == u * p + v;
    Sum(u * p, v, q);
    Associates(u, p, q);
    Grows(v + 1, p, q);
    Sum(v, 1, q);
  }

  lemma SmallQuotient(w: nat, p: nat, q: nat)
    requires p > 0 && w < p * q
    ensures w / p < q
  {
    assert w == w / p * p + w % p;
    if w / p >= q {
      Grows(q, w / p, p);
    }
  }

  lemma ZeroProduct(a: nat, b: nat)
    requires b > 0
    ensures a * b == 0 <==> a == 0
  {
  }

  // A right shift of a 64-bit value leaves the word the 32-bit shift leaves
  // exactly when it brings no set bit down from the upper half.
  lemma WideShiftIff(l: Int64, c: nat)
    requires c <= 31
    ensures Wrap(Pattern(l) / Power2(c)) == ShiftRight(Wrap(l), c) <==> Pattern(l) / 0x1_0000_0000 % Power2(c) == 0
  {
    hide Wrap, Power2, Pattern;
    Power2At32();
    PowerSum(c, 32 - c);
    WrapOfPattern(l);
    ShiftsAlike(Pattern(l), Power2(c), Power2(32 - c));
  }

  lemma ShiftsAlike(a: nat, p: nat, q: nat)
    requires p > 0 && q > 0 && p * q == 0x1_0000_0000
    ensures Wrap(a / p) == Wrap(Wrap(a) / p) <==> a / 0x1_0000_0000 % p == 0
  {
    hide Wrap;
    var (h, w) := (a / 0x1_0000_0000, a % 0x1_0000_0000);
    WrapUnique(a, w, h);
    SmallQuotient(w, p, q);
    ShiftedQuotient(h, w, p, q);
    var (x, u, v) := (w / p, h / p, h % p);
    ShiftedParts(h, x, p, q);
    WrapUnique(h * q + x, v * q + x, u);
    WrapUnique(x, x, 0);
    ZeroProduct(v, q);
  }

  // Only a shift by 0 leaves the right word from every 64-bit value.
  lemma WideShiftAlways(c: nat)
    requires c <= 31
    ensures c == 0 <==> forall l: Int64 :: Wrap(Pattern(l) / Power2(c)) == ShiftRight(Wrap(l), c)
  {
    hide Wrap, ShiftRight;
    forall l: Int64
      ensures Wrap(Pattern(l) / Power2(c)) == ShiftRight(Wrap(l), c) <==> Pattern(l) / 0x1_0000_0000 % Power2(c) == 0
    {
      WideShiftIff(l, c);
    }
    if c > 0 {
      var l: Int64 := 0x1_0000_0000;
      assert Power2(c) >= 2;
      assert Pattern(l) / 0x1_0000_0000 == 1;
    }
  }

  // ------------------------------------------------------------------
  // Dividends
  // ------------------------------------------------------------------

  // Dividing the 64-bit value leaves the word that dividing its word leaves.
  predicate DividesAlike(kind: BinaryKind, l: Int64, c: Int64, alu: Alu) {
    (kind.Div? || kind.Mod?) && ConstantAllowed(kind, c) ==>
      var v := ApplyBinary(kind, LongVal(l), LongVal(c), alu);
      v.Some? && v.value.LongVal? && Wrap(v.value.l) == IntOperate(ConstantOperand(kind).value, Wrap(l), Wrap(c))
  }

  lemma DividesAlikeIs(kind: BinaryKind, l: Int64, c: Int64, alu: Alu)
    requires (kind.Div? || kind.Mod?) && ConstantAllowed(kind, c)
    ensures var s := Signed(Wrap(l));
      DividesAlike(kind, l, c, alu) <==>
      if kind.Div? then Wrap(TruncDiv(l, c)) == Wrap(TruncDiv(s, c)) else Wrap(TruncMod(l, c)) == Wrap(TruncMod(s, c))
  {
    hide BitWord, FloatBinary, TruncDiv, TruncMod, Wrap, Wrap64;
    SignedOfWrap(c);
    WrapOf64(TruncDiv(l, c));
    WrapOf64(TruncMod(l, c));
  }

  lemma DivideParts(x: int, d: int)
    requires d > 0
    ensures x == TruncDiv(x, d) * d + TruncMod(x, d) && -d < TruncMod(x, d) < d
  {
    var n := if x < 0 then 0 - x else x;
    assert n == n / d * d + n % d;
    Negated(n / d, d);
  }

  lemma Negated(a: int, b: int)
    ensures (0 - a) * b == 0 - a * b
  {
  }

  // Beyond the range of an int the largest divisor, or 2, tells the value
  // from its word.
  lemma BeyondDiffers(l: Int64)
    requires !(INT_MIN <= l <= INT_MAX)
    ensures var s := Signed(Wrap(l));
      || Wrap(TruncMod(l, INT_MAX)) != Wrap(TruncMod(s, INT_MAX))
      || Wrap(TruncDiv(l, INT_MAX)) != Wrap(TruncDiv(s, INT_MAX))
      || Wrap(TruncDiv(l, 2)) != Wrap(TruncDiv(s, 2))
  {
    hide Wrap, TruncDiv, TruncMod;
    var s := Signed(Wrap(l));
    var (q, r, u, v) := (TruncDiv(l, INT_MAX), TruncMod(l, INT_MAX), TruncDiv(s, INT_MAX), TruncMod(s, INT_MAX));
    DivideParts(l, INT_MAX);
    DivideParts(s, INT_MAX);
    if Wrap(r) == Wrap(v) && Wrap(q) == Wrap(u) {
      SignedOfWrap(r);
      SignedOfWrap(v);
      var i := WrapQuotient(q);
      var j := WrapQuotient(u);
      OneRound(l, s, i - j);
      HalvesDiffer(l, s);
    }
  }

  // Values a multiple of 2^32 * INT_MAX apart are the same or one such step
  // apart.
  lemma OneRound(l: Int64, s: Int32, k: int)
    requires l - s == k * 0x1_0000_0000 * INT_MAX
    ensures l == s || l - s == 0x1_0000_0000 * INT_MAX || s - l == 0x1_0000_0000 * INT_MAX
  {
  }

  lemma HalvesDiffer(l: int, s: int)
    requires l - s == 0x1_0000_0000 * INT_MAX || s - l == 0x1_0000_0000 * INT_MAX
    ensures Wrap(TruncDiv(l, 2)) != Wrap(TruncDiv(s, 2))
  {
    hide Wrap, TruncDiv, TruncMod;
    DivideParts(l, 2);
    DivideParts(s, 2);
    var i := WrapQuotient(TruncDiv(l, 2));
    var j := WrapQuotient(TruncDiv(s, 2));
  }

  // A 64-bit dividend leaves the word the 32-bit division leaves, under every
  // divisor the compiler accepts, exactly when it is in the range of an int.
  lemma NarrowDividesIff(l: Int64, alu: Alu)
    ensures INT_MIN <= l <= INT_MAX <==> forall kind, c: Int64 :: DividesAlike(kind, l, c, alu)
  {
    hide DividesAlike, ConstantAllowed, TruncDiv, TruncMod, Wrap;
    if INT_MIN <= l <= INT_MAX {
      forall kind, c: Int64 ensures DividesAlike(kind, l, c, alu) {
        InRangeDivides(kind, l, c, alu);
      }
    } else {
      BeyondDiffers(l);
      AllowedDivisor(INT_MAX);
      AllowedDivisor(2);
      DividesAlikeIs(Mod, l, INT_MAX, alu);
      DividesAlikeIs(Div, l, INT_MAX, alu);
      DividesAlikeIs(Div, l, 2, alu);
    }
  }

  lemma AllowedDivisor(c: Int64)
    requires 0 < c <= INT_MAX
    ensures ConstantAllowed(Div, c) && ConstantAllowed(Mod, c)
  {
  }

  lemma InRangeDivides(kind: BinaryKind, l: Int32, c: Int64, alu: Alu)
    ensures DividesAlike(kind, l, c, alu)
  {
    hide TruncDiv, TruncMod, Wrap;
    SignedOfWrap(l);
    if (kind.Div? || kind.Mod?) && ConstantAllowed(kind, c) {
      DividesAlikeIs(kind, l, c, alu);
    }
  }

  // A divisor the compiler accepts leaves the right word from every 64-bit
  // dividend exactly when it is 1.
  lemma WideDivisorIff(kind: BinaryKind, c: Int64, alu: Alu)
    requires (kind.Div? || kind.Mod?) && ConstantAllowed(kind, c)
    ensures c == 1 <==> forall l: Int64 :: DividesAlike(kind, l, c, alu)
  {
    hide DividesAlike, TruncDiv, TruncMod, Wrap;
    if c == 1 {
      forall l: Int64 ensures DividesAlike(kind, l, c, alu) {
        DividesAlikeIs(kind, l, c, alu);
        Whole(l);
        Whole(Signed(Wrap(l)));
        WrapOfWord(Wrap(l));
      }
    } else {
      var l: Int64 := if kind.Div? then 0x1_0000_0000 else 0xFFFF_FFFF;
      DividesAlikeIs(kind, l, c, alu);
      WideDividend(c);
      WrapUnique(0x1_0000_0000, 0, 1);
      WrapOfWord(0xFFFF_FFFF);
    }
  }

  lemma WideDividend(c: int)
    requires 1 < c <= INT_MAX
    ensures Wrap(TruncDiv(0x1_0000_0000, c)) != Wrap(TruncDiv(0, c))
    ensures Wrap(TruncMod(0xFFFF_FFFF, c)) != Wrap(TruncMod(-1, c))
  {
    hide TruncDiv, TruncMod;
    DivideParts(0x1_0000_0000, c);
    DivideParts(0, c);
    DivideParts(0xFFFF_FFFF, c);
    DivideParts(-1, c);
    DivideSigns(c);
  }

  lemma DivideSigns(c: int)
    requires 1 < c <= INT_MAX
    ensures TruncDiv(0, c) == 0 && TruncMod(-1, c) == -1 && 0 <= TruncMod(0xFFFF_FFFF, c) < c
    ensures 0 < TruncDiv(0x1_0000_0000, c) <= 0x8000_0000
  {
    var q := 0x1_0000_0000 / c;
    assert 0x1_0000_0000 == q * c + 0x1_0000_0000 % c;
    SmallDividend(1, c);
    Grows(2, c, q);
  }
}
