// 32-bit machine words.  HIR integers, IR values, argument words and buffer
// elements are all words; arithmetic wraps modulo 2^32.

module Words {
  const INT_MAX := 0x7FFF_FFFF
  const INT_MIN := -0x8000_0000

  type Word = x: int | 0 <= x < 0x1_0000_0000
  type Int32 = x: int | -0x8000_0000 <= x <= 0x7FFF_FFFF

  datatype Option<+T> = None | Some(value: T) {
    predicate IsFailure() { None? }
    function PropagateFailure<U>(): Option<U> requires None? { None }
    function Extract(): T requires Some? { value }
  }

  function Wrap(x: int): Word { x % 0x1_0000_0000 }

  function Signed(w: Word): Int32 {
    if w <= INT_MAX then w else w - 0x1_0000_0000
  }

  function Add(a: Word, b: Word): Word { Wrap(a + b) }

  function Sub(a: Word, b: Word): Word { Wrap(a - b) }

  function Mul(a: Word, b: Word): Word { Wrap(a * b) }

  // C division and remainder: the quotient truncates toward zero and the
  // remainder has the sign of the dividend.
  function TruncDiv(x: int, d: int): int
    requires d != 0
  {
    var q := (if x < 0 then 0 - x else x) / (if d < 0 then 0 - d else d);
    if (x < 0) == (d < 0) then q else 0 - q
  }

  function TruncMod(x: int, d: int): int
    requires d != 0
  {
    var m := (if x < 0 then 0 - x else x) % (if d < 0 then 0 - d else d);
    if x < 0 then 0 - m else m
  }

  function DivWord(a: Word, d: int): Word
    requires d != 0
  {
    Wrap(TruncDiv(Signed(a), d))
  }

  function ModWord(a: Word, d: int): Word
    requires d != 0
  {
    Wrap(TruncMod(Signed(a), d))
  }

  datatype BitOperator = BitAnd | BitOr | BitXor

  function BitOf(op: BitOperator, a: bool, b: bool): bool {
    match op
    case BitAnd => a && b
    case BitOr => a || b
    case BitXor => a != b
  }

  // The low `bits` bits of the bitwise combination of two naturals.
  function Bitwise(op: BitOperator, a: nat, b: nat, bits: nat): (r: nat)
    ensures r < Power2(bits)
    decreases bits
  {
    if bits == 0 then 0
    else
      2 * Bitwise(op, a / 2, b / 2, bits - 1)
      + (if BitOf(op, a % 2 == 1, b % 2 == 1) then 1 else 0)
  }

  function Power2(n: nat): (p: nat)
    ensures p > 0
  {
    if n == 0 then 1 else 2 * Power2(n - 1)
  }

  lemma Power2At32()
    ensures Power2(32) == 0x1_0000_0000
  {
    assert Power2(8) == 256;
    assert Power2(16) == 0x1_0000;
    assert Power2(24) == 0x100_0000;
  }

  function BitWord(op: BitOperator, a: Word, b: Word): Word {
    Power2At32();
    Bitwise(op, a, b, 32)
  }

  function ShiftLeft(a: Word, amount: nat): Word { Wrap(a * Power2(amount)) }

  // A logical shift: vacated high bits are zero.
  function ShiftRight(a: Word, amount: nat): Word {
    Wrap(a / Power2(amount))
  }

  // A word congruent to x is the wrapped x.
  lemma WrapUnique(x: int, w: Word, k: int)
    requires x == w + k * 0x1_0000_0000
    ensures Wrap(x) == w
  {
  }

  lemma WrapQuotient(x: int) returns (k: int)
    ensures x == Wrap(x) + k * 0x1_0000_0000
  {
    k := x / 0x1_0000_0000;
  }

  lemma WrapOfWord(w: Word)
    ensures Wrap(w) == w
    ensures Wrap(Signed(w)) == w
  {
    WrapUnique(w, w, 0);
    WrapUnique(Signed(w), w, if w <= INT_MAX then 0 else -1);
  }

  lemma WrapOfSum(x: int, y: int)
    ensures Wrap(Wrap(x) + y) == Wrap(x + y)
    ensures Wrap(Wrap(x) - y) == Wrap(x - y)
    ensures Wrap(y - Wrap(x)) == Wrap(y - x)
  {
    hide Wrap;
    var k := WrapQuotient(x);
    var a := WrapQuotient(x + y);
    var b := WrapQuotient(x - y);
    var c := WrapQuotient(y - x);
    WrapUnique(Wrap(x) + y, Wrap(x + y), a - k);
    WrapUnique(Wrap(x) - y, Wrap(x - y), b - k);
    WrapUnique(y - Wrap(x), Wrap(y - x), c + k);
  }

  lemma WrapBoth(x: int, y: int)
    ensures Add(Wrap(x), Wrap(y)) == Wrap(x + y)
    ensures Sub(Wrap(x), Wrap(y)) == Wrap(x - y)
  {
    hide Wrap;
    WrapOfSum(x, Wrap(y));
    WrapOfSum(y, x);
  }

  // A value in the signed range is recovered from its word.
  lemma SignedOfWrap(x: Int32)
    ensures Signed(Wrap(x)) == x
  {
    hide Wrap;
    if x >= 0 {
      WrapUnique(x, x, 0);
    } else {
      WrapUnique(x, x + 0x1_0000_0000, -1);
    }
  }

  // Products, like sums, may be reduced before or after.
  lemma WrapOfProduct(x: int, y: int)
    ensures Wrap(Wrap(x) * Wrap(y)) == Wrap(x * y)
  {
    hide Wrap;
    var a := WrapQuotient(x);
    var b := WrapQuotient(y);
    var p := WrapQuotient(x * y);
    var (u: int, v: int) := (Wrap(x), Wrap(y));
    ProductShift(u, v, a, b, 0x1_0000_0000);
    WrapUnique(u * v, Wrap(x * y), p - (u * b + v * a + a * b * 0x1_0000_0000));
  }

  lemma ProductShift(u: int, v: int, a: int, b: int, m: int)
    ensures (u + a * m) * (v + b * m) == u * v + (u * b + v * a + a * b * m) * m
  {
  }

  lemma HalfOfRemainder(a: nat, p: nat)
    requires p > 0
    ensures (a % (2 * p)) / 2 == (a / 2) % p && (a % (2 * p)) % 2 == a % 2
  {
    var (q, r) := (a / 2 / p, a / 2 % p);
    assert a / 2 == q * p + r;
    assert a == q * (2 * p) + (2 * r + a % 2);
    RemainderIs(a, 2 * p, q, 2 * r + a % 2);
  }

  lemma RemainderIs(a: nat, m: nat, q: nat, r: nat)
    requires a == q * m + r && r < m
    ensures a % m == r
  {
    QuotientUnique(a / m, q, m, a % m, r);
  }

  lemma QuotientUnique(p: int, q: int, m: int, r: int, s: int)
    requires p * m + r == q * m + s && 0 <= r < m && 0 <= s < m
    ensures r == s
  {
    var d := p - q;
    assert d * m == s - r;
    NotBetween(d, m);
  }

  lemma NotBetween(d: int, m: int)
    requires m > 0 && -m < d * m < m
    ensures d == 0
  {
    assert d >= 1 ==> (d - 1) * m >= 0;
    assert d <= -1 ==> (-1 - d) * m >= 0;
  }

  // The low bits of a bitwise combination combine the low bits.
  lemma {:induction false} BitwiseLow(op: BitOperator, a: nat, b: nat, n: nat, m: nat)
    requires m <= n
    ensures Bitwise(op, a, b, n) % Power2(m) == Bitwise(op, a % Power2(m), b % Power2(m), m)
  {
    if m > 0 {
      BitwiseLow(op, a / 2, b / 2, n - 1, m - 1);
      var p := Power2(m - 1);
      HalfOfRemainder(a, p);
      HalfOfRemainder(b, p);
      LowStep(op, a, b, n, m, p);
    }
  }

  lemma LowStep(op: BitOperator, a: nat, b: nat, n: nat, m: nat, p: nat)
    requires 0 < m <= n && p == Power2(m - 1)
    requires Bitwise(op, a / 2, b / 2, n - 1) % p == Bitwise(op, a / 2 % p, b / 2 % p, m - 1)
    requires a % (2 * p) / 2 == a / 2 % p && a % (2 * p) % 2 == a % 2
    requires b % (2 * p) / 2 == b / 2 % p && b % (2 * p) % 2 == b % 2
    ensures Bitwise(op, a, b, n) % (2 * p) == Bitwise(op, a % (2 * p), b % (2 * p), m)
  {
    var (rest, bit) := (Bitwise(op, a / 2, b / 2, n - 1), if BitOf(op, a % 2 == 1, b % 2 == 1) then 1 else 0);
    DoubleRemainder(rest, bit, p);
  }

  lemma DoubleRemainder(x: nat, bit: nat, p: nat)
    requires p > 0 && bit <= 1
    ensures (2 * x + bit) % (2 * p) == 2 * (x % p) + bit
  {
    assert x == (x / p) * p + x % p;
    assert 2 * x + bit == (x / p) * (2 * p) + (2 * (x % p) + bit);
    RemainderIs(2 * x + bit, 2 * p, x / p, 2 * (x % p) + bit);
  }

  // ------------------------------------------------------------------
  // What the operations compute
  // ------------------------------------------------------------------

  lemma Divided(a: nat, b: nat) returns (q: nat, m: nat)
    requires b > 0
    ensures q == a / b && m == a % b && a == q * b + m && m < b
  {
    q, m := a / b, a % b;
  }

  // Quotient and remainder rebuild the dividend; the remainder is smaller
  // than the divisor and never of the other sign than the dividend.
  lemma TruncMeaning(x: int, d: int)
    requires d != 0
    ensures x == TruncDiv(x, d) * d + TruncMod(x, d)
    ensures if d > 0 then -d < TruncMod(x, d) < d else d < TruncMod(x, d) < -d
    ensures x >= 0 ==> TruncMod(x, d) >= 0
    ensures x <= 0 ==> TruncMod(x, d) <= 0
  {
    var q: int, m: int := Divided(if x < 0 then 0 - x else x, if d < 0 then 0 - d else d);
    assert TruncDiv(x, d) == (if (x < 0) == (d < 0) then q else 0 - q);
    assert TruncMod(x, d) == (if x < 0 then 0 - m else m);
    hide TruncDiv, TruncMod;
    SignedProduct(q, d);
    if x == 0 {
      ZeroParts(q, if d < 0 then 0 - d else d, m);
    }
  }

  lemma SignedProduct(q: int, d: int)
    ensures (0 - q) * d == 0 - q * d == q * (0 - d)
  {
  }

  lemma ZeroParts(q: nat, b: nat, m: nat)
    requires q * b + m == 0
    ensures m == 0
  {
    assert q * b >= 0;
  }

  function BitAt(a: nat, k: nat): bool { a / Power2(k) % 2 == 1 }

  lemma HalfBit(a: nat, k: nat)
    ensures BitAt(a, k + 1) == BitAt(a / 2, k)
  {
    var p := Power2(k);
    HalfQuotient(a, p);
  }

  lemma HalfQuotient(a: nat, p: nat)
    requires p > 0
    ensures a / (2 * p) == a / 2 / p
  {
    var q := a / 2 / p;
    assert a / 2 == q * p + (a / 2) % p;
    assert a == q * (2 * p) + (2 * ((a / 2) % p) + a % 2);
    QuotientIs(a, 2 * p, q, 2 * ((a / 2) % p) + a % 2);
  }

  lemma QuotientIs(a: nat, m: nat, q: nat, r: nat)
    requires a == q * m + r && r < m
    ensures a / m == q
  {
    RemainderIs(a, m, q, r);
    assert (a / m - q) * m == 0;
    NotBetween(a / m - q, m);
  }

  // Each bit of a combination is the combination of the bits.
  lemma {:induction false} BitMeaning(op: BitOperator, a: nat, b: nat, n: nat, k: nat)
    requires k < n
    ensures BitAt(Bitwise(op, a, b, n), k) == BitOf(op, BitAt(a, k), BitAt(b, k))
  {
    var rest := Bitwise(op, a / 2, b / 2, n - 1);
    assert Bitwise(op, a, b, n) / 2 == rest;
    if k == 0 {
      assert Power2(0) == 1;
    } else {
      BitMeaning(op, a / 2, b / 2, n - 1, k - 1);
      HalfBit(a, k - 1);
      HalfBit(b, k - 1);
      HalfBit(Bitwise(op, a, b, n), k - 1);
    }
  }

  lemma ProductGrows(q: nat, p: nat)
    requires p > 0
    ensures q <= q * p && (q + 1) * p == q * p + p
  {
    assert q * (p - 1) >= 0 && q * p == q * (p - 1) + q;
  }

  // A right shift divides the unsigned word, dropping the remainder.
  lemma ShiftMeaning(a: Word, amount: nat)
    ensures ShiftRight(a, amount) * Power2(amount) <= a < (ShiftRight(a, amount) + 1) * Power2(amount)
  {
    var q, m := Divided(a, Power2(amount));
    assert ShiftRight(a, amount) == Wrap(q);
    hide Power2, Wrap, ShiftRight;
    ProductGrows(q, Power2(amount));
    WrapUnique(q, q, 0);
  }
}
