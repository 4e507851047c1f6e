// `for counter in start..stop` as the bytecode runs it: one comparison of the
// bounds by value, then an equality test before each turn and an int
// increment after it.

module CountedLoop {
  import opened Words
  import opened Hir
  import opened LongArithmetic

  const TWO_32 := 0x1_0000_0000

  const NO_ALU := Alu((_, _, _) => 0, (_, _, _) => false)

  // The loop is skipped when the start is at or past the stop.
  predicate Skipped(start: Value, stop: Value) { ApplyBinary(Gte, start, stop, NO_ALU) == Some(Truth(true)) }

  // The counter after n increments.
  function CounterAt(start: Word, n: nat): Word { Wrap(start + n) }

  // The test before turn n leaves the loop.
  predicate LeavesAt(start: Word, stop: Value, n: nat) {
    ApplyBinary(Eq, IntVal(CounterAt(start, n)), stop, NO_ALU) == Some(Truth(true))
  }

  // The loop ends after exactly n turns.  Only an int can be incremented.
  ghost predicate Runs(start: Value, stop: Value, n: nat) {
    if Skipped(start, stop) then n == 0
    else start.IntVal? && LeavesAt(start.w, stop, n) && forall j: nat :: j < n ==> !LeavesAt(start.w, stop, j)
  }

  // The number the equality test compares the counter's bits with.
  function Target(stop: Value): Option<Word> {
    match stop
    case IntVal(t) => Some(t)
    case LongVal(y) => if 0 <= y < TWO_32 then Some(y) else None
    case FloatVal(_) => None
  }

  // How many turns the loop makes; None when it fails or never ends, or when
  // a bound is a float.
  function Turns(start: Value, stop: Value): Option<nat> {
    if start.FloatVal? || stop.FloatVal? then None
    else if NumberOf(start) >= NumberOf(stop) then Some(0)
    else if !start.IntVal? then None
    else
      var t: Word :- Target(stop);
      Some((t - start.w) % TWO_32)
  }

  lemma SkippedIs(start: Value, stop: Value)
    requires !start.FloatVal? && !stop.FloatVal?
    ensures Skipped(start, stop) <==> NumberOf(start) >= NumberOf(stop)
  {
    hide BitWord, Bitwise, TruncDiv, TruncMod, DivWord, ModWord, Power2, Wrap, Wrap64;
  }

  lemma LeavesIs(start: Word, stop: Value, n: nat)
    requires !stop.FloatVal?
    ensures LeavesAt(start, stop, n) <==> Target(stop) == Some(CounterAt(start, n))
  {
    hide BitWord, Bitwise, TruncDiv, TruncMod, DivWord, ModWord, Power2, CounterAt, Wrap, Wrap64;
  }

  // Counting up from s, the first counter equal to t comes after t - s turns.
  lemma FirstMeeting(s: Word, t: Word, n: nat)
    ensures (t - s) % TWO_32 == n <==> CounterAt(s, n) == t && forall j: nat :: j < n ==> CounterAt(s, j) != t
  {
    var m: nat := (t - s) % TWO_32;
    assert CounterAt(s, m) == t;
    forall j: nat | j < m ensures CounterAt(s, j) != t {
      if CounterAt(s, j) == t {
        CountersMeet(s, j, m);
      }
    }
  }

  lemma CountersMeet(s: Word, j: nat, m: nat)
    requires j <= m < TWO_32 && CounterAt(s, j) == CounterAt(s, m)
    ensures j == m
  {
  }

  lemma TurnsExact(start: Value, stop: Value, n: nat)
    requires !start.FloatVal? && !stop.FloatVal?
    ensures Turns(start, stop) == Some(n) <==> Runs(start, stop, n)
  {
    hide CounterAt, Skipped, LeavesAt;
    SkippedIs(start, stop);
    if !Skipped(start, stop) && start.IntVal? {
      forall j: nat ensures LeavesAt(start.w, stop, j) <==> Target(stop) == Some(CounterAt(start.w, j)) {
        LeavesIs(start.w, stop, j);
      }
      if Target(stop).Some? {
        FirstMeeting(start.w, Target(stop).value, n);
      }
    }
  }

  // From an int below the stop, the loop runs once for each number of the
  // range when the stop is an int, or when the start is not negative and the
  // stop is below 2^32.
  lemma TurnsDifference(start: Value, stop: Value)
    requires start.IntVal? && !stop.FloatVal? && NumberOf(start) < NumberOf(stop)
    requires stop.IntVal? || Signed(start.w) >= 0
    ensures Turns(start, stop) ==
            if stop.IntVal? || NumberOf(stop) < TWO_32 then Some(NumberOf(stop) - NumberOf(start)) else None
  {
  }

  // ------------------------------------------------------------------
  // The countdown form
  // ------------------------------------------------------------------

  // What is left after n turns of `step` iterations each.
  function Remaining(start: Word, stop: Word, step: nat, n: nat): Word { Wrap(Sub(stop, start) - step * n) }

  // A loop over a packed array keeps the number of iterations left instead:
  // past the same comparison it subtracts after each turn and goes on while
  // the rest is not zero.
  ghost predicate CountsDown(start: Word, stop: Word, step: nat, n: nat) {
    if Skipped(IntVal(start), IntVal(stop)) then n == 0
    else n > 0 && Remaining(start, stop, step, n) == 0 && forall j: nat :: 0 < j < n ==> Remaining(start, stop, step, j) != 0
  }

  lemma SkippedInts(start: Word, stop: Word)
    ensures Skipped(IntVal(start), IntVal(stop)) <==> Signed(start) >= Signed(stop)
  {
    SkippedIs(IntVal(start), IntVal(stop));
  }

  // The rest reaches zero only where the turns make up the distance, for less
  // than 2^32 iterations.
  lemma RemainingIs(start: Word, stop: Word, step: nat, n: nat)
    requires Signed(start) < Signed(stop) && step * n < TWO_32
    ensures Remaining(start, stop, step, n) == 0 <==> step * n == Signed(stop) - Signed(start)
  {
  }

  lemma TurnsOfInts(start: Word, stop: Word)
    requires Signed(start) < Signed(stop)
    ensures Turns(IntVal(start), IntVal(stop)) == Some(Signed(stop) - Signed(start))
  {
    TurnsDifference(IntVal(start), IntVal(stop));
  }

  // Between ints it makes the turns of the plain form.
  lemma CountdownExact(start: Word, stop: Word, n: nat)
    ensures CountsDown(start, stop, 1, n) <==> Turns(IntVal(start), IntVal(stop)) == Some(n)
  {
    hide Turns, Skipped, Remaining;
    SkippedInts(start, stop);
    if Signed(start) < Signed(stop) {
      TurnsOfInts(start, stop);
      var d: nat := Signed(stop) - Signed(start);
      forall j: nat | j <= d ensures Remaining(start, stop, 1, j) == 0 <==> j == d {
        RemainingIs(start, stop, 1, j);
      }
      assert Remaining(start, stop, 1, d) == 0;
    } else {
      NoTurns(start, stop);
    }
  }

  lemma NoTurns(start: Word, stop: Word)
    requires Signed(start) >= Signed(stop)
    ensures Turns(IntVal(start), IntVal(stop)) == Some(0)
  {
  }

  // Four iterations a turn make up the range exactly when its length is a
  // multiple of four; otherwise the rest never reaches zero.
  lemma CountdownByFour(start: Word, stop: Word, n: nat)
    requires Signed(start) < Signed(stop)
    ensures CountsDown(start, stop, 4, n) <==> Signed(stop) - Signed(start) == 4 * n
  {
    hide Skipped, Remaining;
    SkippedInts(start, stop);
    var d: nat := Signed(stop) - Signed(start);
    if d % 4 == 0 {
      forall j: nat | j <= d / 4 ensures Remaining(start, stop, 4, j) == 0 <==> j == d / 4 {
        RemainingIs(start, stop, 4, j);
      }
      assert Remaining(start, stop, 4, d / 4) == 0;
    } else {
      NeverZero(start, stop, n);
    }
  }

  lemma NeverZero(start: Word, stop: Word, n: nat)
    requires (Signed(stop) - Signed(start)) % 4 != 0
    ensures Remaining(start, stop, 4, n) != 0
  {
    var q := WrapQuotient(Sub(stop, start) - 4 * n);
    var p := WrapQuotient(stop - start);
  }
}
