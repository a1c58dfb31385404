/*
 * Exponentiation by repeated squaring: `op` applied to `a` n times in
 * O(log n) operations. Only associativity is used, so both instances of
 * the operation are covered and `a` may be any integer.
 */
module Exponentiation {
  import opened Integers
  import opened Operations

  /** An odd repetition count splits into one copy of a and half the count of a doubled. */
  lemma {:induction false} RepeatOdd(op: Op, a: int, k: nat)
    ensures Repeat(op, a, 2 * k + 1) == Combine(op, a, Repeat(op, Combine(op, a, a), k))
  {
    RepeatDouble(op, a, k);
    RepeatAdd(op, a, 1, 2 * k);
  }

  /** `power_accumulate_positive`: r combined with a repeated n times, for n > 0.
      The loop keeps r combined with a repeated n times unchanged while n halves. */
  method PowerAccumulatePositive(op: Op, r: int, a: int, n: int) returns (result: int)
    requires 0 < n
    ensures result == Combine(op, r, Repeat(op, a, n))
  {
    var r', a', n' := r, a, n;
    while true
      invariant 0 < n'
      invariant Combine(op, r', Repeat(op, a', n')) == Combine(op, r, Repeat(op, a, n))
      decreases n'
    {
      if Odd(n') {
        RepeatOdd(op, a', HalfNonnegative(n'));
        CombineAssociative(op, r', a', Repeat(op, Combine(op, a', a'), HalfNonnegative(n')));
        r' := Combine(op, r', a');
        if IsOne(n') {
          return r';
        }
      } else {
        RepeatDouble(op, a', HalfNonnegative(n'));
      }
      a' := Combine(op, a', a');
      n' := HalfNonnegative(n');
    }
  }

  /** `power`: a repeated n times, for n > 0. Even factors of n are removed by
      squaring a, and an n of 1 returns a unchanged. */
  method Power(op: Op, a: int, n: int) returns (result: int)
    requires 0 < n
    ensures result == Repeat(op, a, n)
  {
    var a', n' := a, n;
    while Even(n')
      invariant 0 < n'
      invariant Repeat(op, a', n') == Repeat(op, a, n)
      decreases n'
    {
      RepeatDouble(op, a', HalfNonnegative(n'));
      a' := Combine(op, a', a');
      n' := HalfNonnegative(n');
    }
    n' := HalfNonnegative(n');
    RepeatOdd(op, a', n');
    if IsZero(n') {
      return a';
    }
    result := PowerAccumulatePositive(op, a', Combine(op, a', a'), n');
  }
}
