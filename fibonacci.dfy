/*
 * The Fibonacci variant of quotient and remainder: it climbs two parallel
 * Fibonacci sequences, one of elements built with the operation and one of
 * counts built with addition, until the element passes a, and then walks
 * both back, removing every element that still fits, in the manner of a
 * Zeckendorf representation of the quotient.
 */
module Fibonacci {
  import opened Integers
  import opened Operations
  import opened QuotientRemainder

  /** `next_fibonacci`: the pair (x, y) moves on to (y, x combined with y). */
  function NextFibonacci(op: Op, x: int, y: int): (r: (int, int))
    ensures r.0 == y
    ensures Identity(op) < x && Identity(op) <= y ==> y < r.1
  {
    assert Identity(op) < x && Identity(op) <= y ==> y < Combine(op, x, y) by {
      if Identity(op) < x && Identity(op) <= y { CombineGrows(op, y, x); }
    }
    (y, Combine(op, x, y))
  }

  /** `previous_fibonacci`: the pair (x, y) moves back to (y without x, x). */
  function PreviousFibonacci(op: Op, x: int, y: int): (r: (int, int))
    requires op == Times ==> x != 0
    ensures r.1 == x
    ensures Identity(op) <= x <= y ==> Identity(op) <= r.0
  {
    assert Identity(op) <= x <= y ==> Identity(op) <= Inverse(op, y, x) by {
      if Identity(op) <= x <= y { InverseBelow(op, y, x, Identity(op)); }
    }
    (Inverse(op, y, x), x)
  }

  /** Stepping back undoes stepping forward over non-negative elements;
      under addition stepping forward also undoes stepping back. */
  lemma FibonacciRoundTrip(op: Op, x: int, y: int)
    requires Identity(op) <= x && Identity(op) <= y
    ensures PreviousFibonacci(op, NextFibonacci(op, x, y).0, NextFibonacci(op, x, y).1) == (x, y)
    ensures op == Plus ==> NextFibonacci(op, PreviousFibonacci(op, x, y).0, PreviousFibonacci(op, x, y).1) == (x, y)
  {
    InverseCancel(op, y, x);
    CombineCommutative(op, x, y);
  }

  /** The Fibonacci numbers, from Fib(0) == 0 and Fib(1) == 1. */
  ghost function Fib(k: nat): nat
  {
    if k < 2 then k else Fib(k - 2) + Fib(k - 1)
  }

  /** From the first term on, consecutive Fibonacci numbers are positive,
      non-decreasing and at most double; from the second on they increase. */
  lemma {:induction false} FibGrowth(k: nat)
    requires 1 <= k
    ensures 1 <= Fib(k) <= Fib(k + 1) <= 2 * Fib(k)
    ensures 2 <= k <==> Fib(k) < Fib(k + 1)
  {
    if 2 <= k {
      FibGrowth(k - 1);
      if k == 2 {
        assert Fib(1) == 1 && Fib(2) == 1 && Fib(3) == 2;
      } else {
        FibGrowth(k - 2);
      }
    }
  }

  /** Stepping back from b repeated e times and b repeated d times, d <= e,
      gives b repeated e - d times. */
  lemma RepeatDifference(op: Op, b: int, d: nat, e: nat)
    requires Identity(op) < b && d <= e
    ensures op == Times ==> Repeat(op, b, d) != 0
    ensures Inverse(op, Repeat(op, b, e), Repeat(op, b, d)) == Repeat(op, b, e - d)
  {
    RepeatAdd(op, b, d, e - d);
    InverseCancel(op, Repeat(op, b, d), Repeat(op, b, e - d));
  }

  /** Repetition of a positive element never decreases with the count. */
  lemma RepeatNondecreasing(op: Op, b: int, m: nat, n: nat)
    requires Identity(op) < b && m <= n
    ensures Repeat(op, b, m) <= Repeat(op, b, n)
  {
    if m < n {
      RepeatIncreasing(op, b, m, n);
    }
  }

  /** x and y are b repeated d and e times, where d and e are the k-th and
      (k + 1)-th Fibonacci numbers. */
  ghost predicate Ladder(op: Op, b: int, k: nat, d: int, e: int, x: int, y: int)
  {
    Identity(op) < b && 1 <= k && d == Fib(k) && e == Fib(k + 1) &&
    x == Repeat(op, b, d) && y == Repeat(op, b, e)
  }

  /** One forward step of both sequences climbs one rung, and the larger
      element grows. */
  lemma LadderUp(op: Op, b: int, k: nat, d: int, e: int, x: int, y: int)
    requires Ladder(op, b, k, d, e, x, y)
    ensures var (d', e') := NextFibonacci(Plus, d, e);
            var (x', y') := NextFibonacci(op, x, y);
            Ladder(op, b, k + 1, d', e', x', y') && y < y'
  {
    FibGrowth(k);
    RepeatAdd(op, b, d, e);
    RepeatIncreasing(op, b, e, d + e);
  }

  /** One backward step of both sequences descends one rung; the pair stays
      strictly ordered until it reaches (b, b). */
  lemma LadderDown(op: Op, b: int, k: nat, d: int, e: int, x: int, y: int)
    requires Ladder(op, b, k, d, e, x, y) && 2 <= k
    ensures op == Times ==> x != 0 && d != 0
    ensures var (d', e') := PreviousFibonacci(Plus, d, e);
            var (x', y') := PreviousFibonacci(op, x, y);
            Ladder(op, b, k - 1, d', e', x', y') &&
            x' <= y' && (x' < y' <==> 2 <= k - 1) && (k - 1 == 1 ==> y' == b)
  {
    FibGrowth(k);
    FibGrowth(k - 1);
    RepeatDifference(op, b, d, e);
    RepeatNondecreasing(op, b, e - d, d);
    if 2 <= k - 1 {
      RepeatIncreasing(op, b, e - d, d);
    }
  }

  /** Removing the smaller element x when it fits keeps the remainder below
      the element e - d, which is at most x. */
  lemma LadderRemove(op: Op, a: int, b: int, k: nat, d: int, e: int, x: int, y: int, n: int, r: int)
    requires Ladder(op, b, k, d, e, x, y) && 2 <= k
    requires Identity(op) <= a && Consumed(op, a, b, n, r) && r < y && x <= r
    ensures op == Times ==> x != 0
    ensures Consumed(op, a, b, n + d, Inverse(op, r, x))
    ensures Identity(op) <= Inverse(op, r, x) < x
  {
    FibGrowth(k);
    FibGrowth(k - 1);
    ConsumedMore(op, a, b, n, r, d);
    ConsumedMore(op, a, b, n + d, Inverse(op, r, x), 0);
    RepeatAdd(op, b, d, e - d);
    InverseBelow(op, r, x, Repeat(op, b, e - d));
    RepeatNondecreasing(op, b, e - d, d);
  }

  /** `quotient_remainder_nonnegative_fibonacci`. */
  method QuotientRemainderFibonacci(op: Op, a: int, b: int) returns (p: Pair)
    requires Identity(op) <= a && Identity(op) < b
    ensures IsQuotientRemainder(op, a, b, p.m0, p.m1)
    ensures p == QuotientRemainder0(op, a, b)
    ensures op == Plus ==> p == BuiltinQuotientRemainder(a, b)
  {
    var n := 0;
    if a < b {
      SmallDividend(op, a, b);
      p := Pair(n, a);
      AgreesWithVariant0(op, a, b, p);
      return;
    }
    var a', b', c := a, b, b;
    var d, e := 1, 1;
    ghost var k: nat := 1;
    // Forward: climb while c <= a.
    while true
      invariant Ladder(op, b, k, d, e, b', c)
      invariant c <= a
      decreases a - c
    {
      LadderUp(op, b, k, d, e, b', c);
      var t := NextFibonacci(op, b', c);
      b', c := t.0, t.1;
      var s := NextFibonacci(Plus, d, e);
      d, e := s.0, s.1;
      k := k + 1;
      if !(a >= c) {
        break;
      }
    }
    // Backward: remove each element that still fits, down to b itself.
    ConsumedNothing(op, a, b);
    while true
      invariant Ladder(op, b, k, d, e, b', c) && 2 <= k
      invariant Consumed(op, a, b, n, a') && Identity(op) <= a'
      invariant a' < c
      decreases k
    {
      LadderDown(op, b, k, d, e, b', c);
      if a' >= b' {
        LadderRemove(op, a, b, k, d, e, b', c, n, a');
        a' := Inverse(op, a', b');
        n := n + d;
      }
      var t := PreviousFibonacci(op, b', c);
      b', c := t.0, t.1;
      var s := PreviousFibonacci(Plus, d, e);
      d, e := s.0, s.1;
      k := k - 1;
      if !(b' < c) {
        break;
      }
    }
    ConsumedAll(op, a, b, n, a');
    p := Pair(n, a');
    AgreesWithVariant0(op, a, b, p);
  }
}
