/*
 * What every quotient-remainder algorithm computes, and the algorithms that
 * use doubling: the linear baseline, the three recursive variants and the
 * iterative largest-doubling variant, with native division as the oracle
 * for the additive instance.
 *
 * Given a >= identity and b > identity, the result (q, r) has b repeated q
 * times not above a, b repeated q + 1 times above a, and r what remains of
 * a once b repeated q times is removed with the inverse operation. Under
 * addition that is a == q * b + r with 0 <= r < b; under multiplication
 * it is b^q <= a < b^(q+1) with r == a / b^q.
 */
module QuotientRemainder {
  import opened Integers
  import opened Operations

  ghost predicate IsQuotientRemainder(op: Op, a: int, b: int, q: int, r: int)
  {
    Identity(op) < b && 0 <= q &&
    Repeat(op, b, q) <= a < Repeat(op, b, q + 1) &&
    r == Inverse(op, a, Repeat(op, b, q))
  }

  /** The decomposition is unique, so algorithms that meet it agree. */
  lemma QuotientRemainderUnique(op: Op, a: int, b: int, q: int, r: int, q': int, r': int)
    requires IsQuotientRemainder(op, a, b, q, r) && IsQuotientRemainder(op, a, b, q', r')
    ensures q == q' && r == r'
  {
    if q < q' {
      if q + 1 < q' { RepeatIncreasing(op, b, q + 1, q'); }
    } else if q' < q {
      if q' + 1 < q { RepeatIncreasing(op, b, q' + 1, q); }
    }
  }

  /** The remainder is non-negative and below the divisor; under addition
      the dividend is the quotient times the divisor plus the remainder. */
  lemma RemainderBounds(op: Op, a: int, b: int, q: int, r: int)
    requires Identity(op) <= a
    requires IsQuotientRemainder(op, a, b, q, r)
    ensures Identity(op) <= r < b
    ensures op == Plus ==> a == q * b + r
  {
    InverseBelow(op, a, Repeat(op, b, q), Identity(op));
    InverseBelow(op, a, Repeat(op, b, q), b);
    RepeatPlus(b, q);
  }

  /** A dividend below the divisor gives (0, a); a dividend equal to it gives
      (1, identity). */
  lemma SmallDividend(op: Op, a: int, b: int)
    requires Identity(op) <= a && Identity(op) < b
    ensures a < b ==> IsQuotientRemainder(op, a, b, 0, a)
    ensures a == b ==> IsQuotientRemainder(op, a, b, 1, Identity(op))
  {
    InverseCancel(op, Identity(op), a);
    InverseCancel(op, a, Identity(op));
    RepeatIncreasing(op, b, 1, 2);
  }

  // ---------------------------------------------------------------------
  // Partial progress of an algorithm that removes copies of b from a0

  /** b has been removed n times from a0, leaving a. */
  ghost predicate Consumed(op: Op, a0: int, b: int, n: int, a: int)
  {
    Identity(op) < b && 0 <= n &&
    Repeat(op, b, n) <= a0 && a == Inverse(op, a0, Repeat(op, b, n))
  }

  lemma ConsumedNothing(op: Op, a0: int, b: int)
    requires Identity(op) <= a0 && Identity(op) < b
    ensures Consumed(op, a0, b, 0, a0)
  {
    InverseCancel(op, Identity(op), a0);
  }

  /** Removing k further copies of b from what is left, when they fit, is
      removing n + k copies from a0; the remainder stays non-negative and
      shrinks when k > 0. */
  lemma ConsumedMore(op: Op, a0: int, b: int, n: int, a: int, k: nat)
    requires Identity(op) <= a0 && Consumed(op, a0, b, n, a)
    requires Repeat(op, b, k) <= a
    ensures Identity(op) <= a
    ensures op == Times ==> Repeat(op, b, k) != 0
    ensures Consumed(op, a0, b, n + k, Inverse(op, a, Repeat(op, b, k)))
    ensures 0 < k ==> Inverse(op, a, Repeat(op, b, k)) < a
  {
    var x, y := Repeat(op, b, n), Repeat(op, b, k);
    InverseBelow(op, a0, x, Identity(op));
    InverseBelow(op, a0, x, y);
    InverseInverse(op, a0, x, y);
    RepeatAdd(op, b, n, k);
    if 0 < k {
      RepeatIncreasing(op, b, 0, k);
      InverseBelow(op, a, y, a);
      CombineGrows(op, a, y);
    }
  }

  /** Once what is left is below b, the count removed is the quotient. */
  lemma ConsumedAll(op: Op, a0: int, b: int, n: int, a: int)
    requires Identity(op) <= a0 && Consumed(op, a0, b, n, a) && a < b
    ensures IsQuotientRemainder(op, a0, b, n, a)
  {
    InverseBelow(op, a0, Repeat(op, b, n), b);
  }

  // ---------------------------------------------------------------------
  // The oracle and the baseline

  /** `builtin_quotient_remainder`: C++ `a / b` and `a % b` on `long long`;
      `%` is whatever `a - (a / b) * b` leaves. For a non-negative dividend
      and a positive divisor it is the additive decomposition. */
  function BuiltinQuotientRemainder(a: int, b: int): (p: Pair)
    requires b != 0
    ensures a == p.m0 * b + p.m1
    ensures 0 <= a && 0 < b ==> IsQuotientRemainder(Plus, a, b, p.m0, p.m1)
  {
    var q := TruncatingDivide(a, b);
    assert 0 <= a && 0 < b ==> IsQuotientRemainder(Plus, a, b, q, a - q * b) by {
      if 0 <= a && 0 < b {
        RepeatPlus(b, q);
        RepeatPlus(b, q + 1);
      }
    }
    Pair(q, a - q * b)
  }

  /** `slow_quotient_remainder`: subtracts b from a one copy at a time. */
  method SlowQuotientRemainder(op: Op, a: int, b: int) returns (p: Pair)
    requires Identity(op) <= a && Identity(op) < b
    ensures IsQuotientRemainder(op, a, b, p.m0, p.m1)
    ensures p == QuotientRemainder0(op, a, b)
    ensures op == Plus ==> p == BuiltinQuotientRemainder(a, b)
  {
    var a', n := a, 0;
    ConsumedNothing(op, a, b);
    while b <= a'
      invariant Consumed(op, a, b, n, a')
      invariant Identity(op) <= a'
      decreases a'
    {
      ConsumedMore(op, a, b, n, a', 1);
      a' := Inverse(op, a', b);
      n := Successor(n);
      ConsumedMore(op, a, b, n, a', 0);
    }
    ConsumedAll(op, a, b, n, a');
    p := Pair(n, a');
    AgreesWithVariant0(op, a, b, p);
  }

  // ---------------------------------------------------------------------
  // The recursive doubling variants

  /** One step back from the quotient by the doubled divisor: given the
      decomposition of a by b combined with b, the halved-back quotient and
      remainder by b, as the three recursive variants compute them. */
  lemma HalveBack(op: Op, a: int, b: int, q: Pair)
    requires Identity(op) <= a && Identity(op) < b
    requires IsQuotientRemainder(op, a, Combine(op, b, b), q.m0, q.m1)
    ensures q.m1 < b ==> IsQuotientRemainder(op, a, b, Twice(q.m0), q.m1)
    ensures b <= q.m1 ==> IsQuotientRemainder(op, a, b, Successor(Twice(q.m0)), Inverse(op, q.m1, b))
  {
    var m := Twice(q.m0);
    CombineGrows(op, b, b);
    RepeatDouble(op, b, q.m0);
    RepeatDouble(op, b, q.m0 + 1);
    assert Consumed(op, a, b, m, q.m1);
    if q.m1 < b {
      ConsumedAll(op, a, b, m, q.m1);
    } else {
      ConsumedMore(op, a, b, m, q.m1, 1);
      var r := Inverse(op, q.m1, b);
      assert Consumed(op, a, b, m + 1, r);
      // a < b repeated 2m + 2 times, so what is left after m + 1 copies is below b
      RepeatAdd(op, b, m + 1, 1);
      InverseBelow(op, a, Repeat(op, b, m + 1), b);
      ConsumedAll(op, a, b, m + 1, r);
    }
  }

  /** If removing b from a leaves at least b, then a holds b combined with b. */
  lemma RoomForDouble(op: Op, a: int, b: int)
    requires Identity(op) <= a && Identity(op) < b
    ensures op == Times ==> b != 0
    ensures b <= Inverse(op, a, b) <==> Combine(op, b, b) <= a
  {
    InverseBelow(op, a, b, b);
  }

  /** `quotient_remainder_nonnegative_0`: recurses on the doubled divisor
      while removing b once still leaves at least b. */
  function QuotientRemainder0(op: Op, a: int, b: int): (p: Pair)
    requires Identity(op) <= a && Identity(op) < b
    ensures IsQuotientRemainder(op, a, b, p.m0, p.m1)
    decreases a - b
  {
    SmallDividend(op, a, b);
    RoomForDouble(op, a, b);
    if a < b then Pair(0, a)
    else if Inverse(op, a, b) < b then
      ConsumedNothing(op, a, b);
      ConsumedMore(op, a, b, 0, a, 1);
      ConsumedAll(op, a, b, 1, Inverse(op, a, b));
      Pair(1, Inverse(op, a, b))
    else
      CombineGrows(op, b, b);
      var q := QuotientRemainder0(op, a, Combine(op, b, b));
      HalveBack(op, a, b, q);
      var m := Twice(q.m0);
      if q.m1 < b then Pair(m, q.m1) else Pair(Successor(m), Inverse(op, q.m1, b))
  }

  /** `quotient_remainder_nonnegative_1`: as variant 0, with the single
      removal c computed once. */
  function QuotientRemainder1(op: Op, a: int, b: int): (p: Pair)
    requires Identity(op) <= a && Identity(op) < b
    ensures IsQuotientRemainder(op, a, b, p.m0, p.m1)
    decreases a - b
  {
    SmallDividend(op, a, b);
    RoomForDouble(op, a, b);
    if a < b then Pair(0, a)
    else
      var c := Inverse(op, a, b);
      if c < b then
        ConsumedNothing(op, a, b);
        ConsumedMore(op, a, b, 0, a, 1);
        ConsumedAll(op, a, b, 1, c);
        Pair(1, c)
      else
        CombineGrows(op, b, b);
        var q := QuotientRemainder1(op, a, Combine(op, b, b));
        HalveBack(op, a, b, q);
        var m := Twice(q.m0);
        if q.m1 < b then Pair(m, q.m1) else Pair(Successor(m), Inverse(op, q.m1, b))
  }

  /** `quotient_remainder_nonnegative_2`: compares a with the doubled divisor
      c directly and passes c to the recursive call. */
  function QuotientRemainder2(op: Op, a: int, b: int): (p: Pair)
    requires Identity(op) <= a && Identity(op) < b
    ensures IsQuotientRemainder(op, a, b, p.m0, p.m1)
    decreases a - b
  {
    SmallDividend(op, a, b);
    RoomForDouble(op, a, b);
    if a < b then Pair(0, a)
    else
      var c := Combine(op, b, b);
      if a < c then
        ConsumedNothing(op, a, b);
        ConsumedMore(op, a, b, 0, a, 1);
        ConsumedAll(op, a, b, 1, Inverse(op, a, b));
        Pair(1, Inverse(op, a, b))
      else
        CombineGrows(op, b, b);
        var q := QuotientRemainder2(op, a, c);
        HalveBack(op, a, b, q);
        var m := Twice(q.m0);
        if q.m1 < b then Pair(m, q.m1) else Pair(Successor(m), Inverse(op, q.m1, b))
  }

  /** The three recursive variants return identical pairs. */
  lemma RecursiveVariantsAgree(op: Op, a: int, b: int)
    requires Identity(op) <= a && Identity(op) < b
    ensures QuotientRemainder0(op, a, b) == QuotientRemainder1(op, a, b)
    ensures QuotientRemainder1(op, a, b) == QuotientRemainder2(op, a, b)
  {
    var p0, p1, p2 := QuotientRemainder0(op, a, b), QuotientRemainder1(op, a, b), QuotientRemainder2(op, a, b);
    QuotientRemainderUnique(op, a, b, p0.m0, p0.m1, p1.m0, p1.m1);
    QuotientRemainderUnique(op, a, b, p1.m0, p1.m1, p2.m0, p2.m1);
  }

  /** Every variant returns (0, a) when a < b and (1, identity) when a == b. */
  lemma RecursiveVariantsEdgeCases(op: Op, a: int, b: int)
    requires Identity(op) <= a && Identity(op) < b
    ensures a < b ==> QuotientRemainder0(op, a, b) == Pair(0, a)
    ensures a == b ==> QuotientRemainder0(op, a, b) == Pair(1, Identity(op))
    ensures QuotientRemainder0(op, a, b) == QuotientRemainder1(op, a, b) == QuotientRemainder2(op, a, b)
  {
    RecursiveVariantsAgree(op, a, b);
    SmallDividend(op, a, b);
    var p := QuotientRemainder0(op, a, b);
    if a < b {
      QuotientRemainderUnique(op, a, b, p.m0, p.m1, 0, a);
    } else if a == b {
      QuotientRemainderUnique(op, a, b, p.m0, p.m1, 1, Identity(op));
    }
  }

  /** Under multiplication the remainder is a / b^q, not an r with
      b^q * r == a: truncating division does not cancel multiplication.
      10 by 3 gives (2, 1) and 3 * 3 * 1 is 9. */
  lemma TruncatedRemainder()
    ensures QuotientRemainder0(Times, 10, 3) == Pair(2, 1)
    ensures Combine(Times, Repeat(Times, 3, 2), 1) != 10
  {
    assert Repeat(Times, 3, 2) == 9 && Repeat(Times, 3, 3) == 27;
    AgreesWithVariant0(Times, 10, 3, Pair(2, 1));
  }

  /** Under addition the recursive variants compute native a / b and a % b. */
  lemma VariantsMatchBuiltin(a: int, b: int)
    requires 0 <= a && 0 < b
    ensures QuotientRemainder0(Plus, a, b) == BuiltinQuotientRemainder(a, b)
  {
    var p, o := QuotientRemainder0(Plus, a, b), BuiltinQuotientRemainder(a, b);
    QuotientRemainderUnique(Plus, a, b, p.m0, p.m1, o.m0, o.m1);
  }

  /** Any pair meeting the decomposition is the one variant 0 returns and,
      under addition, the one native division returns. */
  lemma AgreesWithVariant0(op: Op, a: int, b: int, p: Pair)
    requires Identity(op) <= a && IsQuotientRemainder(op, a, b, p.m0, p.m1)
    ensures p == QuotientRemainder0(op, a, b)
    ensures op == Plus ==> p == BuiltinQuotientRemainder(a, b)
  {
    var p0 := QuotientRemainder0(op, a, b);
    QuotientRemainderUnique(op, a, b, p.m0, p.m1, p0.m0, p0.m1);
    if op == Plus {
      VariantsMatchBuiltin(a, b);
    }
  }

  // ---------------------------------------------------------------------
  // The largest-doubling variant

  ghost predicate IsPowerOfTwo(m: int)
    decreases if m < 0 then 0 else m
  {
    m == 1 || (1 < m && Even(m) && IsPowerOfTwo(HalfNonnegative(m)))
  }

  /** `largest_doubling`: for a >= b > identity, the count m and the element
      b repeated m times, where m is the largest power of two with b
      repeated m times not above a. */
  method LargestDoubling(op: Op, a: int, b: int) returns (p: Pair)
    requires Identity(op) < b <= a
    ensures IsPowerOfTwo(p.m0)
    ensures p.m1 == Repeat(op, b, p.m0)
    ensures p.m1 <= a < Repeat(op, b, 2 * p.m0)
  {
    var m, b', c := 1, b, Combine(op, b, b);
    RepeatAdd(op, b, 1, 1);
    while c <= a
      invariant 1 <= m && IsPowerOfTwo(m)
      invariant b' == Repeat(op, b, m) <= a
      invariant c == Repeat(op, b, 2 * m)
      decreases a - b'
    {
      RepeatIncreasing(op, b, m, 2 * m);
      RepeatAdd(op, b, 2 * m, 2 * m);
      m := Twice(m);
      b' := c;
      c := Combine(op, c, c);
    }
    return Pair(m, b');
  }

  /** `quotient_remainder_nonnegative_with_largest_doubling`: removes the
      largest doubling of b from a until a is below b, summing the counts. */
  method QuotientRemainderWithLargestDoubling(op: Op, a: int, b: int) returns (p: Pair)
    requires Identity(op) <= a && Identity(op) < b
    ensures IsQuotientRemainder(op, a, b, p.m0, p.m1)
    ensures p == QuotientRemainder0(op, a, b)
    ensures op == Plus ==> p == BuiltinQuotientRemainder(a, b)
  {
    var a', quotient := a, 0;
    ConsumedNothing(op, a, b);
    while b <= a'
      invariant Consumed(op, a, b, quotient, a')
      invariant Identity(op) <= a'
      decreases a'
    {
      var m := LargestDoubling(op, a', b);
      ConsumedMore(op, a, b, quotient, a', m.m0);
      quotient := quotient + m.m0;
      a' := Inverse(op, a', m.m1);
    }
    ConsumedAll(op, a, b, quotient, a');
    p := Pair(quotient, a');
    AgreesWithVariant0(op, a, b, p);
  }
}
