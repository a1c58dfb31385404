/*
 * The discrete logarithm `ilog`: the largest n with b repeated n times not
 * above a, and what remains of a. It brackets n by doubling the exponent,
 * then bisects the bracket, computing each midpoint from the lower end of
 * the bracket with `power`.
 */
module Logarithm {
  import opened Integers
  import opened Operations
  import opened Exponentiation
  import opened QuotientRemainder

  /** lo < hi bracket the answer: b_lo and b_hi are b repeated lo and hi
      times, with b_lo not above a. */
  ghost predicate Bracket(op: Op, a: int, b: int, lo: int, hi: int, bLo: int, bHi: int)
  {
    Identity(op) < b && 0 <= lo < hi &&
    bLo == Repeat(op, b, lo) && bHi == Repeat(op, b, hi) && bLo <= a
  }

  /** Doubling the exponent squares the element. */
  lemma BracketWiden(op: Op, a: int, b: int, lo: int, hi: int, bLo: int, bHi: int)
    requires Bracket(op, a, b, lo, hi, bLo, bHi) && bHi < a
    ensures Bracket(op, a, b, hi, Twice(hi), bHi, Combine(op, bHi, bHi))
    ensures bHi < Combine(op, bHi, bHi)
  {
    RepeatAdd(op, b, hi, hi);
    RepeatIncreasing(op, b, 0, hi);
    CombineGrows(op, bHi, bHi);
  }

  /** The midpoint's element, b repeated mid - lo times combined with b_lo,
      is b repeated mid times. */
  lemma MidpointElement(op: Op, b: int, lo: int, mid: int)
    requires 0 <= lo < mid
    ensures Combine(op, Repeat(op, b, mid - lo), Repeat(op, b, lo)) == Repeat(op, b, mid)
  {
    RepeatAdd(op, b, mid - lo, lo);
  }

  /** An exact hit a == b repeated n times gives n and the identity. */
  lemma ExactHit(op: Op, a: int, b: int, n: int)
    requires Identity(op) < b && 0 <= n && a == Repeat(op, b, n)
    ensures IsQuotientRemainder(op, a, b, n, Inverse(op, a, a))
    ensures Inverse(op, a, a) == Identity(op)
  {
    RepeatIncreasing(op, b, n, n + 1);
    InverseCancel(op, a, Identity(op));
  }

  /** `ilog`: for a >= identity and b > identity, the exponent n with b
      repeated n times not above a and b repeated n + 1 times above it, and
      the remainder of a by b repeated n times; an exact power leaves the
      identity. It agrees with every quotient-remainder variant. */
  method ILog(op: Op, a: int, b: int) returns (p: Pair)
    requires Identity(op) <= a && Identity(op) < b
    ensures IsQuotientRemainder(op, a, b, p.m0, p.m1)
    ensures a == Repeat(op, b, p.m0) ==> p.m1 == Identity(op)
    ensures p == QuotientRemainder0(op, a, b)
    ensures op == Plus ==> p == BuiltinQuotientRemainder(a, b)
  {
    var lo, hi := 0, 1;
    var bLo, bHi := Identity(op), b;
    while bHi < a
      invariant Bracket(op, a, b, lo, hi, bLo, bHi)
      decreases a - bHi
    {
      BracketWiden(op, a, b, lo, hi, bLo, bHi);
      lo := hi;
      bLo := bHi;
      hi := Twice(hi);
      bHi := Combine(op, bHi, bHi);
    }
    while hi - lo > 1
      invariant Bracket(op, a, b, lo, hi, bLo, bHi) && a <= bHi
      decreases hi - lo
    {
      var mid := (lo + hi) / 2;
      var power := Power(op, b, mid - lo);
      var bMid := Combine(op, power, bLo);
      MidpointElement(op, b, lo, mid);
      if a < bMid {
        hi := mid;
        bHi := bMid;
      } else if bMid < a {
        lo := mid;
        bLo := bMid;
      } else {
        ExactHit(op, a, b, mid);
        p := Pair(mid, Inverse(op, a, bMid));
        AgreesWithVariant0(op, a, b, p);
        return;
      }
    }
    if bHi == a {
      ExactHit(op, a, b, hi);
      p := Pair(hi, Inverse(op, a, bHi));
    } else {
      p := Pair(lo, Inverse(op, a, bLo));
      if a == Repeat(op, b, lo) {
        ExactHit(op, a, b, lo);
      }
    }
    AgreesWithVariant0(op, a, b, p);
  }

  /** Two worked cases: 23 by 7 under addition is (3, 2), and the logarithm
      of 128 to base 2 under multiplication is the exact power 7 with the
      identity 1 left, which is therefore what ILog returns. */
  lemma Examples()
    ensures QuotientRemainder0(Plus, 23, 7) == Pair(3, 2)
    ensures QuotientRemainder0(Times, 128, 2) == Pair(7, 1)
  {
    RepeatPlus(7, 3);
    RepeatPlus(7, 4);
    AgreesWithVariant0(Plus, 23, 7, Pair(3, 2));
    assert Repeat(Times, 2, 2) == 4;
    assert Repeat(Times, 2, 4) == 16;
    assert Repeat(Times, 2, 6) == 64;
    assert Repeat(Times, 2, 7) == 128;
    ExactHit(Times, 128, 2, 7);
    AgreesWithVariant0(Times, 128, 2, Pair(7, 1));
  }
}
