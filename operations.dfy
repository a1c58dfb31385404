/*
 * The operation capability the algorithms are written against: a forward
 * operation, its inverse, its identity element and the order `<` on the
 * domain. The source instantiates it with `plus` / `minus` / 0 and with
 * `multiplies` / `divides` / 1 over `long long`; both instances are modelled
 * here over the unbounded `int`, selected by an `Op` value.
 */
module Operations {

  /** The two Archimedean structures: integers under addition and positive
      integers under multiplication. */
  datatype Op = Plus | Times

  /** The source's `pair`: a count (the quotient or exponent) and a domain value. */
  datatype Pair = Pair(m0: int, m1: int)

  function Abs(x: int): int { if x < 0 then -x else x }

  /** C++ integer division on `long long`: the quotient is truncated toward zero. */
  function TruncatingDivide(x: int, y: int): (r: int)
    requires y != 0
    ensures Abs(y * r) <= Abs(x) < Abs(y * r) + Abs(y)
    ensures (0 <= x) == (0 < y) ==> 0 <= r
    ensures (0 <= x) != (0 < y) ==> r <= 0
  {
    var q := Abs(x) / Abs(y);
    DivBounds(Abs(x), Abs(y));
    assert Abs(y * q) == Abs(y) * q by { MulAbs(y, q); }
    assert Abs(y * -q) == Abs(y) * q by { MulAbs(y, -q); }
    if (0 <= x) == (0 < y) then q else -q
  }

  /** The operation: `plus` or `multiplies`. */
  function Combine(op: Op, x: int, y: int): int
  {
    match op
    case Plus => x + y
    case Times => x * y
  }

  /** `inverse(op)`: `minus` for `plus`, truncating `divides` for `multiplies`. */
  function Inverse(op: Op, x: int, y: int): (r: int)
    requires op == Times ==> y != 0
    ensures op == Plus ==> Combine(op, r, y) == x
    ensures op == Times && 0 <= x && 0 < y ==> Combine(op, y, r) <= x < Combine(op, y, r + 1)
  {
    match op
    case Plus => x - y
    case Times =>
      var q := TruncatingDivide(x, y);
      assert 0 <= x && 0 < y ==> y * q <= x < y * (q + 1) by {
        if 0 <= x && 0 < y { MulMonotone(y, 0, q); }
      }
      q
  }

  /** `identity_element`: 0 for `plus`, 1 for `multiplies`. */
  function Identity(op: Op): (e: int)
    ensures 0 <= e
    ensures forall x :: Combine(op, e, x) == x && Combine(op, x, e) == x
  {
    match op
    case Plus => 0
    case Times => 1
  }

  /** b combined with itself n times, the identity when n is 0: n * b under
      addition, the n-th power of b under multiplication. */
  ghost function Repeat(op: Op, b: int, n: nat): (r: int)
    ensures Identity(op) <= b ==> Identity(op) <= r
  {
    if n == 0 then Identity(op)
    else
      var s := Repeat(op, b, n - 1);
      assert op == Times && 1 <= b && 1 <= s ==> 1 <= s * b by {
        if op == Times && 1 <= b && 1 <= s { MulMonotone(s, 1, b); }
      }
      Combine(op, s, b)
  }

  // ---------------------------------------------------------------------
  // Arithmetic facts about integer multiplication and division

  lemma MulMonotone(x: int, p: int, q: int)
    requires 0 <= x && p <= q
    ensures x * p <= x * q
  {
    assert x * q - x * p == x * (q - p);
  }

  lemma MulAbs(x: int, y: int)
    ensures Abs(x * y) == Abs(x) * Abs(y)
  {
    if x < 0 && y < 0 {
      assert x * y == (-x) * (-y);
    } else if x < 0 {
      assert -(x * y) == (-x) * y;
    } else if y < 0 {
      assert -(x * y) == x * (-y);
    }
  }

  lemma DivBounds(x: int, y: int)
    requires 0 <= x && 0 < y
    ensures 0 <= x / y
    ensures y * (x / y) <= x < y * (x / y) + y
  {
    assert x == y * (x / y) + x % y;
  }

  /** Division is characterised by its bounds. */
  lemma DivUnique(x: int, y: int, q: int)
    requires 0 <= x && 0 < y
    requires y * q <= x < y * q + y
    ensures x / y == q
  {
    var d := x / y;
    DivBounds(x, y);
    if d < q {
      MulMonotone(y, d + 1, q);
    } else if q < d {
      MulMonotone(y, q + 1, d);
    }
  }

  // ---------------------------------------------------------------------
  // The laws of an Archimedean group that the algorithms rely on, proved
  // for both instances. The truncating division of the multiplicative
  // instance is not a true inverse, so the laws about Inverse are stated
  // as bounds rather than as cancellation.

  lemma CombineAssociative(op: Op, x: int, y: int, z: int)
    ensures Combine(op, Combine(op, x, y), z) == Combine(op, x, Combine(op, y, z))
  {
    if op == Times {
      assert (x * y) * z == x * (y * z);
    }
  }

  lemma CombineCommutative(op: Op, x: int, y: int)
    ensures Combine(op, x, y) == Combine(op, y, x)
  {
  }

  /** Combining a non-negative element with a positive one makes it larger. */
  lemma CombineGrows(op: Op, x: int, y: int)
    requires Identity(op) <= x && Identity(op) < y
    ensures x < Combine(op, x, y) && x < Combine(op, y, x)
  {
    if op == Times {
      MulMonotone(x, 2, y);
    }
  }

  /** The operation is monotonic in its first argument over non-negative elements. */
  lemma CombineMonotone(op: Op, x: int, x': int, y: int)
    requires x <= x' && Identity(op) <= y
    ensures Combine(op, x, y) <= Combine(op, x', y)
  {
    if op == Times {
      MulMonotone(y, x, x');
    }
  }

  /** For non-negative a and x, the inverse of a by x is below y exactly when
      a is below x combined with y. */
  lemma InverseBelow(op: Op, a: int, x: int, y: int)
    requires Identity(op) <= a && Identity(op) <= x
    ensures op == Times ==> x != 0
    ensures Inverse(op, a, x) < y <==> a < Combine(op, x, y)
  {
    if op == Times {
      var q := a / x;
      DivBounds(a, x);
      if q < y {
        MulMonotone(x, q + 1, y);
      } else {
        MulMonotone(x, y, q);
      }
    }
  }

  /** Removing x and then y removes their combination. */
  lemma InverseInverse(op: Op, a: int, x: int, y: int)
    requires Identity(op) <= a && Identity(op) <= x && Identity(op) <= y
    ensures op == Times ==> x != 0 && y != 0 && Combine(op, x, y) != 0
    ensures Inverse(op, Inverse(op, a, x), y) == Inverse(op, a, Combine(op, x, y))
  {
    if op == Times {
      MulMonotone(x, 1, y);
      var q := a / x;
      DivBounds(a, x);
      var q2 := q / y;
      DivBounds(q, y);
      // a < x * (y * q2 + y) = (x * y) * q2 + x * y
      MulMonotone(x, q, y * q2 + y - 1);
      assert x * (y * q2 + y - 1) + x == (x * y) * q2 + x * y;
      assert x * (y * q2) == (x * y) * q2;
      MulMonotone(x, y * q2, q);
      DivUnique(a, x * y, q2);
    }
  }

  /** Removing x from x combined with y leaves y. */
  lemma InverseCancel(op: Op, x: int, y: int)
    requires Identity(op) <= x && Identity(op) <= y
    ensures op == Times ==> x != 0
    ensures Inverse(op, Combine(op, x, y), x) == y
  {
    if op == Times {
      MulMonotone(x, 1, y);
      DivUnique(x * y, x, y);
    }
  }

  // ---------------------------------------------------------------------
  // Repetition

  /** Repeating m times and then n times is repeating m + n times. */
  lemma {:induction false} RepeatAdd(op: Op, b: int, m: nat, n: nat)
    ensures Combine(op, Repeat(op, b, m), Repeat(op, b, n)) == Repeat(op, b, m + n)
    decreases n
  {
    if n > 0 {
      RepeatAdd(op, b, m, n - 1);
      CombineAssociative(op, Repeat(op, b, m), Repeat(op, b, n - 1), b);
    }
  }

  /** Repeating the doubled element n times is repeating the element 2n times. */
  lemma {:induction false} RepeatDouble(op: Op, b: int, n: nat)
    ensures Repeat(op, Combine(op, b, b), n) == Repeat(op, b, 2 * n)
  {
    if n > 0 {
      RepeatDouble(op, b, n - 1);
      CombineAssociative(op, Repeat(op, b, 2 * n - 2), b, b);
    }
  }

  /** Repetition of a positive element is strictly increasing in the count. */
  lemma {:induction false} RepeatIncreasing(op: Op, b: int, m: nat, n: nat)
    requires Identity(op) < b && m < n
    ensures Repeat(op, b, m) < Repeat(op, b, n)
    decreases n
  {
    CombineGrows(op, Repeat(op, b, n - 1), b);
    if m < n - 1 {
      RepeatIncreasing(op, b, m, n - 1);
    }
  }

  /** Under addition, repeating b n times is n * b. */
  lemma {:induction false} RepeatPlus(b: int, n: nat)
    ensures Repeat(Plus, b, n) == n * b
  {
    if n > 0 {
      RepeatPlus(b, n - 1);
    }
  }
}
