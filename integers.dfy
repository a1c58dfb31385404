/*
 * The special-case Integer procedures used by the algorithms as the
 * operations of the count type: successor, doubling, non-negative halving
 * and the zero, one and parity tests. The count type is `long long` in the
 * source; here it is the unbounded `int`.
 */
module Integers {

  /** `a >> 1`: an arithmetic shift, i.e. the floor of a / 2 (Dafny's
      Euclidean division by the positive 2 rounds the same way). */
  function HalfNonnegative(a: int): (r: int)
    ensures 2 * r <= a <= 2 * r + 1
  {
    a / 2
  }

  /** `a + a`: doubling is undone by halving and always gives an even number. */
  function Twice(a: int): (r: int)
    ensures HalfNonnegative(r) == a
    ensures Even(r)
  {
    a + a
  }

  /** `(a & 1) == 0`, which in two's complement is a remainder of 0 modulo 2. */
  function Even(a: int): (r: bool)
    ensures r <==> a == 2 * HalfNonnegative(a)
  {
    a % 2 == 0
  }

  /** `(a & 1) != 0`. */
  function Odd(a: int): (r: bool)
    ensures r <==> a == 2 * HalfNonnegative(a) + 1
    ensures r == !Even(a)
  {
    a % 2 != 0
  }

  /** `a + 1`: the next integer, of the other parity. */
  function Successor(a: int): (r: int)
    ensures a < r && HalfNonnegative(r - a) == 0
    ensures Even(r) == Odd(a)
  {
    a + 1
  }

  /** `a == 0`: zero is the only integer that doubling leaves unchanged. */
  function IsZero(a: int): (r: bool)
    ensures r <==> Twice(a) == a
  {
    a == 0
  }

  /** `a == 1`: one is the only positive integer whose half is zero. */
  function IsOne(a: int): (r: bool)
    ensures r <==> 0 < a && IsZero(HalfNonnegative(a))
  {
    a == 1
  }
}
