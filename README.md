# Quotient, remainder and logarithm over an Archimedean group

A Dafny model of `Logarithms.cpp`, a library in the style of *Elements of
Programming* that computes the generalised quotient and remainder of `a` by
`b`, and the generalised integer logarithm, using only an operation `op`, its
inverse, its identity and the order `<`. The benchmark driver runs the five
quotient-remainder variants and `ilog` under `plus` and under `multiplies`
over `long long`, and again over rationals, which this model leaves out.
`builtin_quotient_remainder` runs only under `plus`, as the oracle the
additive results are compared with. `slow_quotient_remainder` is never
called: its line in the driver is commented out. The model keeps both
`long long` instances, selected by a value of `datatype Op = Plus | Times`,
and models the baseline and the oracle as well:

| instance | operation | inverse | identity | b repeated n times |
|---|---|---|---|---|
| `Plus` | `x + y` | `x - y` | 0 | `n * b` |
| `Times` | `x * y` | `x / y`, truncating | 1 | `b^n` |

One specification covers every algorithm on both instances.
`IsQuotientRemainder(op, a, b, q, r)` says three things:
- `b` repeated `q` times is not above `a`;
- `b` repeated `q + 1` times is above `a`;
- `r` is what the inverse leaves of `a` once `b` repeated `q` times is removed.

Under addition this is `a == q * b + r` with `0 <= r < b`. Under
multiplication it is `b^q <= a < b^(q+1)` with `r == a / b^q`. The
decomposition is unique (`QuotientRemainderUnique`). Because of that, every
algorithm proved to meet it returns the same pair as the others, and under
addition the same pair as native `/` and `%`.

Modules, one per part of the source file:
- `Integers` (`integers.dfy`): the count-type helpers `successor`, `twice`,
  `half_nonnegative`, `zero`, `one`, `even` and `odd`.
- `Operations` (`operations.dfy`): the operation capability (`plus`,
  `multiplies`, their inverses `minus` and `divides`, `identity_element`) and
  `pair`. It also holds the ghost `Repeat` and the group laws the algorithms
  rely on, each proved for both instances.
- `Exponentiation` (`exponentiation.dfy`): `power_accumulate_positive` and
  `power`.
- `QuotientRemainder` (`quotient_remainder.dfy`): the specification, native
  division, the linear baseline, the three recursive variants,
  `largest_doubling` and the iterative variant built on it.
- `Fibonacci` (`fibonacci.dfy`): `next_fibonacci`, `previous_fibonacci` and
  the Fibonacci variant.
- `Logarithm` (`logarithm.dfy`): `ilog`.

The source writes the recursive variants as recursion, so they are
functions. The loops are methods with loop invariants. Each `do … while`
loop is a `while true` loop that ends with a conditional `break`. The
methods promise the decomposition. They also promise to agree with
`QuotientRemainder0` and, under addition, with
`BuiltinQuotientRemainder`, which is the comparison the benchmark driver
makes.

A decomposition of the form `a == combine(repeat(b, q), r)` holds only
under addition. Truncating division is not an exact inverse of
multiplication, so the model states the result as the bounds above, which
is what the code computes. `TruncatedRemainder` shows the difference on 10
and 3.

## Model

| member | source | states |
|---|---|---|
| `Integers.HalfNonnegative` | Logarithms.cpp:100-105 | the result is the floor of a / 2: twice it is a or a - 1 |
| `Integers.Twice` | Logarithms.cpp:93-98 | halving undoes doubling, and the result is even |
| `Integers.Even` | Logarithms.cpp:121-126 | true exactly when a is twice its half |
| `Integers.Odd` | Logarithms.cpp:128-133 | true exactly when a is twice its half plus one; the negation of `Even` |
| `Integers.Successor` | Logarithms.cpp:86-91 | the result is above a by less than two and has the other parity |
| `Integers.IsZero` | Logarithms.cpp:107-112 | true exactly for the fixed point of doubling |
| `Integers.IsOne` | Logarithms.cpp:114-119 | true exactly for the positive integer whose half is zero |
| `Operations.TruncatingDivide` | Logarithms.cpp:239-246 | C++ division: the product of the quotient and the divisor is at most the dividend in magnitude, and within one divisor of it; the quotient carries the sign of the operands |
| `Operations.Inverse` | Logarithms.cpp:248-265 | `minus` undoes `plus`; for a non-negative dividend and positive divisor, `divides` brackets x between y * r and y * (r + 1) |
| `Operations.Identity` | Logarithms.cpp:448-458 | 0 for `plus`, 1 for `multiplies`; combining with it on either side changes nothing |
| `Operations.Repeat` | Logarithms.cpp:206-235 | b repeated n times; a non-negative b gives a non-negative result |
| `Operations.CombineAssociative` | Logarithms.cpp:155-187 | both operations are associative, as `power` requires |
| `Operations.CombineGrows` | Logarithms.cpp:155-187 | combining a non-negative element with a positive one gives a larger element (the Archimedean growth that makes the loops end) |
| `Operations.CombineMonotone` | Logarithms.cpp:155-187 | combining with a non-negative element preserves the order |
| `Operations.InverseBelow` | Logarithms.cpp:239-265 | what the inverse leaves of a after removing x is below y exactly when a is below x combined with y |
| `Operations.InverseInverse` | Logarithms.cpp:239-265 | removing x and then y is removing x combined with y |
| `Operations.InverseCancel` | Logarithms.cpp:239-265 | removing x from x combined with y gives back y |
| `Operations.RepeatAdd` | Logarithms.cpp:206-235 | b repeated m times combined with b repeated n times is b repeated m + n times |
| `Operations.RepeatDouble` | Logarithms.cpp:228-230 | squaring b halves the count: (b combined with b) repeated n times is b repeated 2n times |
| `Operations.RepeatIncreasing` | Logarithms.cpp:372-380 | repetition of a positive element is strictly increasing in the count |
| `Operations.RepeatPlus` | Logarithms.cpp:155-163 | under addition, b repeated n times is n * b |
| `Exponentiation.RepeatOdd` | Logarithms.cpp:214-219 | an odd count 2k + 1 splits into one a combined with (a combined with a) repeated k times |
| `Exponentiation.PowerAccumulatePositive` | Logarithms.cpp:206-221 | for n > 0, returns r combined with a repeated n times; the loop keeps that value unchanged while n halves and returns when n is 1 |
| `Exponentiation.Power` | Logarithms.cpp:223-235 | for n > 0, returns a repeated n times; stripping even factors keeps that value, and an n of 1 returns a |
| `QuotientRemainder.QuotientRemainderUnique` | Logarithms.cpp:538-553 | two pairs that both meet the decomposition are equal, so all variants agree |
| `QuotientRemainder.RemainderBounds` | Logarithms.cpp:309-321 | the remainder is at least the identity and below b; under addition a == q * b + r |
| `QuotientRemainder.SmallDividend` | Logarithms.cpp:314-315 | a < b decomposes as (0, a), and a == b as (1, identity) |
| `QuotientRemainder.ConsumedNothing` | Logarithms.cpp:294-296 | the starting state of the loops, with nothing removed from a, is consistent |
| `QuotientRemainder.ConsumedMore` | Logarithms.cpp:297-300 | removing k more copies of b that fit keeps the loop invariant a0 = b repeated n times plus a, and shrinks a when k > 0 |
| `QuotientRemainder.ConsumedAll` | Logarithms.cpp:297-301 | when what is left is below b, the count removed and what is left are the decomposition |
| `QuotientRemainder.BuiltinQuotientRemainder` | Logarithms.cpp:282-287 | native division: a == q * b + r always, and for a >= 0, b > 0 the pair is the additive decomposition |
| `QuotientRemainder.SlowQuotientRemainder` | Logarithms.cpp:289-302 | repeated subtraction returns the decomposition, the same pair as variant 0, and under addition native division |
| `QuotientRemainder.HalveBack` | Logarithms.cpp:316-320 | from the decomposition by b combined with b, twice the quotient (plus one, with one more removal of b, when the remainder is still at least b) is the decomposition by b |
| `QuotientRemainder.RoomForDouble` | Logarithms.cpp:315-316 | removing b from a leaves at least b exactly when a holds b combined with b, so the recursion strictly shrinks a - b |
| `QuotientRemainder.QuotientRemainder0` | Logarithms.cpp:304-321 | for a >= identity and b > identity, returns the decomposition of a by b; recursion happens only when b combined with b fits in a, so a - b strictly shrinks |
| `QuotientRemainder.QuotientRemainder1` | Logarithms.cpp:323-341 | for a >= identity and b > identity, returns the decomposition of a by b |
| `QuotientRemainder.QuotientRemainder2` | Logarithms.cpp:343-361 | for a >= identity and b > identity, returns the decomposition of a by b |
| `QuotientRemainder.RecursiveVariantsAgree` | Logarithms.cpp:309-361 | the three recursive variants return identical pairs |
| `QuotientRemainder.RecursiveVariantsEdgeCases` | Logarithms.cpp:314-315 | every recursive variant returns (0, a) when a < b and (1, identity) when a == b |
| `QuotientRemainder.TruncatedRemainder` | Logarithms.cpp:248-251 | under multiplication, 10 by 3 gives (2, 1) although 3^2 * 1 is not 10: the remainder is a / b^q, not a cancelled factor |
| `QuotientRemainder.VariantsMatchBuiltin` | Logarithms.cpp:538-542 | under addition, variant 0 returns native a / b and a % b |
| `QuotientRemainder.AgreesWithVariant0` | Logarithms.cpp:538-553 | any pair meeting the decomposition is the one variant 0 returns and, under addition, the one native division returns |
| `QuotientRemainder.LargestDoubling` | Logarithms.cpp:363-382 | for a >= b > identity, returns a power of two m and b repeated m times, with b repeated m times not above a and b repeated 2m times above it |
| `QuotientRemainder.QuotientRemainderWithLargestDoubling` | Logarithms.cpp:384-402 | keeps a0 = b repeated quotient times plus a while a strictly shrinks, ends with a below b, and returns the decomposition, the same pair as variant 0, and under addition native division |
| `Fibonacci.NextFibonacci` | Logarithms.cpp:406-410 | the pair moves on to (y, x combined with y), which grows for positive x |
| `Fibonacci.PreviousFibonacci` | Logarithms.cpp:412-415 | the pair moves back to (y without x, x), non-negative when x <= y |
| `Fibonacci.FibonacciRoundTrip` | Logarithms.cpp:406-415 | stepping back undoes stepping forward; under addition forward also undoes back |
| `Fibonacci.FibGrowth` | Logarithms.cpp:430-444 | consecutive Fibonacci counts d, e satisfy 1 <= d <= e <= 2d, with d < e from the second term on |
| `Fibonacci.RepeatDifference` | Logarithms.cpp:442 | stepping back from b repeated e times and b repeated d times gives b repeated e - d times |
| `Fibonacci.RepeatNondecreasing` | Logarithms.cpp:442-444 | repetition of a positive element never decreases with the count |
| `Fibonacci.LadderUp` | Logarithms.cpp:432-435 | a forward step keeps b = b0 repeated d times and c = b0 repeated e times, with (d, e) consecutive Fibonacci counts, and c grows |
| `Fibonacci.LadderDown` | Logarithms.cpp:442-444 | a backward step keeps the same facts one rung lower; b < c stays true until the pair reaches (b0, b0) |
| `Fibonacci.LadderRemove` | Logarithms.cpp:437-441 | removing b when it fits adds d to the count, keeps a0 = b0 repeated n times plus a, and leaves a below b |
| `Fibonacci.QuotientRemainderFibonacci` | Logarithms.cpp:417-446 | returns the decomposition with the remainder below b0, the same pair as variant 0, and under addition native division |
| `Logarithm.BracketWiden` | Logarithms.cpp:472-478 | doubling hi and squaring b_hi keeps b_lo = b^lo <= a and b_hi = b^hi with lo < hi |
| `Logarithm.MidpointElement` | Logarithms.cpp:481-482 | b repeated mid - lo times combined with b_lo is b repeated mid times |
| `Logarithm.ExactHit` | Logarithms.cpp:493-496 | an exact hit a == b^n is the decomposition with n and the identity |
| `Logarithm.ILog` | Logarithms.cpp:460-497 | returns n with b^n <= a < b^(n+1) and remainder inverse(a, b^n), the identity on an exact power; the same pair as every quotient-remainder variant, and under addition native division; `power` is only called with mid - lo >= 1, as its precondition demands |
| `Logarithm.Examples` | Logarithms.cpp:538-553 | 23 by 7 under addition is (3, 2); 128 to base 2 under multiplication is (7, 1) |

## Left out

- The benchmark driver `main` and `test_case` (Logarithms.cpp:499-569) are not modelled. They time runs with a clock, print to the console and fill vectors of four million results. Their one claim is that all variants agree with a reference, which the agreement contracts above state for all inputs.
- The `boost::rational` instance (Logarithms.cpp:268-274, 556-568) is not modelled: rational arithmetic is a foreign library whose code is not part of this model.
- The `requires` macro and the type functions `input_type`, `quotient_type`, `Domain` and `QuotientType` (Logarithms.cpp:20-63, 165-187, 270-280) are not modelled. They only select types at compile time. Both instances use `int` as element and count type here.
- The overflow of `long long` is not modelled. Every member works on unbounded `int`, so no product wraps. In the source, these products can overflow under multiplication for large `a` or `b`: the first `op(b, b)` and the squaring of `c` in `largest_doubling` (Logarithms.cpp:374, 379), the `op(b, b)` that variant 2 computes before any test (Logarithms.cpp:354), the doubling `op(b, b)` passed to the recursion of variants 0 and 1 (Logarithms.cpp:316, 336), the forward Fibonacci step `op(x, y)` (Logarithms.cpp:409, called at 433), and the squaring of `b_hi` in `ilog` (Logarithms.cpp:477).
- `operator==` on `pair` (Logarithms.cpp:199-204) is Dafny's structural equality on the `Pair` datatype.
- `Operations.Combine` (the `plus` and `multiplies` wrappers, Logarithms.cpp:155-187) has no contract of its own; its laws are the `Combine…` lemmas.
- `Operations.TruncatingDivide` and `Operations.Inverse` require a non-zero divisor under multiplication. Dividing by zero is undefined in C++, and no algorithm divides by anything below the identity 1: every divisor is b repeated k times for some k >= 0, which is 1 when k is 0 (as in `ilog`'s final `inverse(op)(a, b_lo)` while `lo` is still 0).
- The general Archimedean-group axioms are not stated abstractly. The laws the algorithms need are proved for the two concrete instances instead.
