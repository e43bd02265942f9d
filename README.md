# rand_range: a random draw mapped onto an inclusive range

A model of the one piece of logic in the random-number tutorial program:
`rand_range(low, high)`, which takes a draw of the C library's `rand()`
(a value from 0 to `RAND_MAX`) and maps it onto `[low, high]` with
`(draw % (high - low + 1)) + low`. The tutorial text derives the same
formula step by step (`range`, `random2`, `random3`), and `main` shows ten
values of `rand_range(200, 300)`.

The draw is an explicit parameter `v` with `0 <= v <= RAND_MAX`
(`RAND_MAX` = 2,147,483,647, the value the tutorial gives for its
platform), so the mapping is a pure function.

- `cpp_int.dfy` (module `CppInt`): the 32-bit `int` bounds and C++'s
  truncating `/` and `%`, which differ from Dafny's Euclidean ones on
  negative operands.
- `range_mapper.dfy` (module `RangeMapper`): `RandRange` under the bounds
  the computation accepts, the tutorial's step-by-step form, and
  `CppRandRange`, the C++ statement on any pair of `int` bounds, with its
  overflow and division-by-zero faults.
- `demo.dfy` (module `Demo`): the demonstration loop over a sequence of draws.

## Model

| member | source | states |
|---|---|---|
| CppInt.Quot | main.cpp:218 | C++ integer division: its magnitude is the quotient of the magnitudes, and it is negative only when the operands' signs differ (truncation toward zero) |
| CppInt.Rem | main.cpp:218 | C++ `%`: satisfies the division identity `a == b * Quot(a, b) + r`, is smaller than the divisor in magnitude and has the sign of the dividend |
| CppInt.RemAgreesWithEuclidean | main.cpp:218 | for a non-negative draw and a positive span, C++ `%` equals Dafny's `%` |
| RangeMapper.IsDraw | main.cpp:168-172 | a draw of `rand()` lies in [0, RAND_MAX] and so always fits an `int` |
| RangeMapper.ValidRange | main.cpp:379-387 | the corrected precondition: two `int` bounds with low <= high whose span `high - low + 1` also fits an `int` (both directions) |
| RangeMapper.Span | main.cpp:211 | the span `high - low + 1` is at least 1 whenever low <= high, so the remainder never divides by zero |
| RangeMapper.BetweenMembers | main.cpp:206-209 | the set of integers from low to high holds x exactly when low <= x <= high |
| RangeMapper.SpanCountsRange | main.cpp:206-213 | the span equals the number of integers in [low, high] |
| RangeMapper.RandRange | main.cpp:377-388 | for any draw and valid bounds the result lies in [low, high], fits an `int`, and differs from draw + low by a whole number of spans |
| RangeMapper.ResultIsUnique | main.cpp:387 | any value in [low, high] congruent to draw + low modulo the span is the result: the result is a deterministic function of (draw, low, high) |
| RangeMapper.RemainderRecovered | main.cpp:218-229 | the intermediate remainder lies in [0, high - low] and result - low recovers it exactly |
| RangeMapper.EveryValueReachable | main.cpp:382-387 | every value of [low, high] is produced by some draw (the draw r - low) |
| RangeMapper.SingletonRange | main.cpp:387 | when low == high the result is low for every draw |
| RangeMapper.TutorialExample | main.cpp:206-229 | for 20..30 the span is 11, the number of integers in the range, and every draw lands in the range |
| RangeMapper.RandRangeStepwise | main.cpp:199-233 | the step-by-step form (`range`, `random2 = random1 % range`, `random3 = random2 + low`) gives range = number of values, random2 in [0, high - low], and random3 equal to the one-line form, with no `int` overflow in any step |
| RangeMapper.CppRandRange | main.cpp:387 | the C++ statement on arbitrary `int` bounds: a result it returns without a fault fits an `int` |
| RangeMapper.CppAgreesUnderValidRange | main.cpp:377-388 | under the corrected precondition the C++ statement returns RandRange and never faults |
| RangeMapper.OrderedBoundsFaultIff | main.cpp:379-387 | with low <= high the statement faults if and only if high - low >= INT_MAX, and the fault is a signed overflow |
| RangeMapper.SourcePreconditionAdmitsOverflow | main.cpp:379-387 | low = 0, high = INT_MAX meets the stated precondition yet `high - low + 1` overflows |
| RangeMapper.EmptyRangeDividesByZero | main.cpp:194-197 | high == low - 1 makes the remainder divide by zero |
| RangeMapper.InvertedRangeEscapes | main.cpp:194-197 | with high < low - 1 a non-faulting result is at least low, hence above high and outside the range |
| Demo.RangedDraws | main.cpp:362-369 | mapping a sequence of draws keeps its length and puts every output in [low, high], each the RandRange of its draw |
| Demo.ShowRangedDemo | main.cpp:347-369 | the demonstration loop shows REPETITIONS (10) values, each RandRange of the next draw with low = 200 and high = 300, and all lie in [200, 300] |

## Findings

| source | as written | input that shows it | evidently intended | confidence | as-written member | corrected member |
|---|---|---|---|---|---|---|
| main.cpp:379-387 | the stated precondition is only `low <= high`, but `high - low + 1` is computed in `int` | low = 0, high = 2147483647: `high - low + 1` overflows a 32-bit `int` (undefined behaviour) | require the span `high - low + 1` to fit an `int`, i.e. high - low < INT_MAX | not executed; follows from 32-bit signed `int` arithmetic | RangeMapper.SourcePreconditionAdmitsOverflow | RangeMapper.RandRange |

`RangeMapper.OrderedBoundsFaultIff` gives the full set of such inputs. The
corrected precondition is `RangeMapper.ValidRange`, which `RandRange`,
`RandRangeStepwise` and the demonstration all use.

## Left out

- The generator itself: `rand()` and `srand()` are C library calls with an implementation-defined algorithm. A draw is modelled only as an input in [0, RAND_MAX], and the sequence of draws in the demonstration is a parameter.
- Seeding with `srand(int(time(0)))`: reading the system clock and the narrowing cast are I/O and platform-dependent. The "srand() has been called" part of the precondition has no counterpart.
- Other values of `RAND_MAX`: the model fixes the tutorial platform's 2,147,483,647.
- All `cout` output. The first demonstration loop (main.cpp:336-343) only prints raw draws and is not modelled; the second is modelled as the sequence of values it shows.
- Uniformity and modulo bias: these are statements about a distribution of draws, not about one call.
- The claim that the generator feeds each output back as its next seed describes library internals and is not modelled.
