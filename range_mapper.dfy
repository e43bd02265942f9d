/** `rand_range(low, high)`: map one draw of the C library's generator onto
    the inclusive range [low, high] by `(draw % (high - low + 1)) + low`.
    The draw itself is a parameter here; the generator is outside the model. */
module RangeMapper {
  import opened CppInt

  /** The largest value `rand()` returns, with GNU C++ on the author's platform. */
  const RAND_MAX: int := 2_147_483_647

  /** A value `rand()` can return: 0 to RAND_MAX inclusive. Every draw
      fits the `int` the tutorial stores it in. */
  predicate IsDraw(v: int): (b: bool)
    ensures b ==> IsInt(v)
  {
    0 <= v <= RAND_MAX
  }

  /** Bounds the computation accepts: two C++ `int`s, low <= high, and a
      span high - low + 1 that is itself a C++ `int`. */
  predicate ValidRange(low: int, high: int): (b: bool)
    ensures b <==> IsInt(low) && IsInt(high) && low <= high && IsInt(high - low + 1)
  {
    IsInt(low) && IsInt(high) && low <= high && high - low < INT_MAX
  }

  /** The integers from low to high inclusive (empty when high < low). */
  function Between(low: int, high: int): (s: set<int>)
    decreases high - low
  {
    if high < low then {} else Between(low, high - 1) + {high}
  }

  /** Between holds exactly the integers x with low <= x <= high. */
  lemma {:induction false} BetweenMembers(low: int, high: int, x: int)
    ensures x in Between(low, high) <==> low <= x <= high
    decreases high - low
  {
    if high >= low {
      BetweenMembers(low, high - 1, x);
    }
  }

  /** The span `high - low + 1`, the divisor of the remainder step. */
  function Span(low: int, high: int): (n: int)
    requires low <= high
    ensures n >= 1
  {
    high - low + 1
  }

  /** The span is the number of integers in [low, high]. */
  lemma {:induction false} SpanCountsRange(low: int, high: int)
    requires low <= high
    ensures |Between(low, high)| == Span(low, high)
    decreases high - low
  {
    if low < high {
      SpanCountsRange(low, high - 1);
      BetweenMembers(low, high - 1, high);
    }
  }

  /** The one-line form `(rand() % (high - low + 1)) + low`, with the draw
      `v` given. The result lies in the range, and it differs from `v + low`
      by a whole number of spans. */
  function RandRange(v: int, low: int, high: int): (r: int)
    requires IsDraw(v) && ValidRange(low, high)
    ensures low <= r <= high
    ensures IsInt(r)
    ensures (v + low - r) % Span(low, high) == 0
  {
    var n := Span(low, high);
    var r := v % n + low;
    assert v + low - r == n * (v / n);
    MultipleHasNoRemainder(n, v / n);
    r
  }

  lemma MultipleHasNoRemainder(n: int, k: int)
    requires n > 0
    ensures (n * k) % n == 0
  {
    var q, m := (n * k) / n, (n * k) % n;
    assert n * (k - q) == m;
    SmallMultipleIsZero(n, k - q);
  }

  /** A multiple of n strictly between -n and n is zero. */
  lemma SmallMultipleIsZero(n: int, k: int)
    requires n > 0
    requires -n < n * k < n
    ensures k == 0
  {
  }

  /** The two properties in RandRange's contract pin the result down: it is
      the only value in [low, high] congruent to v + low modulo the span. */
  lemma {:induction false} ResultIsUnique(v: int, low: int, high: int, r: int)
    requires IsDraw(v) && ValidRange(low, high)
    requires low <= r <= high
    requires (v + low - r) % Span(low, high) == 0
    ensures r == RandRange(v, low, high)
  {
    var n := Span(low, high);
    var x, y := r - low, RandRange(v, low, high) - low;
    assert v - x == n * ((v - x) / n);
    assert v - y == n * ((v - y) / n);
    assert y - x == n * ((v - x) / n - (v - y) / n);
    SmallMultipleIsZero(n, (v - x) / n - (v - y) / n);
  }

  /** Subtracting low recovers the remainder of the draw by the span. */
  lemma RemainderRecovered(v: int, low: int, high: int)
    requires IsDraw(v) && ValidRange(low, high)
    ensures 0 <= v % Span(low, high) <= high - low
    ensures RandRange(v, low, high) - low == v % Span(low, high)
  {
  }

  /** Every value of the range is the image of some draw: the draw r - low. */
  lemma {:induction false} EveryValueReachable(low: int, high: int, r: int)
    requires ValidRange(low, high)
    requires low <= r <= high
    ensures IsDraw(r - low)
    ensures RandRange(r - low, low, high) == r
  {
    ResultIsUnique(r - low, low, high, r);
  }

  /** A one-value range gives that value whatever the draw. */
  lemma SingletonRange(v: int, k: int)
    requires IsDraw(v) && IsInt(k)
    ensures RandRange(v, k, k) == k
  {
  }

  /** The tutorial's example: 20..30 holds 11 integers and every draw lands on one of them. */
  lemma {:induction false} TutorialExample(v: int)
    requires IsDraw(v)
    ensures Span(20, 30) == |Between(20, 30)| == 11
    ensures RandRange(v, 20, 30) in Between(20, 30)
  {
    SpanCountsRange(20, 30);
    BetweenMembers(20, 30, RandRange(v, 20, 30));
  }

  /** The tutorial's step-by-step derivation, one `int` variable per step:
      `range = high - low + 1`, `random2 = random1 % range`,
      `random3 = random2 + low`. It agrees with the one-line form. */
  method RandRangeStepwise(random1: int, low: int, high: int)
    returns (range: int, random2: int, random3: int)
    requires IsDraw(random1) && ValidRange(low, high)
    ensures range == |Between(low, high)|
    ensures 0 <= random2 <= high - low
    ensures random3 == RandRange(random1, low, high)
    ensures IsInt(range) && IsInt(random2) && IsInt(random3)
  {
    range := high - low + 1;
    SpanCountsRange(low, high);
    random2 := Rem(random1, range);
    RemAgreesWithEuclidean(random1, range);
    random3 := random2 + low;
  }

  /** `rand_range` as the C++ statement executes it on `int`s, for any pair
      of `int` bounds: the subtraction, the `+ 1` and the final `+ low` can
      overflow, and the remainder faults on a zero span. */
  function CppRandRange(v: int, low: int, high: int): (res: Result<int>)
    requires IsDraw(v) && IsInt(low) && IsInt(high)
    ensures res.Ok? ==> IsInt(res.value)
  {
    var d := high - low;
    if !IsInt(d) || !IsInt(d + 1) then Err(SignedOverflow)
    else if d + 1 == 0 then Err(DivisionByZero)
    else
      var sum := Rem(v, d + 1) + low;
      if !IsInt(sum) then Err(SignedOverflow) else Ok(sum)
  }

  /** Under ValidRange the C++ statement computes RandRange without a fault. */
  lemma CppAgreesUnderValidRange(v: int, low: int, high: int)
    requires IsDraw(v) && ValidRange(low, high)
    ensures CppRandRange(v, low, high) == Ok(RandRange(v, low, high))
  {
  }

  /** With low <= high, the only fault is the overflow of high - low + 1,
      and it happens exactly when high - low >= INT_MAX. */
  lemma OrderedBoundsFaultIff(v: int, low: int, high: int)
    requires IsDraw(v) && IsInt(low) && IsInt(high) && low <= high
    ensures CppRandRange(v, low, high).Err? <==> high - low >= INT_MAX
    ensures CppRandRange(v, low, high).Err? ==> CppRandRange(v, low, high).fault == SignedOverflow
  {
  }

  /** The bounds the source's own precondition admits (two `int`s with
      low <= high) include 0..INT_MAX, where `high - low + 1` overflows. */
  lemma SourcePreconditionAdmitsOverflow(v: int)
    requires IsDraw(v)
    ensures IsInt(0) && IsInt(INT_MAX) && 0 <= INT_MAX
    ensures CppRandRange(v, 0, INT_MAX) == Err(SignedOverflow)
  {
  }

  /** high == low - 1 makes the span zero: the remainder divides by zero. */
  lemma EmptyRangeDividesByZero(v: int, low: int)
    requires IsDraw(v) && IsInt(low) && IsInt(low - 1)
    ensures CppRandRange(v, low, low - 1) == Err(DivisionByZero)
  {
  }

  /** With high < low - 1 the span is negative; C++ `%` then keeps the sign of
      the draw, so a result that does not fault lies above high, outside the range. */
  lemma InvertedRangeEscapes(v: int, low: int, high: int)
    requires IsDraw(v) && IsInt(low) && IsInt(high) && high < low - 1
    ensures CppRandRange(v, low, high).Ok? ==> low <= CppRandRange(v, low, high).value
    ensures CppRandRange(v, low, high).Ok? ==> high < CppRandRange(v, low, high).value
  {
  }
}
