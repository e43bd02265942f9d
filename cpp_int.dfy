/** The C++ `int` arithmetic that `rand_range` relies on: the bounds of a
    32-bit signed `int` and the `%` operator, which truncates toward zero. */
module CppInt {

  const INT_MIN: int := -0x8000_0000
  const INT_MAX: int := 0x7FFF_FFFF

  /** The value is representable in a 32-bit signed C++ `int`. */
  predicate IsInt(x: int) {
    INT_MIN <= x <= INT_MAX
  }

  /** The two ways a C++ `int` expression can go wrong here. */
  datatype Fault = DivisionByZero | SignedOverflow

  datatype Result<T> = Ok(value: T) | Err(fault: Fault)

  function Abs(x: int): nat {
    if x < 0 then -x else x
  }

  /** C++ integer division `a / b`: the quotient truncated toward zero. */
  function Quot(a: int, b: int): (q: int)
    requires b != 0
    ensures Abs(q) == Abs(a) / Abs(b)
    ensures q < 0 ==> (a < 0) != (b < 0)
    ensures (a < 0) != (b < 0) ==> q <= 0
  {
    var n: int := Abs(a) / Abs(b);
    QuotientOfNaturals(Abs(a), Abs(b));
    if (a >= 0) == (b > 0) then n else -n
  }

  lemma QuotientOfNaturals(x: nat, y: nat)
    requires y > 0
    ensures 0 <= x / y
  {
  }

  /** C++ remainder `a % b`: the quotient is truncated toward zero, so the
      remainder takes the sign of the dividend, unlike Dafny's Euclidean `%`.
      Together with `Quot` it satisfies the division identity. */
  function Rem(a: int, b: int): (r: int)
    requires b != 0
    ensures a == b * Quot(a, b) + r
    ensures Abs(r) < Abs(b)
    ensures 0 <= a ==> 0 <= r
    ensures a <= 0 ==> r <= 0
  {
    var m := Abs(a) % Abs(b);
    DivisionIdentity(a, b);
    if a >= 0 then m else -m
  }

  /** The division identity, split by the sign of the dividend. */
  lemma DivisionIdentity(a: int, b: int)
    requires b != 0
    ensures a >= 0 ==> a == b * Quot(a, b) + Abs(a) % Abs(b)
    ensures a < 0 ==> a == b * Quot(a, b) - Abs(a) % Abs(b)
  {
  }

  /** On a non-negative dividend and a positive divisor the two remainders agree. */
  lemma RemAgreesWithEuclidean(a: int, b: int)
    requires 0 <= a && 0 < b
    ensures Rem(a, b) == a % b
  {
  }
}
