/**
 The parts of C# `int` arithmetic the game relies on: 32-bit wrap-around on
 increment (unchecked context, the C# default) and `/`, `%` that truncate
 toward zero. Dafny's own `/` and `%` on `int` are Euclidean, so these are
 written out.
 */
module CSharp {

  const IntMin: int := -0x8000_0000
  const IntMax: int := 0x7fff_ffff
  const Modulus: int := 0x1_0000_0000

  predicate IsInt32(v: int)
  {
    IntMin <= v <= IntMax
  }

  /** `v++` on a C# `int`: the 32-bit value congruent to v + 1. */
  function Inc(v: int): (r: int)
    requires IsInt32(v)
    ensures IsInt32(r)
    ensures (r - (v + 1)) % Modulus == 0
    ensures v < IntMax ==> r > v
  {
    if v == IntMax then IntMin else v + 1
  }

  /** `a % b` on C# integers for a positive divisor: the remainder takes the sign of `a`. */
  function Rem(a: int, b: int): (r: int)
    requires b > 0
    ensures -b < r < b
    ensures a >= 0 ==> r >= 0
    ensures a <= 0 ==> r <= 0
  {
    if a >= 0 then a % b else -((-a) % b)
  }

  /** `a / b` on C# integers for a positive divisor: the quotient is rounded toward zero, and quotient and remainder make up `a`. */
  function Div(a: int, b: int): (q: int)
    requires b > 0
    ensures q * b + Rem(a, b) == a
  {
    if a >= 0 then a / b else -((-a) / b)
  }
}
