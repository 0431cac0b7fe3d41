/** What the other modules share. */
module Basics {
  type Byte = x: int | 0 <= x < 256

  /** An IPv6 address. */
  type Addr = a: seq<Byte> | |a| == 16 witness [0, 0, 0, 0, 0, 0, 0, 0, 0, 0, 0, 0, 0, 0, 0, 0]

  datatype Option<T> = None | Some(value: T)

  /** C division by a positive divisor, towards zero. It is defined by repeated subtraction, so that
      proofs that only carry a quotient along do not reason about division. */
  function Div(a: int, b: int): int
    requires b > 0
    decreases if a < 0 then -a else a, a < 0
  {
    if a < 0 then -Div(-a, b) else if a < b then 0 else 1 + Div(a - b, b)
  }

  /** What makes it the quotient: the remainder is smaller than the divisor and has the sign of `a`. */
  lemma {:induction false} DivIs(a: int, b: int)
    requires b > 0
    ensures a >= 0 ==> 0 <= a - Div(a, b) * b < b
    ensures a < 0 ==> -b < a - Div(a, b) * b <= 0
    decreases if a < 0 then -a else a, a < 0
  {
    if a < 0 {
      DivIs(-a, b);
      assert Div(a, b) * b == -(Div(-a, b) * b);
    } else if a >= b {
      DivIs(a - b, b);
      assert Div(a, b) * b == Div(a - b, b) * b + b;
    }
  }
}
