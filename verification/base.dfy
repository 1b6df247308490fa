/** Shared vocabulary of the dispatch model: the fatal conditions of the
    pipeline, a result type carrying them, and the fixed-width machine
    arithmetic that the C program relies on (32-bit `int` and `unsigned`). */
module Base {

  /** Every condition on which the program stops with `exit`. */
  datatype Fault =
    | QueueExhausted    // dijkstra: no unfinalized link is left
    | RepeatedNode      // dijkstra: the same link is selected twice in a row
    | BadDigit          // a mixed-radix digit outside its admissible range
    | CountMismatch     // an enumerated count differs from its closed form
    | MissingStayLink   // no service link carries a demand's stay-link id
    | UnreachableTrip   // a fare is charged for a trip with no route

  datatype Result<+T> = Ok(value: T) | Err(fault: Fault) {
    predicate IsFailure() { Err? }
    function PropagateFailure<U>(): Result<U>
      requires Err?
    {
      Err(fault)
    }
    function Extract(): T
      requires Ok?
    {
      value
    }
  }

  /** `INT_MAX` of a 32-bit `int`, used by dijkstra as "not yet reached". */
  const IntMax: int := 0x7FFF_FFFF
  const IntMin: int := -0x8000_0000
  /** `UINT_MAX` of a 32-bit `unsigned`. */
  const UintMax: nat := 0xFFFF_FFFF
  const TwoTo32: nat := 0x1_0000_0000

  /** Two's-complement wrap-around of a 32-bit signed addition. */
  function Wrap32(x: int): (r: int)
    ensures IntMin <= r <= IntMax
    ensures IntMin <= x <= IntMax ==> r == x
    ensures x == IntMax + 1 ==> r == IntMin
  {
    (x - IntMin) % TwoTo32 + IntMin
  }

  /** Unsigned 32-bit `x - 1`: wraps to `UINT_MAX` at zero. */
  function Pred32(x: nat): (r: nat)
    requires x <= UintMax
    ensures r <= UintMax
    ensures x >= 1 ==> r + 1 == x
    ensures x == 0 ==> r == UintMax
  {
    (x + UintMax) % TwoTo32
  }

  /** C's `/` on `int`: truncates toward zero. */
  function TruncDiv(a: int, b: int): (q: int)
    requires b > 0
    ensures a >= 0 ==> q == a / b
    ensures a < 0 ==> q == -((-a) / b)
  {
    if a >= 0 then a / b else -((-a) / b)
  }

  /** C's `%` on `int`: the remainder takes the sign of the dividend. */
  function TruncMod(a: int, b: int): (m: int)
    requires b > 0
    ensures a >= 0 ==> m == a % b
    ensures -b < m < b
  {
    a - TruncDiv(a, b) * b
  }
}
