// Option and Result, the error cases of the report library, and the
// few PHP built-ins the layout code depends on.
module Wrappers {

  datatype Option<T> = None | Some(value: T)

  /** The exceptions (and fatal errors) the layout code can raise. */
  datatype Error =
    | TooBigKeepTogether          // "Too big keepTogether frame!"
    | NoSpaceLeft                 // "No space left in frame for another frame!"
    | EndlessRecursion            // "Endless recursion loop in the report structure."
    | ImageMissing                // "Image file does not exist."
    | ImageInvalid                // "Image file seems not to be a valid image"
    | UndefinedMethod(name: string)   // a call to a method no class defines
    | Uninitialized(property: string) // a typed property read before it was assigned
    | DivisionByZero
    | StylesNotInitialized        // TextStyles::addTextStyle before resetStyles
    | OutsidePrintableArea        // "Non overlay FixposFrame is outside the printable area"
    | OutOfFuel                   // recursion or a loop ran past its bound
    | Diverges                    // the library's loop never ends for this input

  datatype Result<T> = Ok(value: T) | Err(error: Error) {
    predicate IsFailure() { Err? }
    function PropagateFailure<U>(): Result<U> requires Err? { Err(error) }
    function Extract(): T requires Ok? { value }
  }

  function Max(a: real, b: real): (m: real)
    ensures m >= a && m >= b && (m == a || m == b)
  {
    if a >= b then a else b
  }

  function Min(a: real, b: real): (m: real)
    ensures m <= a && m <= b && (m == a || m == b)
  {
    if a <= b then a else b
  }

  /** PHP's (int) cast of a float: truncation toward zero. */
  function TruncToInt(x: real): (n: int)
    ensures n as real <= x < n as real + 1.0 || n as real - 1.0 < x <= n as real
    ensures 0.0 <= x ==> 0 <= n && n as real <= x < n as real + 1.0
  {
    if x >= 0.0 then x.Floor else -((-x).Floor)
  }

  /** PHP's `%` on ints for a positive modulus: the remainder of truncating
      division, which takes the sign of `a`. */
  function PhpRem(a: int, m: int): (r: int)
    requires m > 0
    ensures a >= 0 ==> r == a % m
    ensures a < 0 ==> -m < r <= 0
  {
    if a >= 0 then a % m else -((-a) % m)
  }

  /** PHP's round($x): to the nearest integer, halves away from zero. */
  function RoundHalfAway(y: real): (n: int)
    ensures -0.5 <= n as real - y <= 0.5
    ensures y >= 0.0 ==> n >= 0
    ensures n as real - y == 0.5 ==> y > 0.0
    ensures y - n as real == 0.5 ==> y < 0.0
  {
    if y >= 0.0 then (y + 0.5).Floor else -((-y + 0.5).Floor)
  }

  /** PHP's round($x, 2). */
  function Round2(x: real): (r: real)
    ensures -0.005 <= r - x <= 0.005
  {
    RoundHalfAway(x * 100.0) as real / 100.0
  }

  /** PHP's round($x, 3). */
  function Round3(x: real): (r: real)
    ensures -0.0005 <= r - x <= 0.0005
  {
    RoundHalfAway(x * 1000.0) as real / 1000.0
  }
}
