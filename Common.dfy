/** Vocabulary shared by every model: the exceptions the library throws, as
    values, and the fixed-width integer types of .NET. */
module Common {

  /** The exception classes the modelled members can throw. */
  datatype Error =
    | ArgumentNull
    | ArgumentOutOfRange
    | IndexOutOfRange
    | Argument
    | InvalidOperation
    | Arithmetic
    | Overflow
    | DivideByZero

  /** A member that returns a value or throws. */
  datatype Result<+T> = Success(value: T) | Failure(error: Error)

  /** A member that returns nothing or throws. */
  datatype Outcome = Pass | Fail(error: Error)

  /** A reference or delegate argument that may be null. */
  datatype Option<+T> = None | Some(value: T)

  const MinInt32: int := -0x8000_0000
  const MaxInt32: int := 0x7FFF_FFFF
  const MinInt64: int := -0x8000_0000_0000_0000
  const MaxInt64: int := 0x7FFF_FFFF_FFFF_FFFF
  const TwoTo32: int := 0x1_0000_0000
  const TwoTo64: int := 0x1_0000_0000_0000_0000

  type Byte = x: int | 0 <= x < 0x100
  type Int16 = x: int | -0x8000 <= x < 0x8000
  type Int32 = x: int | MinInt32 <= x <= MaxInt32
  type UInt32 = x: int | 0 <= x < TwoTo32
  type Int64 = x: int | MinInt64 <= x <= MaxInt64

  /** C#'s unchecked 32-bit signed arithmetic: the two's-complement value of
      the low 32 bits of `x`. */
  function WrapInt32(x: int): (r: Int32)
    ensures (r - x) % TwoTo32 == 0
    ensures MinInt32 <= x <= MaxInt32 ==> r == x
  {
    (x - MinInt32) % TwoTo32 + MinInt32
  }

  /** C#'s unchecked 64-bit signed arithmetic. */
  function WrapInt64(x: int): (r: Int64)
    ensures (r - x) % TwoTo64 == 0
    ensures MinInt64 <= x <= MaxInt64 ==> r == x
  {
    (x - MinInt64) % TwoTo64 + MinInt64
  }

  /** C#'s unchecked 32-bit unsigned arithmetic. */
  function WrapUInt32(x: int): (r: UInt32)
    ensures (r - x) % TwoTo32 == 0
    ensures 0 <= x < TwoTo32 ==> r == x
  {
    x % TwoTo32
  }

  /** C#'s `%` operator: the remainder of division truncated toward zero,
      which takes the sign of the dividend (Dafny's `%` is Euclidean). */
  function Rem(a: int, b: int): (r: int)
    requires b != 0
    ensures a >= 0 ==> 0 <= r < Abs(b)
    ensures a < 0 ==> -Abs(b) < r <= 0
  {
    if a >= 0 then a % Abs(b) else -((-a) % Abs(b))
  }

  /** Euclidean division is determined by its defining equation. */
  lemma DivModUnique(a: int, m: int, q: int, r: int)
    requires m > 0 && 0 <= r < m && a == q * m + r
    ensures a / m == q && a % m == r
  {
    var k := q - a / m;
    assert k * m == a % m - r by {
      assert a == (a / m) * m + a % m;
      assert k * m == q * m - (a / m) * m;
    }
  }

  /** Adding a multiple of the modulus does not change the remainder. */
  lemma ModAddMultiple(x: int, k: int, m: int)
    requires m > 0
    ensures (x + k * m) % m == x % m
  {
    DivModUnique(x + k * m, m, x / m + k, x % m);
  }

  function Abs(x: int): (r: int)
    ensures r >= 0 && (r == x || r == -x)
  {
    if x < 0 then -x else x
  }
}
