/** Math helpers on 32-bit signed integers (Math/Int32Extensions.cs). */
module Int32Math {
  import opened Common
  import opened MathReference

  /** `CountDigits`: zero is answered directly with one digit; every other
      value is handed to the 64-bit overload, which is not part of this model
      and is therefore the parameter `countLong`. */
  function CountDigits(value: Int32, countLong: Int64 -> int): (r: int)
    ensures value == 0 ==> r == 1
    ensures value != 0 ==> r == countLong(value)
  {
    if value == 0 then 1 else countLong(value)
  }

  /** `Mod`: C#'s remainder, moved up by the divisor when it is negative.
      `%` throws on a zero divisor, and on `int.MinValue % -1`. */
  function Mod(dividend: Int32, divisor: Int32): (r: Result<Int32>)
    ensures r.Failure? <==> divisor == 0 || (dividend == MinInt32 && divisor == -1)
    ensures divisor == 0 ==> r == Failure(DivideByZero)
    ensures divisor != 0 && r.Failure? ==> r.error == Overflow
    ensures divisor > 0 ==> r == Success(dividend % divisor)
    ensures dividend >= 0 && r.Success? ==> r.value == Rem(dividend, divisor)
  {
    if divisor == 0 then Failure(DivideByZero)
    else if dividend == MinInt32 && divisor == -1 then Failure(Overflow)
    else
      var rem := Rem(dividend, divisor);
      ModOfNegative(dividend, divisor);
      Success(if rem < 0 then WrapInt32(rem + divisor) else rem)
  }

  /** For a positive divisor, C#'s remainder shifted up by the divisor is the
      Euclidean remainder. */
  lemma ModOfNegative(a: int, m: int)
    requires m != 0
    ensures m > 0 && Rem(a, m) < 0 ==> Rem(a, m) + m == a % m
    ensures m > 0 && Rem(a, m) >= 0 ==> Rem(a, m) == a % m
  {
    if m > 0 && a < 0 {
      var x := -a;
      var q, r := x / m, x % m;
      assert x == q * m + r;
      if r == 0 {
        DivModUnique(a, m, -q, 0);
      } else {
        DivModUnique(a, m, -q - 1, m - r);
      }
    }
  }

  /** `DigitalRoot`: `Math.Abs` throws for `int.MinValue`; otherwise the
      remainder of |value| by 9, with 0 mapped to 9. For every non-zero value
      this is the repeated digit sum; for 0 it is 9 (see the findings). */
  function DigitalRoot(value: Int32): (r: Result<Int32>)
    ensures r.Failure? <==> value == MinInt32
    ensures r.Failure? ==> r.error == Overflow
    ensures r.Success? ==> 1 <= r.value <= 9 && (r.value - Abs(value)) % 9 == 0
    ensures r.Success? && value != 0 ==> r.value == RepeatedDigitSum(Abs(value))
    ensures value == 0 ==> r == Success(9)
  {
    if value == MinInt32 then Failure(Overflow)
    else
      var root := Mod(Abs(value), 9).value;
      RootOfRemainder(Abs(value));
      Success(if root < 1 then 9 - root else root)
  }

  /** What `DigitalRoot` makes of the remainder of `a` by 9. */
  lemma RootOfRemainder(a: nat)
    ensures var d := if a % 9 < 1 then 9 - a % 9 else a % 9;
      && 1 <= d <= 9 && (d - a) % 9 == 0
      && (a != 0 ==> d == RepeatedDigitSum(a))
  {
    RepeatedDigitSumFormula(a);
    var d := if a % 9 < 1 then 9 - a % 9 else a % 9;
    assert d == a % 9 || d == a % 9 + 9;
    assert a == (a / 9) * 9 + a % 9;
  }

  /** The digital root with 0 mapped to 0, as the documented definition
      (repeated digit sum) gives. */
  function DigitalRootCorrected(value: Int32): (r: Result<Int32>)
    ensures r.Failure? <==> value == MinInt32
    ensures r.Success? ==> r.value == RepeatedDigitSum(Abs(value))
  {
    if value == MinInt32 then Failure(Overflow)
    else
      RepeatedDigitSumFormula(Abs(value));
      var root := Abs(value) % 9;
      Success(if value == 0 then 0 else if root == 0 then 9 else root)
  }

  /** The digital root of 0 as written disagrees with the documented
      definition. */
  lemma DigitalRootOfZero()
    ensures DigitalRoot(0) == Success(9)
    ensures RepeatedDigitSum(0) == 0
    ensures DigitalRootCorrected(0) == Success(0)
  {
  }

  /** `Factorial`: negative input throws; otherwise the product 1 * ... * value
      in unchecked 64-bit arithmetic. Exact up to 20. The loop counter is
      modelled without wrap-around (see the findings for `int.MaxValue`). */
  method Factorial(value: Int32) returns (r: Result<Int64>)
    ensures r.Failure? <==> value < 0
    ensures r.Failure? ==> r.error == Arithmetic
    ensures 0 <= value ==> r == Success(WrappedFact(value))
    ensures 0 <= value <= 20 ==> r == Success(Fact(value))
  {
    if value < 0 {
      return Failure(Arithmetic);
    }
    if value == 0 {
      return Success(1);
    }
    var result: Int64 := 1;
    var i := 1;
    while i <= value
      invariant 1 <= i <= value + 1
      invariant result == WrappedFact(i - 1)
    {
      result := WrapInt64(result * i);
      i := i + 1;
    }
    return Success(result);
  }

  /** The `for` loop of `Factorial` as written, run for at most `fuel`
      iterations: the counter is a 32-bit `int` whose `++` wraps. `None`
      means the loop had not exited when the fuel ran out. */
  function FactorialLoop(value: Int32, i: Int32, result: Int64, fuel: nat): (r: Option<Int64>)
    ensures value < MaxInt32 && 1 <= i && fuel > value - i ==> r.Some?
    decreases fuel
  {
    if i > value then Some(result)
    else if fuel == 0 then None
    else FactorialLoop(value, WrapInt32(i + 1), WrapInt64(result * i), fuel - 1)
  }

  /** For `int.MaxValue` every counter value passes the guard `i <= value`,
      so the loop as written never exits, however long it runs. */
  lemma {:induction false} FactorialLoopOfMaxNeverExits(i: Int32, result: Int64, fuel: nat)
    ensures FactorialLoop(MaxInt32, i, result, fuel) == None
    decreases fuel
  {
    if fuel > 0 {
      FactorialLoopOfMaxNeverExits(WrapInt32(i + 1), WrapInt64(result * i), fuel - 1);
    }
  }

  /** Below `int.MaxValue` the loop as written runs the counter from `i` up to
      `value` without wrapping, so it ends with the wrapped product 1 * ... *
      `value`. */
  lemma {:induction false} FactorialLoopComputes(value: Int32, i: Int32, fuel: nat)
    requires value < MaxInt32 && 1 <= i <= value + 1 && fuel > value - i
    ensures FactorialLoop(value, i, WrappedFact(i - 1), fuel) == Some(WrappedFact(value))
    decreases fuel
  {
    if i <= value {
      assert WrapInt32(i + 1) == i + 1;
      assert WrapInt64(WrappedFact(i - 1) * i) == WrappedFact(i);
      FactorialLoopComputes(value, i + 1, fuel - 1);
    }
  }

  /** Started as written (counter 1, product 1), the loop returns what
      `Factorial` returns for every value below `int.MaxValue`, and n! for 0 to
      20: the two differ only at `int.MaxValue`, where the loop never exits. */
  lemma FactorialLoopIsFactorial(value: Int32, fuel: nat)
    requires 0 <= value < MaxInt32 && fuel > value
    ensures FactorialLoop(value, 1, 1, fuel) == Some(WrappedFact(value))
    ensures value <= 20 ==> FactorialLoop(value, 1, 1, fuel) == Some(Fact(value))
  {
    FactorialLoopComputes(value, 1, fuel);
  }

  /** `IsEven`: bit 0 of the two's-complement pattern, `(value & 1) == 0`. */
  function IsEven(value: Int32): (r: bool)
    ensures r <==> value % 2 == 0
  {
    LowBit(value) == 0
  }

  /** Bit 0 of the 32-bit two's-complement pattern of `value`. */
  function LowBit(value: Int32): (b: int)
  {
    (if value < 0 then value + TwoTo32 else value) % 2
  }

  /** `IsOdd`: the negation of `IsEven`. */
  function IsOdd(value: Int32): (r: bool)
    ensures r <==> value % 2 == 1
  {
    !IsEven(value)
  }

  /** `Sign`: `Math.Sign`, -1, 0 or 1. */
  function Sign(value: Int32): (r: Int32)
    ensures -1 <= r <= 1
    ensures r * Abs(value) == value
    ensures r == 0 <==> value == 0
  {
    if value < 0 then -1 else if value > 0 then 1 else 0
  }
}
