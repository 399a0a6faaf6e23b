/** Math helpers on 8-bit unsigned integers (Math/ByteExtensions.cs). */
module ByteMath {
  import opened Common
  import opened MathReference

  /** `DigitalRoot`: the remainder by 9, with 0 mapped to 9. For every
      non-zero byte this is the repeated digit sum. */
  function DigitalRoot(value: Byte): (r: Byte)
    ensures 1 <= r <= 9 && (r - value) % 9 == 0
    ensures value != 0 ==> r == RepeatedDigitSum(value)
    ensures r == 9 <==> value % 9 == 0
  {
    RepeatedDigitSumFormula(value);
    var root := value % 9;
    if root == 0 then 9 else root
  }

  /** `Factorial` with a counter wide enough to pass 255, which is the
      evidently intended behaviour (see the findings): 0! = 1, and the
      unchecked 64-bit product 1 * ... * value, exact up to 20. */
  method Factorial(value: Byte) returns (r: Int64)
    ensures r == WrappedFact(value)
    ensures value <= 20 ==> r == Fact(value)
  {
    if value == 0 {
      return 1;
    }
    var result: Int64 := 1;
    var i := 1;
    while i <= value
      invariant 1 <= i <= value + 1
      invariant result == WrappedFact(i - 1)
    {
      result := WrapInt64(result * i);
      i := i + 1;
    }
    return result;
  }

  /** The `for` loop of `Factorial` as written, run for at most `fuel`
      iterations: the counter is a `byte` whose `++` wraps from 255 to 0.
      `None` means the loop had not exited when the fuel ran out. */
  function FactorialLoop(value: Byte, i: Byte, result: Int64, fuel: nat): (r: Option<Int64>)
    ensures value < 255 && 1 <= i && fuel > value - i ==> r.Some?
    decreases fuel
  {
    if i > value then Some(result)
    else if fuel == 0 then None
    else FactorialLoop(value, (i + 1) % 0x100, WrapInt64(result * i), fuel - 1)
  }

  /** For 255 every byte passes the guard `i <= value`, so the loop as
      written never exits, however long it runs. */
  lemma {:induction false} FactorialLoopOf255NeverExits(i: Byte, result: Int64, fuel: nat)
    ensures FactorialLoop(255, i, result, fuel) == None
    decreases fuel
  {
    if fuel > 0 {
      FactorialLoopOf255NeverExits((i + 1) % 0x100, WrapInt64(result * i), fuel - 1);
    }
  }

  /** Below 255 the loop as written runs the counter from `i` up to
      `value` without wrapping, so it ends with the wrapped product 1 * ... *
      `value`. */
  lemma {:induction false} FactorialLoopComputes(value: Byte, i: Byte, fuel: nat)
    requires value < 255 && 1 <= i <= value + 1 && fuel > value - i
    ensures FactorialLoop(value, i, WrappedFact(i - 1), fuel) == Some(WrappedFact(value))
    decreases fuel
  {
    if i <= value {
      assert (i + 1) % 0x100 == i + 1;
      assert WrapInt64(WrappedFact(i - 1) * i) == WrappedFact(i);
      FactorialLoopComputes(value, i + 1, fuel - 1);
    }
  }

  /** Started as written (counter 1, product 1), the loop returns what
      `Factorial` returns for every value below 255, and n! for 0 to
      20: the two differ only at 255, where the loop never exits. */
  lemma FactorialLoopIsFactorial(value: Byte, fuel: nat)
    requires value < 255 && fuel > value
    ensures FactorialLoop(value, 1, 1, fuel) == Some(WrappedFact(value))
    ensures value <= 20 ==> FactorialLoop(value, 1, 1, fuel) == Some(Fact(value))
  {
    FactorialLoopComputes(value, 1, fuel);
  }

  /** `IsEven`: `value % 2 == 0`. */
  function IsEven(value: Byte): (r: bool)
    ensures r <==> exists k: nat :: k <= 127 && value == 2 * k
  {
    var k := value / 2;
    assert value % 2 == 0 ==> value == 2 * k;
    value % 2 == 0
  }

  /** `IsOdd`: the negation of `IsEven`. */
  function IsOdd(value: Byte): (r: bool)
    ensures r <==> exists k: nat :: k <= 127 && value == 2 * k + 1
  {
    var k := value / 2;
    assert value % 2 == 1 ==> value == 2 * k + 1;
    !IsEven(value)
  }
}
