/** Reference definitions the integer helpers are measured against: decimal
    digit sums, the repeated digit sum, and the factorial on unbounded
    integers. */
module MathReference {
  import opened Common

  /** The sum of the decimal digits of `n`. */
  function DigitSum(n: nat): (r: nat)
    ensures n >= 10 ==> r < n
  {
    if n < 10 then n else n % 10 + DigitSum(n / 10)
  }

  lemma {:induction false} DigitSumMod9(n: nat)
    ensures DigitSum(n) % 9 == n % 9
  {
    if n >= 10 {
      var t := n / 10;
      var s := DigitSum(t);
      DigitSumMod9(t);
      assert s == 9 * (s / 9) + s % 9 && t == 9 * (t / 9) + t % 9;
      assert DigitSum(n) == n + (s / 9 - t / 9 - t) * 9;
      ModAddMultiple(n, s / 9 - t / 9 - t, 9);
    }
  }

  /** The digital root as the documentation defines it: sum the digits again
      and again until one digit is left. */
  function RepeatedDigitSum(n: nat): (r: nat)
    ensures r < 10
    decreases n
  {
    if n < 10 then n else RepeatedDigitSum(DigitSum(n))
  }

  /** The repeated digit sum of a positive number is 9 for multiples of 9 and
      the remainder by 9 otherwise; of 0 it is 0. */
  lemma {:induction false} RepeatedDigitSumFormula(n: nat)
    ensures RepeatedDigitSum(n) == if n == 0 then 0 else if n % 9 == 0 then 9 else n % 9
  {
    if n >= 10 {
      DigitSumMod9(n);
      RepeatedDigitSumFormula(DigitSum(n));
      assert DigitSum(n) > 0 by {
        if DigitSum(n) == 0 { DigitSumZero(n); }
      }
    }
  }

  lemma {:induction false} DigitSumZero(n: nat)
    requires DigitSum(n) == 0
    ensures n == 0
  {
    if n >= 10 { DigitSumZero(n / 10); }
  }

  /** n! on unbounded integers. */
  function Fact(n: nat): (r: nat)
    ensures r >= 1
  {
    if n == 0 then 1 else n * Fact(n - 1)
  }

  lemma {:induction false} FactMonotone(a: nat, b: nat)
    requires a <= b
    ensures Fact(a) <= Fact(b)
    decreases b - a
  {
    if a < b {
      FactMonotone(a, b - 1);
      assert Fact(b) == b * Fact(b - 1);
    }
  }

  /** 20! is the largest factorial that fits a `long`. */
  lemma FactFitsInt64(n: nat)
    requires n <= 20
    ensures Fact(n) <= MaxInt64
    ensures Fact(21) > MaxInt64
  {
    assert Fact(5) == 120;
    assert Fact(10) == 3628800;
    assert Fact(15) == 1307674368000;
    assert Fact(20) == 2432902008176640000;
    assert Fact(21) == 51090942171709440000;
    FactMonotone(n, 20);
  }

  /** 1 * 2 * ... * n in unchecked 64-bit arithmetic, the product a `long`
      accumulator holds: n! exactly while it fits, that is up to 20. */
  function WrappedFact(n: nat): (r: Int64)
    ensures n <= 20 ==> r == Fact(n)
  {
    if n == 0 then 1
    else
      var r := WrapInt64(WrappedFact(n - 1) * n);
      if n <= 20 then WrapExactFact(n); r else r
  }

  /** n * (n - 1)! does not wrap for n up to 20. */
  lemma WrapExactFact(n: nat)
    requires 1 <= n <= 20
    ensures WrapInt64(Fact(n - 1) * n) == Fact(n)
  {
    FactFitsInt64(n);
    assert Fact(n) == Fact(n - 1) * n;
  }

}
