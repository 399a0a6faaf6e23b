/** `char.Repeat` (CharExtensions/CharExtensions.cs). */
module Chars {
  import opened Common

  /** `count` copies of `c`: the string `new string(c, count)` builds. */
  function Copies(c: char, count: nat): (s: string)
    ensures |s| == count
    ensures forall i :: 0 <= i < |s| ==> s[i] == c
  {
    if count == 0 then [] else Copies(c, count - 1) + [c]
  }

  /** `Repeat`: a negative count is refused; zero gives the empty string;
      one gives the one-character string; otherwise `count` copies. */
  function Repeat(value: char, count: Int32): (r: Result<string>)
    ensures count < 0 <==> r.Failure?
    ensures r.Failure? ==> r.error == ArgumentOutOfRange
    ensures count == 0 ==> r == Success([])
    ensures count == 1 ==> r == Success([value])
    ensures r.Success? ==> |r.value| == count && forall i :: 0 <= i < |r.value| ==> r.value[i] == value
  {
    if count < 0 then Failure(ArgumentOutOfRange)
    else if count == 0 then Success([])
    else if count == 1 then Success([value])
    else Success(Copies(value, count))
  }

  /** Repeating `a` then `b` times is repeating `a + b` times. */
  lemma {:induction false} CopiesAdd(c: char, a: nat, b: nat)
    ensures Copies(c, a + b) == Copies(c, a) + Copies(c, b)
  {
    if b > 0 {
      CopiesAdd(c, a, b - 1);
      assert Copies(c, a + b) == Copies(c, a + (b - 1)) + [c];
      assert Copies(c, a) + Copies(c, b) == (Copies(c, a) + Copies(c, b - 1)) + [c];
    }
  }

  /** A string is a repetition exactly when every character is the same: a
      string of `n` equal characters is the `Repeat` of its first one. */
  lemma RepeatIsUniform(value: char, s: string)
    requires |s| <= MaxInt32
    requires forall i :: 0 <= i < |s| ==> s[i] == value
    ensures Repeat(value, |s|) == Success(s)
  {
    var r := Copies(value, |s|);
    assert r == s;
    assert |s| == 1 ==> s == [value];
  }
}
