/** Clearing and filling ranges of an array in place
    (ArrayExtensions/ArrayExtensions.cs). `default(T)` is the parameter
    `zero`. */
module ArrayOps {
  import opened Common

  /** `s` with the `count` elements from `start` on replaced by `v`. */
  function Overwritten<T>(s: seq<T>, start: int, count: int, v: T): (r: seq<T>)
    requires 0 <= start && 0 <= count && start + count <= |s|
    ensures |r| == |s|
    ensures forall i :: 0 <= i < |s| ==> r[i] == if start <= i < start + count then v else s[i]
  {
    s[..start] + seq(count, _ => v) + s[start + count..]
  }

  /** Whether `start` and `count` describe a window inside an array of
      `length` elements, as `Array.Clear` and `Array.Fill` demand. */
  predicate InBounds(length: nat, start: int, count: int)
  {
    0 <= start && 0 <= count && start <= length - count
  }

  /** `Clear(index, length)`: null throws; a zero length or an empty array
      returns at once, without looking at `index`; an out-of-range window
      reaches `Array.Clear`, which throws IndexOutOfRange (not the
      ArgumentOutOfRange the documentation names) and writes nothing;
      otherwise the window is reset to `default(T)`. */
  method ClearWindow<T>(arr: array?<T>, index: int, length: int, zero: T) returns (r: Outcome)
    modifies arr
    ensures arr == null ==> r == Fail(ArgumentNull)
    ensures arr != null && (length == 0 || arr.Length == 0) ==> r == Pass
    ensures arr != null && length != 0 && arr.Length != 0 ==>
      r == (if InBounds(arr.Length, index, length) then Pass else Fail(IndexOutOfRange))
    ensures arr != null && length != 0 && arr.Length != 0 && InBounds(arr.Length, index, length) ==>
      arr[..] == Overwritten(old(arr[..]), index, length, zero)
    ensures arr != null && !(length != 0 && arr.Length != 0 && InBounds(arr.Length, index, length)) ==>
      arr[..] == old(arr[..])
  {
    if arr == null {
      return Fail(ArgumentNull);
    }
    if length == 0 || arr.Length == 0 {
      return Pass;
    }
    if !InBounds(arr.Length, index, length) {
      return Fail(IndexOutOfRange);
    }
    forall i | index <= i < index + length {
      arr[i] := zero;
    }
    return Pass;
  }

  /** `Clear(index, length)` as documented: the same, except that an
      out-of-range window throws ArgumentOutOfRange. */
  method ClearWindowChecked<T>(arr: array?<T>, index: int, length: int, zero: T) returns (r: Outcome)
    modifies arr
    ensures arr == null ==> r == Fail(ArgumentNull)
    ensures arr != null ==>
      r == (if length == 0 || arr.Length == 0 || InBounds(arr.Length, index, length) then Pass
            else Fail(ArgumentOutOfRange))
    ensures arr != null && length != 0 && arr.Length != 0 && InBounds(arr.Length, index, length) ==>
      arr[..] == Overwritten(old(arr[..]), index, length, zero)
    ensures arr != null && !(length != 0 && arr.Length != 0 && InBounds(arr.Length, index, length)) ==>
      arr[..] == old(arr[..])
  {
    if arr != null && length != 0 && arr.Length != 0 && !InBounds(arr.Length, index, length) {
      return Fail(ArgumentOutOfRange);
    }
    r := ClearWindow(arr, index, length, zero);
  }

  /** `new int[3].Clear(2, 5)`: the window ends past the array, which
      throws IndexOutOfRange as written and ArgumentOutOfRange as
      documented; neither writes anything. */
  method ClearPastEndExample() returns (asWritten: Outcome, documented: Outcome)
    ensures asWritten == Fail(IndexOutOfRange)
    ensures documented == Fail(ArgumentOutOfRange)
  {
    var a := new int[3];
    asWritten := ClearWindow(a, 2, 5, 0);
    documented := ClearWindowChecked(a, 2, 5, 0);
  }

  /** A `System.Index`: a non-negative offset counted from the start, or
      from the end when `isFromEnd` holds (`^n`). */
  datatype Index = Index(value: nat, isFromEnd: bool)

  /** A `System.Range`: `start..end`. */
  datatype Range = Range(start: Index, end: Index)

  /** `Index.GetOffset`: where an index points in a collection of `length`. */
  function Offset(index: Index, length: nat): int
  {
    if index.isFromEnd then length - index.value else index.value
  }

  /** How `Clear(range)` turns a range into an index and a length: the end
      is resolved against the array length, the start is used by its raw
      value even when it counts from the end. */
  function Window(range: Range, length: nat): (w: (int, int))
    ensures w.0 == range.start.value
    ensures w.0 + w.1 == Offset(range.end, length)
  {
    var index := range.start.value;
    var end := if range.end.isFromEnd then length - range.end.value else range.end.value;
    (index, end - index)
  }

  /** `Clear(range)`: null throws; otherwise `Clear(index, end - index)` with
      the window `Window` computes. */
  method ClearRange<T>(arr: array?<T>, range: Range, zero: T) returns (r: Outcome)
    modifies arr
    ensures arr == null ==> r == Fail(ArgumentNull)
    ensures arr != null ==>
      var (index, length) := Window(range, arr.Length);
      && (length == 0 || arr.Length == 0 ==> r == Pass && arr[..] == old(arr[..]))
      && (length != 0 && arr.Length != 0 && !InBounds(arr.Length, index, length) ==>
            r == Fail(IndexOutOfRange) && arr[..] == old(arr[..]))
      && (length != 0 && InBounds(arr.Length, index, length) ==>
            r == Pass && arr[..] == Overwritten(old(arr[..]), index, length, zero))
  {
    if arr == null {
      return Fail(ArgumentNull);
    }
    var (index, length) := Window(range, arr.Length);
    r := ClearWindow(arr, index, length, zero);
  }

  /** A window is what `array[range]` denotes: both ends resolved with
      `Index.GetOffset`. */
  function WindowCorrected(range: Range, length: nat): (w: (int, int))
    ensures w.0 == Offset(range.start, length)
    ensures w.0 + w.1 == Offset(range.end, length)
  {
    var index := Offset(range.start, length);
    (index, Offset(range.end, length) - index)
  }

  /** The two resolutions agree whenever the start does not count from the
      end. */
  lemma WindowsAgree(range: Range, length: nat)
    requires !range.start.isFromEnd
    ensures Window(range, length) == WindowCorrected(range, length)
  {
  }

  /** `array.Clear(^2..)` on five elements clears elements 2, 3 and 4,
      although `^2..` denotes only elements 3 and 4. */
  lemma ClearFromEndStartExample()
    ensures Window(Range(Index(2, true), Index(0, true)), 5) == (2, 3)
    ensures WindowCorrected(Range(Index(2, true), Index(0, true)), 5) == (3, 2)
  {
  }

  /** `Clear(range)` with the start resolved like the end and the
      documented exception: it succeeds exactly when the range is empty,
      the array is empty or the range lies inside the array, and then
      resets exactly the elements `array[range]` denotes; otherwise it
      throws ArgumentOutOfRange and writes nothing. */
  method ClearRangeCorrected<T>(arr: array?<T>, range: Range, zero: T) returns (r: Outcome)
    modifies arr
    ensures arr == null ==> r == Fail(ArgumentNull)
    ensures arr != null ==>
      (r == Pass <==>
        || Offset(range.start, arr.Length) == Offset(range.end, arr.Length)
        || arr.Length == 0
        || 0 <= Offset(range.start, arr.Length) <= Offset(range.end, arr.Length) <= arr.Length)
    ensures arr != null && r.Fail? ==> r.error == ArgumentOutOfRange && arr[..] == old(arr[..])
    ensures arr != null && r.Pass? ==>
      forall i :: 0 <= i < arr.Length ==>
        arr[i] == if Offset(range.start, arr.Length) <= i < Offset(range.end, arr.Length)
                    then zero else old(arr[i])
  {
    if arr == null {
      return Fail(ArgumentNull);
    }
    var (index, length) := WindowCorrected(range, arr.Length);
    r := ClearWindowChecked(arr, index, length, zero);
  }

  /** `Clear()`: `Clear(..)`, which resets every element. */
  method ClearAll<T>(arr: array?<T>, zero: T) returns (r: Outcome)
    modifies arr
    ensures arr == null ==> r == Fail(ArgumentNull)
    ensures arr != null ==> r == Pass && arr[..] == seq(arr.Length, _ => zero)
  {
    r := ClearRange(arr, Range(Index(0, false), Index(0, true)), zero);
  }

  /** `Fill(value)`: null throws; every element becomes `value`. */
  method FillAll<T>(arr: array?<T>, value: T) returns (r: Outcome)
    modifies arr
    ensures arr == null ==> r == Fail(ArgumentNull)
    ensures arr != null ==> r == Pass && arr[..] == seq(arr.Length, _ => value)
  {
    if arr == null {
      return Fail(ArgumentNull);
    }
    if arr.Length == 0 {
      return Pass;
    }
    forall i | 0 <= i < arr.Length {
      arr[i] := value;
    }
    return Pass;
  }

  /** `Fill(value, startIndex, count)`: null throws; a zero count or an
      empty array returns at once; an out-of-range window throws and writes
      nothing; otherwise exactly the window becomes `value`. */
  method FillWindow<T>(arr: array?<T>, value: T, startIndex: int, count: int) returns (r: Outcome)
    modifies arr
    ensures arr == null ==> r == Fail(ArgumentNull)
    ensures arr != null && (count == 0 || arr.Length == 0) ==> r == Pass
    ensures arr != null && count != 0 && arr.Length != 0 ==>
      r == (if InBounds(arr.Length, startIndex, count) then Pass else Fail(ArgumentOutOfRange))
    ensures arr != null && count != 0 && arr.Length != 0 && InBounds(arr.Length, startIndex, count) ==>
      arr[..] == Overwritten(old(arr[..]), startIndex, count, value)
    ensures arr != null && !(count != 0 && arr.Length != 0 && InBounds(arr.Length, startIndex, count)) ==>
      arr[..] == old(arr[..])
  {
    if arr == null {
      return Fail(ArgumentNull);
    }
    if count == 0 || arr.Length == 0 {
      return Pass;
    }
    if !InBounds(arr.Length, startIndex, count) {
      return Fail(ArgumentOutOfRange);
    }
    forall i | startIndex <= i < startIndex + count {
      arr[i] := value;
    }
    return Pass;
  }
}
