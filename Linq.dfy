/** The LINQ-style helpers of EnumerableExtensions.cs: `Except` and the
    single-pass `MinMax`/`MinMaxBy` scans. A source is `null`, an array, a
    list or any other (lazy) sequence; arrays and lists take the span path,
    the rest the enumerator path. A comparer is a function to `int`; whether
    a value is `null` is a predicate `isNull` (constantly false for value
    types). */
module Linq {
  import opened Common

  /** An `IEnumerable<T>` argument: `null`, a `T[]`, a `List<T>`, or any
      other sequence, which is read through its enumerator. */
  datatype Source<T> = Null | Array(items: seq<T>) | List(items: seq<T>) | Lazy(items: seq<T>)

  /** `TryGetSpan`: arrays and lists expose their elements as a span. */
  function TryGetSpan<T>(source: Source<T>): (span: Option<seq<T>>)
    ensures span.Some? <==> source.Array? || source.List?
    ensures span.Some? ==> span.value == source.items
  {
    match source
    case Array(items) => Some(items)
    case List(items) => Some(items)
    case _ => None
  }

  /** The null test of a type whose values are never `null`. */
  function NeverNull<T>(x: T): bool
  {
    false
  }

  /** `comparer ??= Comparer<T>.Default`. */
  function OrDefault<C>(comparer: Option<C>, defaultComparer: C): (c: C)
    ensures comparer.Some? ==> c == comparer.value
    ensures comparer.None? ==> c == defaultComparer
  {
    if comparer.Some? then comparer.value else defaultComparer
  }

  /** Apply `f` to every element. */
  function Map<A, B>(f: A -> B, s: seq<A>): (r: seq<B>)
    ensures |r| == |s| && forall i :: 0 <= i < |s| ==> r[i] == f(s[i])
  {
    seq(|s|, i requires 0 <= i < |s| => f(s[i]))
  }

  /** The comparer that compares elements by their keys. */
  function ByKey<A, K>(key: A -> K, cmp: (K, K) -> int): (A, A) -> int
  {
    (a: A, b: A) => cmp(key(a), key(b))
  }

  /** The comparer with its arguments swapped: an inverse comparer. */
  function Reverse<T>(cmp: (T, T) -> int): (T, T) -> int
  {
    (a: T, b: T) => cmp(b, a)
  }

  /** The index of the running minimum after scanning `s` left to right:
      the first element, replaced by a later one only when the running
      value is `null` or the later one compares strictly less. */
  function MinIndex<T>(s: seq<T>, cmp: (T, T) -> int, isNull: T -> bool): (i: nat)
    requires |s| > 0
    ensures i < |s|
  {
    if |s| == 1 then 0
    else
      var m := MinIndex(s[..|s| - 1], cmp, isNull);
      if isNull(s[m]) || cmp(s[|s| - 1], s[m]) < 0 then |s| - 1 else m
  }

  /** The index of the running maximum, replaced only on a strictly
      greater element or a `null` running value. */
  function MaxIndex<T>(s: seq<T>, cmp: (T, T) -> int, isNull: T -> bool): (i: nat)
    requires |s| > 0
    ensures i < |s|
  {
    if |s| == 1 then 0
    else
      var m := MaxIndex(s[..|s| - 1], cmp, isNull);
      if isNull(s[m]) || cmp(s[|s| - 1], s[m]) > 0 then |s| - 1 else m
  }

  /** The (minimum, maximum) pair the scan returns. */
  function Extremes<T>(s: seq<T>, cmp: (T, T) -> int, isNull: T -> bool): (r: (T, T))
    requires |s| > 0
  {
    (s[MinIndex(s, cmp, isNull)], s[MaxIndex(s, cmp, isNull)])
  }

  /** `cmp(a, b) < 0` exactly when `cmp(b, a) > 0`, on the elements of `s`. */
  predicate Antisymmetric<T>(cmp: (T, T) -> int, s: seq<T>)
  {
    forall i, j :: 0 <= i < |s| && 0 <= j < |s| ==> (cmp(s[i], s[j]) < 0 <==> cmp(s[j], s[i]) > 0)
  }

  /** `cmp(a, b) <= 0` is transitive on the elements of `s`. */
  predicate Transitive<T>(cmp: (T, T) -> int, s: seq<T>)
  {
    forall i, j, k :: 0 <= i < |s| && 0 <= j < |s| && 0 <= k < |s| && cmp(s[i], s[j]) <= 0 && cmp(s[j], s[k]) <= 0
      ==> cmp(s[i], s[k]) <= 0
  }

  /** What `IComparer<T>.Compare` promises: a total preorder. */
  predicate TotalPreorder<T>(cmp: (T, T) -> int, s: seq<T>)
  {
    Antisymmetric(cmp, s) && Transitive(cmp, s)
  }

  predicate NoNulls<T>(s: seq<T>, isNull: T -> bool)
  {
    forall i :: 0 <= i < |s| ==> !isNull(s[i])
  }

  lemma PrefixProperties<T>(s: seq<T>, n: nat, cmp: (T, T) -> int, isNull: T -> bool)
    requires n <= |s|
    ensures TotalPreorder(cmp, s) ==> TotalPreorder(cmp, s[..n])
    ensures NoNulls(s, isNull) ==> NoNulls(s[..n], isNull)
  {
  }

  /** On a null-free sequence and under a total preorder, the scan's
      minimum compares at most equal to every element, and strictly less
      than every element before it: ties resolve to the earliest. */
  lemma {:induction false} MinIndexIsLeast<T>(s: seq<T>, cmp: (T, T) -> int, isNull: T -> bool)
    requires |s| > 0 && TotalPreorder(cmp, s) && NoNulls(s, isNull)
    ensures forall j :: 0 <= j < |s| ==> cmp(s[MinIndex(s, cmp, isNull)], s[j]) <= 0
    ensures forall j :: 0 <= j < MinIndex(s, cmp, isNull) ==> cmp(s[MinIndex(s, cmp, isNull)], s[j]) < 0
  {
    if |s| > 1 {
      var n := |s| - 1;
      var t := s[..n];
      PrefixProperties(s, n, cmp, isNull);
      MinIndexIsLeast(t, cmp, isNull);
      var m := MinIndex(t, cmp, isNull);
      assert s[m] == t[m];
      if cmp(s[n], s[m]) < 0 {
        forall j | 0 <= j < |s|
          ensures cmp(s[n], s[j]) <= 0 && (j < n ==> cmp(s[n], s[j]) < 0)
        {
          if j < n {
            assert t[j] == s[j];
          }
        }
      } else {
        forall j | 0 <= j < |s|
          ensures cmp(s[m], s[j]) <= 0
        {
          if j < n {
            assert t[j] == s[j];
          }
        }
        forall j | 0 <= j < m
          ensures cmp(s[m], s[j]) < 0
        {
          assert t[j] == s[j];
        }
      }
    }
  }

  /** The scan's maximum compares at least equal to every element, and
      strictly greater than every element before it. */
  lemma {:induction false} MaxIndexIsGreatest<T>(s: seq<T>, cmp: (T, T) -> int, isNull: T -> bool)
    requires |s| > 0 && TotalPreorder(cmp, s) && NoNulls(s, isNull)
    ensures forall j :: 0 <= j < |s| ==> cmp(s[MaxIndex(s, cmp, isNull)], s[j]) >= 0
    ensures forall j :: 0 <= j < MaxIndex(s, cmp, isNull) ==> cmp(s[MaxIndex(s, cmp, isNull)], s[j]) > 0
  {
    if |s| > 1 {
      var n := |s| - 1;
      var t := s[..n];
      PrefixProperties(s, n, cmp, isNull);
      MaxIndexIsGreatest(t, cmp, isNull);
      var m := MaxIndex(t, cmp, isNull);
      assert s[m] == t[m];
      if cmp(s[n], s[m]) > 0 {
        forall j | 0 <= j < |s|
          ensures cmp(s[n], s[j]) >= 0 && (j < n ==> cmp(s[n], s[j]) > 0)
        {
          if j < n {
            assert t[j] == s[j];
          }
        }
      } else {
        forall j | 0 <= j < |s|
          ensures cmp(s[m], s[j]) >= 0
        {
          if j < n {
            assert t[j] == s[j];
          }
        }
        forall j | 0 <= j < m
          ensures cmp(s[m], s[j]) > 0
        {
          assert t[j] == s[j];
        }
      }
    }
  }

  /** An inverse comparer swaps the minimum and the maximum. */
  lemma {:induction false} ReverseSwaps<T>(s: seq<T>, cmp: (T, T) -> int, isNull: T -> bool)
    requires |s| > 0 && Antisymmetric(cmp, s)
    ensures MinIndex(s, Reverse(cmp), isNull) == MaxIndex(s, cmp, isNull)
    ensures MaxIndex(s, Reverse(cmp), isNull) == MinIndex(s, cmp, isNull)
    ensures Extremes(s, Reverse(cmp), isNull) == (Extremes(s, cmp, isNull).1, Extremes(s, cmp, isNull).0)
  {
    if |s| > 1 {
      var n := |s| - 1;
      var t := s[..n];
      ReverseSwaps(t, cmp, isNull);
    }
  }

  /** On a null-free sequence the null test never fires, so the scan with
      it and the scan without it agree. */
  lemma {:induction false} NullTestIdle<T>(s: seq<T>, cmp: (T, T) -> int, isNull: T -> bool)
    requires |s| > 0 && NoNulls(s, isNull)
    ensures MinIndex(s, cmp, isNull) == MinIndex(s, cmp, NeverNull)
    ensures MaxIndex(s, cmp, isNull) == MaxIndex(s, cmp, NeverNull)
  {
    if |s| > 1 {
      var n := |s| - 1;
      PrefixProperties(s, n, cmp, isNull);
      NullTestIdle(s[..n], cmp, isNull);
    }
  }

  /** Scanning elements by key makes the same choices as scanning the keys,
      as long as neither elements nor keys are `null`. */
  lemma {:induction false} ByKeyMatchesKeys<A, K>(s: seq<A>, key: A -> K, cmp: (K, K) -> int,
                                                  isNull: A -> bool, isNullKey: K -> bool)
    requires |s| > 0 && NoNulls(s, isNull) && NoNulls(Map(key, s), isNullKey)
    ensures MinIndex(s, ByKey(key, cmp), isNull) == MinIndex(Map(key, s), cmp, isNullKey)
    ensures MaxIndex(s, ByKey(key, cmp), isNull) == MaxIndex(Map(key, s), cmp, isNullKey)
  {
    if |s| > 1 {
      var n := |s| - 1;
      var keys := Map(key, s);
      assert Map(key, s[..n]) == keys[..n];
      PrefixProperties(s, n, ByKey(key, cmp), isNull);
      PrefixProperties(keys, n, cmp, isNullKey);
      ByKeyMatchesKeys(s[..n], key, cmp, isNull, isNullKey);
    }
  }

  /** `MinMaxSpan<T>`: the span scan, which has no `null` test. */
  method MinMaxSpan<T>(cmp: (T, T) -> int, span: seq<T>) returns (r: Result<(T, T)>)
    ensures |span| == 0 ==> r == Failure(InvalidOperation)
    ensures |span| > 0 ==> r == Success(Extremes(span, cmp, NeverNull))
  {
    if |span| == 0 {
      return Failure(InvalidOperation);
    }
    var minValue := span[0];
    var maxValue := minValue;
    for index := 1 to |span|
      invariant minValue == span[MinIndex(span[..index], cmp, NeverNull)]
      invariant maxValue == span[MaxIndex(span[..index], cmp, NeverNull)]
    {
      var current := span[index];
      assert span[..index + 1][..index] == span[..index];
      if cmp(current, minValue) < 0 {
        minValue := current;
      }
      if cmp(current, maxValue) > 0 {
        maxValue := current;
      }
    }
    assert span[..|span|] == span;
    return Success((minValue, maxValue));
  }

  /** The span scan with the `null` test the enumerator path has. */
  method MinMaxSpanCorrected<T>(cmp: (T, T) -> int, isNull: T -> bool, span: seq<T>) returns (r: Result<(T, T)>)
    ensures |span| == 0 ==> r == Failure(InvalidOperation)
    ensures |span| > 0 ==> r == Success(Extremes(span, cmp, isNull))
  {
    if |span| == 0 {
      return Failure(InvalidOperation);
    }
    var minValue := span[0];
    var maxValue := minValue;
    for index := 1 to |span|
      invariant minValue == span[MinIndex(span[..index], cmp, isNull)]
      invariant maxValue == span[MaxIndex(span[..index], cmp, isNull)]
    {
      var current := span[index];
      assert span[..index + 1][..index] == span[..index];
      if isNull(minValue) || cmp(current, minValue) < 0 {
        minValue := current;
      }
      if isNull(maxValue) || cmp(current, maxValue) > 0 {
        maxValue := current;
      }
    }
    assert span[..|span|] == span;
    return Success((minValue, maxValue));
  }

  /** `MinMaxSelectedSpan`: the span scan comparing keys; it returns
      elements. */
  method MinMaxSelectedSpan<T, K>(keySelector: T -> K, cmp: (K, K) -> int, isNull: T -> bool, span: seq<T>)
    returns (r: Result<(T, T)>)
    ensures |span| == 0 ==> r == Failure(InvalidOperation)
    ensures |span| > 0 ==> r == Success(Extremes(span, ByKey(keySelector, cmp), isNull))
  {
    if |span| == 0 {
      return Failure(InvalidOperation);
    }
    var minValue := span[0];
    var maxValue := minValue;
    for index := 1 to |span|
      invariant minValue == span[MinIndex(span[..index], ByKey(keySelector, cmp), isNull)]
      invariant maxValue == span[MaxIndex(span[..index], ByKey(keySelector, cmp), isNull)]
    {
      var current := span[index];
      var transformedCurrent := keySelector(current);
      assert span[..index + 1][..index] == span[..index];
      if isNull(minValue) || cmp(transformedCurrent, keySelector(minValue)) < 0 {
        minValue := current;
      }
      if isNull(maxValue) || cmp(transformedCurrent, keySelector(maxValue)) > 0 {
        maxValue := current;
      }
    }
    assert span[..|span|] == span;
    return Success((minValue, maxValue));
  }

  /** `MinMaxSpan<TSource, TResult>`: the span scan over selected values. */
  method MinMaxSelectorSpan<T, R>(selector: T -> R, cmp: (R, R) -> int, isNull: R -> bool, span: seq<T>)
    returns (r: Result<(R, R)>)
    ensures |span| == 0 ==> r == Failure(InvalidOperation)
    ensures |span| > 0 ==> r == Success(Extremes(Map(selector, span), cmp, isNull))
  {
    if |span| == 0 {
      return Failure(InvalidOperation);
    }
    ghost var values := Map(selector, span);
    var minValue := selector(span[0]);
    var maxValue := minValue;
    for index := 1 to |span|
      invariant minValue == values[MinIndex(values[..index], cmp, isNull)]
      invariant maxValue == values[MaxIndex(values[..index], cmp, isNull)]
    {
      var current := selector(span[index]);
      assert values[..index + 1][..index] == values[..index];
      if isNull(minValue) || cmp(current, minValue) < 0 {
        minValue := current;
      }
      if isNull(maxValue) || cmp(current, maxValue) > 0 {
        maxValue := current;
      }
    }
    assert values[..|span|] == values;
    return Success((minValue, maxValue));
  }

  /** `MinMax(source, comparer)`: a `null` source throws, a `null` comparer
      means the default one; arrays and lists are scanned as spans (no
      `null` test), other sequences through their enumerator (with it). */
  method MinMaxUsing<T>(source: Source<T>, comparer: Option<(T, T) -> int>,
                        defaultComparer: (T, T) -> int, isNull: T -> bool)
    returns (r: Result<(T, T)>)
    ensures source.Null? ==> r == Failure(ArgumentNull)
    ensures !source.Null? && |source.items| == 0 ==> r == Failure(InvalidOperation)
    ensures source.Lazy? && |source.items| > 0 ==>
      r == Success(Extremes(source.items, OrDefault(comparer, defaultComparer), isNull))
    ensures (source.Array? || source.List?) && |source.items| > 0 ==>
      r == Success(Extremes(source.items, OrDefault(comparer, defaultComparer), NeverNull))
  {
    if source.Null? {
      return Failure(ArgumentNull);
    }
    var cmp := OrDefault(comparer, defaultComparer);
    var span := TryGetSpan(source);
    if span.Some? {
      r := MinMaxSpan(cmp, span.value);
      return;
    }
    var items := source.items;
    if |items| == 0 {
      return Failure(InvalidOperation);
    }
    var minValue := items[0];
    var maxValue := minValue;
    var position := 1;
    while position < |items|
      invariant 1 <= position <= |items|
      invariant minValue == items[MinIndex(items[..position], cmp, isNull)]
      invariant maxValue == items[MaxIndex(items[..position], cmp, isNull)]
    {
      var current := items[position];
      assert items[..position + 1][..position] == items[..position];
      if isNull(minValue) || cmp(current, minValue) < 0 {
        minValue := current;
      }
      if isNull(maxValue) || cmp(current, maxValue) > 0 {
        maxValue := current;
      }
      position := position + 1;
    }
    assert items[..|items|] == items;
    return Success((minValue, maxValue));
  }

  /** `MinMax(source)`: the default comparer. */
  method MinMax<T>(source: Source<T>, defaultComparer: (T, T) -> int, isNull: T -> bool)
    returns (r: Result<(T, T)>)
    ensures source.Null? ==> r == Failure(ArgumentNull)
    ensures !source.Null? && |source.items| == 0 ==> r == Failure(InvalidOperation)
    ensures source.Lazy? && |source.items| > 0 ==>
      r == Success(Extremes(source.items, defaultComparer, isNull))
    ensures (source.Array? || source.List?) && |source.items| > 0 ==>
      r == Success(Extremes(source.items, defaultComparer, NeverNull))
  {
    if source.Null? {
      return Failure(ArgumentNull);
    }
    r := MinMaxUsing(source, Some(defaultComparer), defaultComparer, isNull);
  }

  /** `MinMax(source, selector, comparer)`: the extremes of the selected
      values; both paths test for `null`. */
  method MinMaxOfUsing<T, R>(source: Source<T>, selector: Option<T -> R>, comparer: Option<(R, R) -> int>,
                             defaultComparer: (R, R) -> int, isNull: R -> bool)
    returns (r: Result<(R, R)>)
    ensures source.Null? || selector.None? ==> r == Failure(ArgumentNull)
    ensures !source.Null? && selector.Some? && |source.items| == 0 ==> r == Failure(InvalidOperation)
    ensures !source.Null? && selector.Some? && |source.items| > 0 ==>
      r == Success(Extremes(Map(selector.value, source.items), OrDefault(comparer, defaultComparer), isNull))
  {
    if source.Null? || selector.None? {
      return Failure(ArgumentNull);
    }
    var select := selector.value;
    var cmp := OrDefault(comparer, defaultComparer);
    var span := TryGetSpan(source);
    if span.Some? {
      r := MinMaxSelectorSpan(select, cmp, isNull, span.value);
      return;
    }
    var items := source.items;
    if |items| == 0 {
      return Failure(InvalidOperation);
    }
    ghost var values := Map(select, items);
    var minValue := select(items[0]);
    var maxValue := minValue;
    var position := 1;
    while position < |items|
      invariant 1 <= position <= |items|
      invariant minValue == values[MinIndex(values[..position], cmp, isNull)]
      invariant maxValue == values[MaxIndex(values[..position], cmp, isNull)]
    {
      var current := select(items[position]);
      assert values[..position + 1][..position] == values[..position];
      if isNull(minValue) || cmp(current, minValue) < 0 {
        minValue := current;
      }
      if isNull(maxValue) || cmp(current, maxValue) > 0 {
        maxValue := current;
      }
      position := position + 1;
    }
    assert values[..|items|] == values;
    return Success((minValue, maxValue));
  }

  /** `MinMax(source, selector)`: the default comparer. */
  method MinMaxOf<T, R>(source: Source<T>, selector: Option<T -> R>, defaultComparer: (R, R) -> int,
                        isNull: R -> bool)
    returns (r: Result<(R, R)>)
    ensures source.Null? || selector.None? ==> r == Failure(ArgumentNull)
    ensures !source.Null? && selector.Some? && |source.items| == 0 ==> r == Failure(InvalidOperation)
    ensures !source.Null? && selector.Some? && |source.items| > 0 ==>
      r == Success(Extremes(Map(selector.value, source.items), defaultComparer, isNull))
  {
    if source.Null? || selector.None? {
      return Failure(ArgumentNull);
    }
    r := MinMaxOfUsing(source, selector, Some(defaultComparer), defaultComparer, isNull);
  }

  /** `MinMaxBy(source, keySelector, comparer)`: the elements whose keys are
      extremal; both paths test the running element for `null`. */
  method MinMaxByUsing<T, K>(source: Source<T>, keySelector: Option<T -> K>, comparer: Option<(K, K) -> int>,
                             defaultComparer: (K, K) -> int, isNull: T -> bool)
    returns (r: Result<(T, T)>)
    ensures source.Null? || keySelector.None? ==> r == Failure(ArgumentNull)
    ensures !source.Null? && keySelector.Some? && |source.items| == 0 ==> r == Failure(InvalidOperation)
    ensures !source.Null? && keySelector.Some? && |source.items| > 0 ==>
      r == Success(Extremes(source.items, ByKey(keySelector.value, OrDefault(comparer, defaultComparer)), isNull))
  {
    if source.Null? || keySelector.None? {
      return Failure(ArgumentNull);
    }
    var key := keySelector.value;
    var cmp := OrDefault(comparer, defaultComparer);
    var span := TryGetSpan(source);
    if span.Some? {
      r := MinMaxSelectedSpan(key, cmp, isNull, span.value);
      return;
    }
    var items := source.items;
    if |items| == 0 {
      return Failure(InvalidOperation);
    }
    var minValue := items[0];
    var maxValue := minValue;
    var position := 1;
    while position < |items|
      invariant 1 <= position <= |items|
      invariant minValue == items[MinIndex(items[..position], ByKey(key, cmp), isNull)]
      invariant maxValue == items[MaxIndex(items[..position], ByKey(key, cmp), isNull)]
    {
      var current := items[position];
      var transformedCurrent := key(current);
      assert items[..position + 1][..position] == items[..position];
      if isNull(minValue) || cmp(transformedCurrent, key(minValue)) < 0 {
        minValue := current;
      }
      if isNull(maxValue) || cmp(transformedCurrent, key(maxValue)) > 0 {
        maxValue := current;
      }
      position := position + 1;
    }
    assert items[..|items|] == items;
    return Success((minValue, maxValue));
  }

  /** `MinMaxBy(source, keySelector)`: the default comparer. */
  method MinMaxBy<T, K>(source: Source<T>, keySelector: Option<T -> K>, defaultComparer: (K, K) -> int,
                        isNull: T -> bool)
    returns (r: Result<(T, T)>)
    ensures source.Null? || keySelector.None? ==> r == Failure(ArgumentNull)
    ensures !source.Null? && keySelector.Some? && |source.items| == 0 ==> r == Failure(InvalidOperation)
    ensures !source.Null? && keySelector.Some? && |source.items| > 0 ==>
      r == Success(Extremes(source.items, ByKey(keySelector.value, defaultComparer), isNull))
  {
    if source.Null? || keySelector.None? {
      return Failure(ArgumentNull);
    }
    r := MinMaxByUsing(source, keySelector, Some(defaultComparer), defaultComparer, isNull);
  }

  /** `null` sorts first, then the integers in order: `Comparer.Default`
      for a reference type wrapping an `int`. */
  function NullFirst(a: Option<int>, b: Option<int>): int
  {
    if a.None? && b.None? then 0
    else if a.None? then -1
    else if b.None? then 1
    else if a.value < b.value then -1
    else if a.value > b.value then 1
    else 0
  }

  function IsNone(a: Option<int>): bool
  {
    a.None?
  }

  /** With a `null` first and the default comparer, an array reports `null`
      as its minimum, while the same elements read through an enumerator
      report 1: the enumerator path replaces a `null` running value. */
  lemma SpanPathDisagreesOnNull()
    ensures Extremes([None, Some(1)], NullFirst, NeverNull) == (None, Some(1))
    ensures Extremes([None, Some(1)], NullFirst, IsNone) == (Some(1), Some(1))
  {
    assert [None, Some(1)][..1] == [None];
  }

  /** `Except`: the elements not equal to `item`, in their order. */
  function Except<T(==)>(source: Source<T>, item: T): (r: Result<seq<T>>)
    ensures source.Null? <==> r.Failure?
    ensures r.Failure? ==> r.error == ArgumentNull
    ensures r.Success? ==> item !in r.value
    ensures r.Success? ==> forall x :: x in r.value ==> x in source.items
    ensures r.Success? ==> forall x :: x in source.items && x != item ==>
                             multiset(r.value)[x] == multiset(source.items)[x]
  {
    if source.Null? then Failure(ArgumentNull)
    else Success(Without(source.items, item))
  }

  /** The elements of `s` other than `item`, in order. */
  function Without<T(==)>(s: seq<T>, item: T): (r: seq<T>)
    ensures item !in r
    ensures forall x :: x in r ==> x in s
    ensures forall x :: x in s && x != item ==> multiset(r)[x] == multiset(s)[x]
  {
    if |s| == 0 then []
    else
      assert s == [s[0]] + s[1..];
      (if s[0] == item then [] else [s[0]]) + Without(s[1..], item)
  }

  /** Filtering a concatenation filters each part: the order is kept. */
  lemma {:induction false} WithoutAppend<T>(a: seq<T>, b: seq<T>, item: T)
    ensures Without(a + b, item) == Without(a, item) + Without(b, item)
  {
    if |a| > 0 {
      assert (a + b)[1..] == a[1..] + b;
      WithoutAppend(a[1..], b, item);
    } else {
      assert a + b == b;
    }
  }

  /** Nothing to remove, nothing removed. */
  lemma {:induction false} WithoutAbsent<T>(s: seq<T>, item: T)
    requires item !in s
    ensures Without(s, item) == s
  {
    if |s| > 0 {
      assert item !in s[1..];
      WithoutAbsent(s[1..], item);
    }
  }

  /** Removing twice removes nothing more. */
  lemma WithoutIdempotent<T>(s: seq<T>, item: T)
    ensures Without(Without(s, item), item) == Without(s, item)
  {
    WithoutAbsent(Without(s, item), item);
  }

  /** Exactly the occurrences of `item` are dropped. */
  lemma {:induction false} WithoutLength<T>(s: seq<T>, item: T)
    ensures |Without(s, item)| == |s| - multiset(s)[item]
  {
    if |s| > 0 {
      assert s == [s[0]] + s[1..];
      WithoutLength(s[1..], item);
    }
  }
}
