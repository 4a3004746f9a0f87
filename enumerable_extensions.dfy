/** The sequence and array helpers of `IEnumerableExtensions`. Sequences are
    modelled as Dafny sequences, with the lazy `Concat` results held in full.
    Arrays are kept where identity matters (`DeepCopy`, `ShallowCopy`,
    `IsSameByReference`) and where the source allocates them (`Split`).
    Actions are modelled as in `PipeIt`: an `Action<T>` is the function from
    its argument to the event the call records, and an operation returns the
    trace of events. */
module EnumerableExtensions {
  import opened Values
  import opened Filtering
  import opened SplitLayout

  /** `array.ForEach(action)`: calls `action` on each element, in order. */
  method ForEach<T, E>(a: seq<T>, action: T -> E) returns (trace: seq<E>)
    ensures |trace| == |a|
    ensures forall i :: 0 <= i < |a| ==> trace[i] == action(a[i])
  {
    trace := [];
    for i := 0 to |a|
      invariant |trace| == i
      invariant forall k :: 0 <= k < i ==> trace[k] == action(a[k])
    {
      trace := trace + [action(a[i])];
    }
  }

  /** `array.DeepCopy()`: a new array holding the same elements. */
  method DeepCopy<T(0)>(a: array<T>) returns (clone: array<T>)
    ensures fresh(clone)
    ensures clone.Length == a.Length && clone[..] == a[..]
  {
    var length := a.Length;
    clone := new T[length];
    for i := 0 to length
      invariant clone[..i] == a[..i]
    {
      clone[i] := a[i];
    }
  }

  /** `array.ShallowCopy()`: the array itself. */
  function ShallowCopy<T>(a: array<T>): (copy: array<T>)
    ensures copy == a
  {
    a
  }

  /** `array.IsSameByReference(other)`: `ReferenceEquals`. */
  function IsSameByReference<T>(a: array<T>, b: array<T>): (same: bool)
    ensures same <==> a == b
  {
    a == b
  }

  /** A shallow copy is the same object as the original. */
  lemma ShallowCopyIsSameByReference<T>(a: array<T>)
    ensures IsSameByReference(ShallowCopy(a), a)
    ensures forall b: array<T> :: IsSameByReference(a, b) <==> b == a
  {
  }

  /** The relation `IsSameByValue` decides: equal lengths, and every element
      of `a` occurs in `b` under native equality. */
  predicate SameByValue<T(==)>(a: seq<T>, b: seq<T>)
  {
    |a| == |b| && forall i :: 0 <= i < |a| ==> a[i] in b
  }

  /** `array.IsSameByValue(other, compareFunction)`. The comparison function
      is not consulted: membership uses native equality (`Contains`). */
  method IsSameByValue<T(==)>(a: seq<T>, b: seq<T>, compareFunction: (T, T) -> bool) returns (same: bool)
    ensures same <==> SameByValue(a, b)
    ensures same <==> |a| == |b| && forall x :: x in a ==> x in b
  {
    if |a| != |b| {
      return false;
    }
    for i := 0 to |a|
      invariant forall k :: 0 <= k < i ==> a[k] in b
    {
      if a[i] in b {
        continue;
      }
      return false;
    }
    return true;
  }

  /** The relation `IsSameByValueAndIndex` decides: equal lengths, and the
      comparison holds position by position. */
  predicate SameByValueAndIndex<T>(a: seq<T>, b: seq<T>, compare: (T, T) -> bool)
  {
    |a| == |b| && forall i :: 0 <= i < |a| ==> compare(a[i], b[i])
  }

  /** `array.IsSameByValueAndIndex(other, compareFunction)`. */
  method IsSameByValueAndIndex<T>(a: seq<T>, b: seq<T>, compareFunction: (T, T) -> bool) returns (same: bool)
    ensures same <==> SameByValueAndIndex(a, b, compareFunction)
  {
    if |a| != |b| {
      return false;
    }
    for i := 0 to |a|
      invariant forall k :: 0 <= k < i ==> compareFunction(a[k], b[k])
    {
      if compareFunction(a[i], b[i]) {
        continue;
      }
      return false;
    }
    return true;
  }

  /** Under native equality the positional comparison is sequence equality. */
  lemma SameByValueAndIndexIsEquality<T>(a: seq<T>, b: seq<T>)
    ensures SameByValueAndIndex(a, b, (x, y) => x == y) <==> a == b
  {
    if SameByValueAndIndex(a, b, (x, y) => x == y) {
      assert forall i :: 0 <= i < |a| ==> a[i] == b[i];
    }
  }

  /** A permutation is the same by value, but not necessarily by index. */
  lemma PermutationIsSameByValue<T>(a: seq<T>, b: seq<T>)
    requires multiset(a) == multiset(b)
    ensures SameByValue(a, b)
  {
    assert |a| == |multiset(a)| == |multiset(b)| == |b|;
    forall i | 0 <= i < |a|
      ensures a[i] in b
    {
      assert a[i] in multiset(a);
    }
  }

  /** `[1,2,3]` and `[3,2,1]` are the same by value and not by index. */
  lemma ValueVersusIndex()
    ensures SameByValue([1, 2, 3], [3, 2, 1])
    ensures !SameByValueAndIndex([1, 2, 3], [3, 2, 1], (x: int, y: int) => x == y)
  {
    PermutationIsSameByValue([1, 2, 3], [3, 2, 1]);
  }

  /** `SameByValue` is not symmetric, and does not compare element counts:
      `[1,1]` is the same by value as `[1,2]`, but not the other way round. */
  lemma SameByValueNotSymmetric()
    ensures SameByValue([1, 1], [1, 2])
    ensures !SameByValue([1, 2], [1, 1])
    ensures multiset([1, 1]) != multiset([1, 2])
  {
    assert [1, 2][1] !in [1, 1];
    assert multiset([1, 1])[1] == 2;
  }

  /** The native equality of C#'s `Contains` and `Equals`. */
  function NativeEquals<T(==)>(x: T, y: T): (equal: bool)
  {
    x == y
  }

  /** Some element of `b` matches `x` under `compare`. */
  predicate Matches<T>(compare: (T, T) -> bool, x: T, b: seq<T>)
  {
    exists j :: 0 <= j < |b| && compare(x, b[j])
  }

  /** The relation `IsSameByValue` evidently means to decide: equal lengths,
      and every element of `a` matches some element of `b` under the given
      comparison. */
  predicate SameByValueUnder<T>(a: seq<T>, b: seq<T>, compare: (T, T) -> bool)
  {
    |a| == |b| && forall i :: 0 <= i < |a| ==> Matches(compare, a[i], b)
  }

  /** `IsSameByValue` with the comparison function consulted, as its
      signature and its callers expect. */
  method IsSameByValueUsing<T>(a: seq<T>, b: seq<T>, compareFunction: (T, T) -> bool) returns (same: bool)
    ensures same <==> SameByValueUnder(a, b, compareFunction)
  {
    if |a| != |b| {
      return false;
    }
    for i := 0 to |a|
      invariant forall k :: 0 <= k < i ==> Matches(compareFunction, a[k], b)
    {
      var found := false;
      for j := 0 to |b|
        invariant found <==> Matches(compareFunction, a[i], b[..j])
      {
        assert b[..j + 1][..j] == b[..j] && b[..j + 1][j] == b[j];
        if compareFunction(a[i], b[j]) {
          found := true;
        }
      }
      assert b[..|b|] == b;
      if !found {
        return false;
      }
    }
    return true;
  }

  /** With native equality as the comparison the corrected relation is the
      one the code decides. */
  lemma SameByValueUnderEquality<T>(a: seq<T>, b: seq<T>)
    ensures SameByValueUnder(a, b, NativeEquals) <==> SameByValue(a, b)
  {
    forall i | 0 <= i < |a|
      ensures Matches(NativeEquals, a[i], b) <==> a[i] in b
    {
      if a[i] in b {
        var j :| 0 <= j < |b| && b[j] == a[i];
        assert NativeEquals(a[i], b[j]);
      }
    }
  }

  /** The code ignores the comparison: under a comparison that matches any
      two elements, `[1]` and `[2]` are the same by value, yet the code
      answers that they are not. */
  lemma CompareFunctionIgnored()
    ensures SameByValueUnder([1], [2], (x: int, y: int) => true)
    ensures !SameByValue([1], [2])
  {
    assert [1][0] !in [2];
    assert Matches((x: int, y: int) => true, 1, [2]) by {
      assert [2][0] == 2;
    }
  }

  /** `array.AddElement(obj)`: `array` followed by `obj`. */
  function AddElement<T>(a: seq<T>, obj: T): (r: seq<T>)
    ensures |r| == |a| + 1 && r[..|a|] == a && r[|a|] == obj
  {
    a + [obj]
  }

  /** `array.AddElements(objs)`: `array` followed by `objs`. */
  function AddElements<T>(a: seq<T>, objs: seq<T>): (r: seq<T>)
    ensures |r| == |a| + |objs| && r[..|a|] == a && r[|a|..] == objs
  {
    a + objs
  }

  /** Appending leaves the original elements first, in order, and puts the
      new ones after them; adding one element is adding a one-element array. */
  lemma AddElementsAppend<T>(a: seq<T>, objs: seq<T>, obj: T)
    ensures |AddElements(a, objs)| == |a| + |objs|
    ensures AddElements(a, objs)[..|a|] == a && AddElements(a, objs)[|a|..] == objs
    ensures AddElement(a, obj) == AddElements(a, [obj])
    ensures AddElements(AddElements(a, objs), [obj]) == AddElements(a, AddElement(objs, obj))
  {
  }

  /** The criterion of `RemoveElement`: not equal to `obj`. */
  function NotEqualTo<T(==)>(obj: T): (keep: T -> bool)
  {
    x => x != obj
  }

  /** The criterion of `RemoveElements`: not one of `objs`. */
  function NotIn<T(==)>(objs: seq<T>): (keep: T -> bool)
  {
    x => x !in objs
  }

  /** `array.RemoveNulls()`: the non-null elements, in their order. */
  method RemoveNulls<T>(a: seq<Nullable<T>>) returns (result: seq<Nullable<T>>)
    ensures result == Filter(a, IsNonNull)
    ensures forall x :: x in result <==> x in a && x != Null
  {
    var temp: seq<Nullable<T>> := [];
    for i := 0 to |a|
      invariant temp == Filter(a[..i], IsNonNull)
    {
      assert a[..i + 1][..i] == a[..i];
      if a[i] != Null {
        temp := AddElement(temp, a[i]);
      }
    }
    assert a[..|a|] == a;
    result := temp;
    forall x
      ensures x in result <==> x in a && x != Null
    {
      FilterMembers(a, IsNonNull, x);
    }
  }

  /** Removing nulls twice is removing them once. */
  lemma RemoveNullsIdempotent<T>(a: seq<Nullable<T>>)
    ensures Filter(Filter(a, IsNonNull), IsNonNull) == Filter(a, IsNonNull)
  {
    FilterIdempotent(a, IsNonNull);
  }

  /** On a sequence without nulls (every sequence of a value type),
      `RemoveNulls` changes nothing. */
  lemma RemoveNullsWithoutNulls<T>(a: seq<Nullable<T>>)
    requires forall i :: 0 <= i < |a| ==> a[i] != Null
    ensures Filter(a, IsNonNull) == a
  {
    FilterKeepsAll(a, IsNonNull);
  }

  /** `array.RemoveElement(obj)`: the elements not equal to `obj`, in their
      order. Each element's `Equals` is called: for a reference type that
      fails on a null element, so none may be null; for `Nullable<S>` a null
      element equals exactly a null `obj`. `obj` itself may be null. */
  method RemoveElement<T(==)>(a: seq<Nullable<T>>, obj: Nullable<T>, kind: TypeKind<T>) returns (result: seq<Nullable<T>>)
    requires kind.ReferenceType? ==> forall i :: 0 <= i < |a| ==> a[i] != Null
    ensures result == Filter(a, NotEqualTo(obj))
    ensures forall x :: x in result <==> x in a && x != obj
  {
    var temp: seq<Nullable<T>> := [];
    for i := 0 to |a|
      invariant temp == Filter(a[..i], NotEqualTo(obj))
    {
      assert a[..i + 1][..i] == a[..i];
      if a[i] != obj {
        temp := AddElement(temp, a[i]);
      }
    }
    assert a[..|a|] == a;
    result := temp;
    forall x
      ensures x in result <==> x in a && x != obj
    {
      FilterMembers(a, NotEqualTo(obj), x);
    }
  }

  /** For `Nullable<S>` elements, removing `null` removes exactly what
      `RemoveNulls` removes. */
  lemma {:induction false} RemoveNullElementIsRemoveNulls<T>(a: seq<Nullable<T>>)
    ensures Filter(a, NotEqualTo(Null)) == Filter(a, IsNonNull)
  {
    if a != [] {
      RemoveNullElementIsRemoveNulls(a[..|a| - 1]);
    }
  }

  /** `array.RemoveElements(objs)`: the elements that are not in `objs`
      (native equality, as `Contains` uses), in their order. */
  method RemoveElements<T(==)>(a: seq<T>, objs: seq<T>) returns (result: seq<T>)
    ensures result == Filter(a, NotIn(objs))
    ensures forall x :: x in result <==> x in a && x !in objs
  {
    var temp: seq<T> := [];
    for i := 0 to |a|
      invariant temp == Filter(a[..i], NotIn(objs))
    {
      assert a[..i + 1][..i] == a[..i];
      if a[i] !in objs {
        temp := AddElement(temp, a[i]);
      }
    }
    assert a[..|a|] == a;
    result := temp;
    forall x
      ensures x in result <==> x in a && x !in objs
    {
      FilterMembers(a, NotIn(objs), x);
    }
  }

  /** Removing `obj` from `a` with `obj` added is removing it from `a`, and
      removing it again changes nothing. */
  lemma RemoveElementAfterAdd<T>(a: seq<T>, obj: T)
    ensures Filter(AddElement(a, obj), NotEqualTo(obj)) == Filter(a, NotEqualTo(obj))
    ensures Filter(Filter(a, NotEqualTo(obj)), NotEqualTo(obj)) == Filter(a, NotEqualTo(obj))
  {
    FilterAppend(a, [obj], NotEqualTo(obj));
    assert Filter([obj], NotEqualTo(obj)) == Filter([], NotEqualTo(obj)) + [];
    FilterIdempotent(a, NotEqualTo(obj));
  }

  /** Removing the elements of `xs + ys` is removing those of `xs`, then
      those of `ys`. */
  lemma RemoveElementsInTurn<T>(a: seq<T>, xs: seq<T>, ys: seq<T>)
    ensures Filter(a, NotIn(xs + ys)) == Filter(Filter(a, NotIn(xs)), NotIn(ys))
  {
    if a != [] {
      var init, last := a[..|a| - 1], a[|a| - 1];
      RemoveElementsInTurn(init, xs, ys);
      FilterAppend(Filter(init, NotIn(xs)), if last !in xs then [last] else [], NotIn(ys));
      if last !in xs {
        assert [last][..0] == [];
      }
    }
  }

  /** `array.ForEachWithIndex(action)`: calls `action(a[i], i)` for every
      index, in increasing order. */
  method ForEachWithIndex<T, E>(a: seq<T>, action: (T, int) -> E) returns (trace: seq<E>)
    ensures |trace| == |a|
    ensures forall i :: 0 <= i < |a| ==> trace[i] == action(a[i], i)
  {
    trace := [];
    var arrLength := |a|;
    for i := 0 to arrLength
      invariant |trace| == i
      invariant forall k :: 0 <= k < i ==> trace[k] == action(a[k], k)
    {
      trace := trace + [action(a[i], i)];
    }
  }

  /** The first loop of `Split`: a jagged array of `count` new rows of
      `count` cells, each holding `dflt`. */
  method NewRows<T>(count: nat, dflt: T) returns (grid: array<array?<T>>)
    ensures fresh(grid) && grid.Length == count
    ensures forall r :: 0 <= r < count ==>
              grid[r] != null && fresh(grid[r]) && grid[r][..] == seq(count, _ => dflt)
    ensures forall r, r' :: 0 <= r < r' < count ==> grid[r] != grid[r']
  {
    grid := new array?<T>[count];
    for x := 0 to count
      invariant forall r :: 0 <= r < x ==>
                  grid[r] != null && fresh(grid[r]) && grid[r][..] == seq(count, _ => dflt)
      invariant forall r, r' :: 0 <= r < r' < x ==> grid[r] != grid[r']
    {
      grid[x] := new T[count](_ => dflt);
    }
  }

  /** `array.Split(splitBy)`: a new `splitBy` x `splitBy` jagged array filled
      row by row as `SplitGrid` describes, with `default(T)` in the cells no
      element reaches. The C# code divides by zero when `splitBy` is zero
      and indexes out of bounds when there are more than `splitBy * splitBy`
      elements; both are excluded here. */
  method Split<T>(a: seq<Nullable<T>>, splitBy: int, kind: TypeKind<T>) returns (grid: array<array?<Nullable<T>>>)
    requires 0 < splitBy && |a| <= splitBy * splitBy
    ensures fresh(grid) && grid.Length == splitBy
    ensures forall r :: 0 <= r < splitBy ==>
              grid[r] != null && fresh(grid[r]) && grid[r][..] == SplitGrid(a, splitBy, Default(kind))[r]
    ensures forall r, r' :: 0 <= r < r' < splitBy ==> grid[r] != grid[r']
  {
    var dflt := Default(kind);
    grid := NewRows(splitBy, dflt);

    var n := |a|;
    var length := n - 1;
    var mod := TruncDiv(length, splitBy);
    ghost var w := RowWidth(n, splitBy);
    assert w == mod + 1;
    forall r | 0 <= r < splitBy
      ensures grid[r][..] == Row(a[..0], w, r, splitBy, dflt)
    {
    }
    var i, j := 0, 0;
    var e := 0;  // the enumerator's position
    while e < n
      invariant 0 <= e <= n
      invariant 0 <= i && 0 <= j && e == i * w + j
      invariant 0 < n ==> j < w
      invariant forall r :: 0 <= r < splitBy ==> grid[r] != null && fresh(grid[r]) && grid[r].Length == splitBy
      invariant forall r, r' :: 0 <= r < r' < splitBy ==> grid[r] != grid[r']
      invariant forall r :: 0 <= r < splitBy ==> grid[r][..] == Row(a[..e], w, r, splitBy, dflt)
    {
      RowInGrid(w, i, j, splitBy);
      grid[i][j] := a[e];
      forall r | 0 <= r < splitBy
        ensures grid[r][..] == Row(a[..e + 1], w, r, splitBy, dflt)
      {
        RowStep(a, w, e, i, j, r, splitBy, dflt);
      }
      if j == mod {
        MulDistributes(i, 1, w);
        i := i + 1;
        j := 0;
      } else {
        j := j + 1;
      }
      e := e + 1;
    }
    assert a[..e] == a;
  }

  /** `count.GenerateForLoop(action)`: calls `action` `count` times, and not
      at all when `count` is zero or negative. */
  method GenerateForLoop<E>(count: int, action: E) returns (trace: seq<E>)
    ensures |trace| == if count < 0 then 0 else count
    ensures forall k :: 0 <= k < |trace| ==> trace[k] == action
  {
    trace := [];
    var i := 0;
    while i < count
      invariant 0 <= i <= if count < 0 then 0 else count
      invariant |trace| == i
      invariant forall k :: 0 <= k < i ==> trace[k] == action
    {
      trace := trace + [action];
      i := i + 1;
    }
  }

  /** The copying scenario of the console demo: after `DeepCopy` and
      `ShallowCopy` of `[1..9]` and a write of 11 at index 2, the shallow copy
      sees the write and is the same object; the deep copy keeps 3 and is a
      different object. */
  method CopyScenario() returns (original: seq<int>, deep: seq<int>, shallow: seq<int>,
                                 shallowIsSame: bool, deepIsSame: bool)
    ensures original == [1, 2, 11, 4, 5, 6, 7, 8, 9]
    ensures deep == [1, 2, 3, 4, 5, 6, 7, 8, 9]
    ensures shallow == original
    ensures shallowIsSame && !deepIsSame
  {
    var numbers := new int[9](k => k + 1);
    var deepCopy := DeepCopy(numbers);
    var shallowCopy := ShallowCopy(numbers);
    numbers[2] := 11;
    original, deep, shallow := numbers[..], deepCopy[..], shallowCopy[..];
    shallowIsSame := IsSameByReference(numbers, shallowCopy);
    deepIsSame := IsSameByReference(numbers, deepCopy);
  }
}
