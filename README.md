# Pipe4Net in Dafny

A model of the Pipe4Net utility library (`Pipe4Net/PipeIt.cs`), with proofs of
what its operations do. The library has three parts:

- **`Option<T>`**: an immutable container with a `HasValue` flag and a
  payload. `From` and the implicit conversion treat `null` as absent.
  `None()` and `None(d)` are absent and carry `default(T)` or `d`. `Value`
  returns the payload and never fails. Enumerating an option yields the
  payload exactly when a value is present.
- **Pipe combinators**: `PipeWith`, `Pipe`, the `Option`-returning `Pipe`,
  and the `IfTrue(...).Else(...)` pair, which runs exactly one of its two
  actions.
- **`IEnumerableExtensions`**: array and sequence helpers. These are deep and
  shallow copy, reference and value comparison, order-preserving removal
  filters, appends, indexed iteration, the square `Split` layout, and a
  counted loop.

Modelling choices:

- A value of a C# type parameter is `Values.Nullable<T>` (`Null` or
  `NonNull(v)`). A value type's values are all `NonNull`, so `0` of `int`
  is a present value.
- `default(T)` is `Values.Default(kind)`, where `kind` says whether the type
  is a reference type, a `Nullable<S>` or another value type. The first two
  default to `null`, the last to a zero value.
- C#'s truncating integer `/` is `Values.TruncDiv`.
- `Action` callbacks are modelled by the event each call records. An
  operation that invokes actions returns the trace of those events in call
  order, so "called once", "called in order" and "exactly one arm runs" are
  statements about that trace.
- The loops of the source are methods with loop invariants:
  - `DeepCopy`;
  - `Split`;
  - the two comparisons;
  - the three removal filters, each building its result by repeated
    `AddElement`;
  - `ForEach`, `ForEachWithIndex` and `GenerateForLoop`.
- Each of those methods is proved against a specification. For the filters
  that is `Filtering.Filter`; for `Split` it is `SplitLayout.SplitGrid`. The
  lemmas beside these specifications state order preservation, element
  counts, idempotence, and where each element of the split lands.

Behaviour of the code that callers may not expect:

- `From(null)` is absent, because `HasValue` is `value != null`
  (`PipeIt.cs` line 28).
- There is no accessor that fails on an empty option: `Value` returns the
  payload (line 42).
- `Split` moves to the next row after `(n - 1) / splitBy + 1` elements
  (lines 325 and 331), with C#'s truncating `/`. The last row that gets
  elements may hold fewer, and the rows after it keep only `default(T)`.
  With no elements nothing is placed.
- `IsSameByValue` never calls its comparison function (see Findings).

Files: `values.dfy`, `option.dfy`, `pipe_it.dfy`, `filtering.dfy`,
`split_layout.dfy`, `enumerable_extensions.dfy`.

## Model

| member | source | states |
|---|---|---|
| Values.Default | Pipe4Net/PipeIt.cs:20 | `default(T)` is `null` exactly for reference types and `Nullable<S>`, and the zero value otherwise |
| Values.TruncDiv | Pipe4Net/PipeIt.cs:325 | C# `/`: the remainder is smaller than the divisor in magnitude and has the dividend's sign; agrees with Euclidean `/` on non-negative operands |
| Values.TruncDivOfMinusOne | Pipe4Net/PipeIt.cs:323-325 | for an empty sequence, `(0 - 1) / splitBy` is 0, or -1 when `splitBy` is 1 |
| Options.Option.Value | Pipe4Net/PipeIt.cs:40-42 | `Value` is the stored payload, with no precondition, so it is defined on an empty option too |
| Options.Option.Elements | Pipe4Net/PipeIt.cs:46-49 | enumeration yields at most one element; it is empty exactly when `HasValue` is false; its one element is `Value` |
| Options.OfValue | Pipe4Net/PipeIt.cs:26-30 | the one-argument constructor is present iff the value is not null and stores the value |
| Options.OfValueAndFlag | Pipe4Net/PipeIt.cs:32-36 | the two-argument constructor stores the given flag and value |
| Options.From | Pipe4Net/PipeIt.cs:18 | `HasValue` iff the value is not null, `Value` is the value, enumeration gives `[v]` or `[]` |
| Options.None | Pipe4Net/PipeIt.cs:20 | absent, `Value` is `default(T)`, enumeration is empty |
| Options.NoneWith | Pipe4Net/PipeIt.cs:22 | absent, `Value` is the given default, enumeration is empty |
| Options.Implicit | Pipe4Net/PipeIt.cs:44 | the implicit conversion gives the same flag and payload as `From` |
| Options.FromDefault | Pipe4Net/PipeIt.cs:20-28 | `From(default(T))` is present iff `T` is a non-nullable value type, and carries the same payload as `None()` |
| Options.PresentAndEmptyDiffer | Pipe4Net/PipeIt.cs:18-36 | a present `From(v)` and `None(v)` share the payload and differ in their flag |
| PipeIt.PipeWith | Pipe4Net/PipeIt.cs:62 | the action is called exactly once, with the piped object |
| PipeIt.Pipe | Pipe4Net/PipeIt.cs:72 | the same-type pipe returns `func` applied to the piped object |
| PipeIt.PipeOption | Pipe4Net/PipeIt.cs:82 | the `Option`-returning pipe returns `func` applied to the piped object |
| PipeIt.IfTrue | Pipe4Net/PipeIt.cs:90-95 | the action runs iff the condition holds; the returned branch records the condition |
| PipeIt.ElseBranch.Else | Pipe4Net/PipeIt.cs:111-114 | the action runs iff the recorded condition is false |
| PipeIt.IfTrueElseRunsOneArm | Pipe4Net/PipeIt.cs:90-114 | `c.IfTrue(a).Else(b)` runs exactly one arm: `a` when `c` holds, `b` otherwise |
| PipeIt.PipeIdentity | PipeItTests/Tests.cs:18-25 | piping into the identity returns the object |
| PipeIt.PipeAppend | PipeItTests/Tests.cs:28-36 | piping a string into "append `ending`" gives the string followed by `ending` |
| PipeIt.PipeComposition | Pipe4Net/PipeIt.cs:72 | two pipes in a row equal one pipe into the composed function |
| PipeIt.PipeOptionForwards | Pipe4Net/PipeIt.cs:82 | for every function `f`, `Pipe(x, f)` has the payload and the enumeration of `f(x)` |
| PipeIt.PipeOptionImplicit | Pipe4Net/PipeIt.cs:82 | piping into a function whose bare result is converted implicitly (line 44) gives an option present iff that result is not null, carrying it |
| Filtering.Filter | Pipe4Net/PipeIt.cs:264-271 | the result of keep-or-drop accumulation is no longer than the input and holds only kept elements |
| Filtering.FilterAppend | Pipe4Net/PipeIt.cs:283-290 | filtering a concatenation concatenates the filtered parts, so surviving elements keep their order |
| Filtering.FilterCount | Pipe4Net/PipeIt.cs:217-224 | each kept value occurs as often as in the input; each dropped value does not occur |
| Filtering.FilterMembers | Pipe4Net/PipeIt.cs:266-269 | a value is in the result iff it is in the input and is kept |
| Filtering.FilterIdempotent | Pipe4Net/PipeIt.cs:215-225 | filtering twice by the same criterion equals filtering once |
| Filtering.FilterKeepsAll | Pipe4Net/PipeIt.cs:219-222 | when every element is kept the result is the input |
| SplitLayout.RowWidth | Pipe4Net/PipeIt.cs:323-325 | for `n >= 1` the row width `(n - 1) / splitBy + 1` is between 1 and `splitBy`, and `splitBy` rows of it hold all `n` elements |
| SplitLayout.SplitGrid | Pipe4Net/PipeIt.cs:317-321 | the result has `splitBy` rows of `splitBy` cells |
| SplitLayout.PlacedStep | Pipe4Net/PipeIt.cs:330-337 | storing element `e` at the current `(i, j)` changes that cell only |
| SplitLayout.RowStep | Pipe4Net/PipeIt.cs:330 | storing element `e` at `(i, j)` updates one cell of row `i` and leaves every other row as it was |
| SplitLayout.SplitPlacement | Pipe4Net/PipeIt.cs:328-338 | element `k` lands at row `k / w`, column `k % w`, inside the grid |
| SplitLayout.SplitPadding | Pipe4Net/PipeIt.cs:317-321 | every cell that no element maps to holds `default(T)` |
| SplitLayout.SplitSevenByThree | Pipe4Net/PipeIt.cs:315-341 | `[1..7]` split by 3 gives `[1,2,3]`, `[4,5,6]`, `[7,0,0]` |
| SplitLayout.SplitFourByThree | Pipe4Net/PipeIt.cs:315-341 | `[1..4]` split by 3 gives `[1,2,0]`, `[3,4,0]`, `[0,0,0]` |
| EnumerableExtensions.ForEach | Pipe4Net/PipeIt.cs:125-128 | the action is called once per element, in order |
| EnumerableExtensions.DeepCopy | Pipe4Net/PipeIt.cs:136-146 | the result is a new array with the same length and the same elements |
| EnumerableExtensions.ShallowCopy | Pipe4Net/PipeIt.cs:154 | the shallow copy is the argument itself |
| EnumerableExtensions.IsSameByReference | Pipe4Net/PipeIt.cs:208 | true iff the two arrays are the same object |
| EnumerableExtensions.ShallowCopyIsSameByReference | Pipe4Net/PipeIt.cs:154 | a shallow copy is the same object; `IsSameByReference` holds exactly for the same object (line 208) |
| EnumerableExtensions.CopyScenario | Pipe4NetInAction/Program.cs:14-29 | after a write to the original, the shallow copy sees it and is the same object; the deep copy keeps the old value and is a different object |
| EnumerableExtensions.IsSameByValue | Pipe4Net/PipeIt.cs:164-176 | true iff the lengths agree and every element of the first sequence is in the second under native equality; the comparison function plays no part |
| EnumerableExtensions.IsSameByValueAndIndex | Pipe4Net/PipeIt.cs:186-199 | true iff the lengths agree and the comparison holds at every index |
| EnumerableExtensions.SameByValueAndIndexIsEquality | Pipe4Net/PipeIt.cs:186-199 | under native equality the positional comparison is sequence equality |
| EnumerableExtensions.PermutationIsSameByValue | Pipe4Net/PipeIt.cs:164-176 | a permutation of a sequence is the same by value |
| EnumerableExtensions.ValueVersusIndex | Pipe4Net/PipeIt.cs:164-199 | `[1,2,3]` and `[3,2,1]` are the same by value but not by value and index |
| EnumerableExtensions.SameByValueNotSymmetric | Pipe4Net/PipeIt.cs:168-173 | `[1,1]` is the same by value as `[1,2]` but not the other way round, although their element counts differ |
| EnumerableExtensions.IsSameByValueUsing | Pipe4Net/PipeIt.cs:164-176 | corrected: true iff the lengths agree and every element of the first matches some element of the second under the comparison |
| EnumerableExtensions.SameByValueUnderEquality | Pipe4Net/PipeIt.cs:170 | with native equality as the comparison, the corrected relation is the code's relation |
| EnumerableExtensions.CompareFunctionIgnored | Pipe4Net/PipeIt.cs:170 | under a comparison matching everything, `[1]` and `[2]` match, yet the code's relation rejects them |
| EnumerableExtensions.AddElement | Pipe4Net/PipeIt.cs:234-239 | the result is one longer: the original elements, in order, then `obj` |
| EnumerableExtensions.AddElements | Pipe4Net/PipeIt.cs:248-253 | the result is the original elements, in order, followed by `objs`, in order |
| EnumerableExtensions.AddElementsAppend | Pipe4Net/PipeIt.cs:234-253 | the original elements come first, in order, then the added ones; adding one element is adding a one-element array |
| EnumerableExtensions.RemoveNulls | Pipe4Net/PipeIt.cs:215-225 | the result is the order-preserving filter of non-null elements; a value is in it iff it is a non-null element of the input |
| EnumerableExtensions.RemoveNullsIdempotent | Pipe4Net/PipeIt.cs:215-225 | removing nulls twice equals removing them once |
| EnumerableExtensions.RemoveNullsWithoutNulls | Pipe4Net/PipeIt.cs:221 | on a sequence without nulls, such as any sequence of a value type, nothing is removed |
| EnumerableExtensions.RemoveElement | Pipe4Net/PipeIt.cs:262-272 | the result is the order-preserving filter of elements not equal to `obj`; a value is in it iff it is in the input and differs from `obj`; null elements are allowed unless `T` is a reference type |
| EnumerableExtensions.RemoveNullElementIsRemoveNulls | Pipe4Net/PipeIt.cs:215-272 | for `Nullable<S>` elements, removing `null` gives the same result as `RemoveNulls` |
| EnumerableExtensions.RemoveElements | Pipe4Net/PipeIt.cs:281-291 | the result is the order-preserving filter of elements not in `objs`; a value is in it iff it is in the input and not in `objs` |
| EnumerableExtensions.RemoveElementAfterAdd | Pipe4Net/PipeIt.cs:234-272 | removing `obj` after adding it equals removing it from the original; removing it twice equals removing it once |
| EnumerableExtensions.RemoveElementsInTurn | Pipe4Net/PipeIt.cs:281-291 | removing the elements of `xs + ys` equals removing those of `xs`, then those of `ys` |
| EnumerableExtensions.ForEachWithIndex | Pipe4Net/PipeIt.cs:299-306 | `action(a[i], i)` is called for every index, in increasing order |
| EnumerableExtensions.NewRows | Pipe4Net/PipeIt.cs:317-321 | `splitBy` new, distinct rows of `splitBy` cells, each cell `default(T)` |
| EnumerableExtensions.Split | Pipe4Net/PipeIt.cs:315-341 | a new array of `splitBy` distinct new rows; each row equals the matching row of `SplitGrid` |
| EnumerableExtensions.GenerateForLoop | Pipe4Net/PipeIt.cs:348-351 | the action runs `count` times, or zero times when `count <= 0` |

## Left out

- LINQ's deferred execution (`Concat` at lines 236 and 250, and `yield` at
  line 48) is not modelled. Results are held as complete sequences.
- The effects of callbacks (console output, mutation) are not modelled. Each
  call is recorded as an event in a returned trace. Callbacks are total and
  pure, so an exception thrown inside one, which the library would
  propagate, is not modelled.
- The private parameterless constructor `Option()` (line 24) is never
  called and is not modelled. The non-generic `GetEnumerator` (line 51)
  forwards to the generic one, which is `Option.Elements`.
- `ShallowCopy` and `IsSameByReference` are modelled on arrays only.
  Reference identity of other `IEnumerable` objects is not modelled.
- `DeepCopy` copies values. What copying a reference means for the objects
  the elements point to is not modelled.
- Null arguments (sequences, arrays, callbacks) are not modelled, because a
  Dafny value is never null. The helpers react differently to them: some
  throw, `ShallowCopy(null)` returns null, and `IsSameByReference(null,
  null)` is true.
- `Option<T>` (line 16) and `ElseBranch` (line 98) are classes in the code
  and do not override `Equals`. Their reference identity and the reference
  `Equals` are not modelled: here two of them with the same fields are
  equal, while in the code every `From`, `None` or implicit conversion
  builds a new object.
- `Equals` and `Contains` are modelled as native equality. User overrides
  of `Equals` are not modelled.
- RemoveElement: when `T` is a reference type, requires every element to be
  non-null, because the code calls `Equals` on each element and a null
  reference throws. The thrown exception is not modelled. For `Nullable<S>`
  and other value types there is no such requirement, and `obj` may be null
  in every case.
- Split: requires `splitBy > 0` and at most `splitBy * splitBy` elements. The
  code divides by zero on a zero `splitBy` (line 325), fails allocating on a
  negative one (line 317), and indexes out of bounds on more elements
  (line 330). These failures are excluded, not modelled.
- Counters and lengths are unbounded integers. The source's 32-bit `int`
  arithmetic cannot overflow here: indices stay below array lengths, and
  `splitBy * splitBy` is never computed by the code.
- The two-stage `Pipe(x, f, g)` and `PipeResultTo` that the console demo
  calls (`Pipe4NetInAction/Program.cs` lines 11 and 35) are not defined in
  `PipeIt.cs`, so they are not modelled. The rest of the demo is console
  output, apart from the copy scenario at lines 14-29.
- `PipeReturn`, which the tests call, is not defined in `PipeIt.cs`. The
  tests' two facts are stated about `Pipe`.

## Findings

| source | as written | input that shows it | evidently intended | confidence | as-written member | corrected member |
|---|---|---|---|---|---|---|
| Pipe4Net/PipeIt.cs:164-176 | `IsSameByValue` takes `compareFunction` but tests membership with `Contains`, that is with native equality (line 170) | `[1]` against `[2]` with a comparison that matches any two elements: the code returns false | every element of the first sequence has a match in the second under `compareFunction`, as in `IsSameByValueAndIndex` and as callers expect when they pass a comparison (Pipe4NetInAction/Program.cs:31) | medium, not executed | EnumerableExtensions.CompareFunctionIgnored | EnumerableExtensions.IsSameByValueUsing |
