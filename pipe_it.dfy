/** The pipe combinators and the `IfTrue`/`Else` branch. A C# `Action` is
    modelled by the event its call records, and an `Action<T>` by the
    function from its argument to that event; an operation that invokes
    actions returns the trace of events in the order the calls happen. */
module PipeIt {
  import opened Values
  import opened Options

  /** `obj.PipeWith(action)`: calls `action(obj)` once. */
  function PipeWith<T, E>(obj: T, action: T -> E): (trace: seq<E>)
    ensures |trace| == 1 && trace[0] == action(obj)
  {
    [action(obj)]
  }

  /** `obj.Pipe(func)` with a function returning the same type. */
  function Pipe<T>(obj: T, func: T -> T): (r: T)
    ensures r == func(obj)
  {
    func(obj)
  }

  /** `obj.Pipe(func)` with a function returning an `Option<TR>`; the option
      is passed back untouched. */
  function PipeOption<T, TR>(obj: T, func: T -> Option<TR>): (r: Option<TR>)
    ensures r == func(obj)
  {
    func(obj)
  }

  /** The object `IfTrue` returns: it remembers the condition. */
  datatype ElseBranch = ElseBranch(value: bool) {

    /** `Else(action)`: runs `action` only when the condition was false. */
    function Else<E>(action: E): (trace: seq<E>)
      ensures trace == [] <==> value
      ensures !value ==> trace == [action]
    {
      if !value then [action] else []
    }
  }

  /** `condition.IfTrue(action)`: runs `action` when the condition holds and
      returns the branch for a following `Else`. */
  function IfTrue<E>(condition: bool, action: E): (r: (ElseBranch, seq<E>))
    ensures r.0.value == condition
    ensures r.1 == [] <==> !condition
    ensures condition ==> r.1 == [action]
  {
    var trace := if condition then [action] else [];
    (ElseBranch(condition), trace)
  }

  /** `c.IfTrue(a).Else(b)` runs exactly one of the two actions: `a` when
      `c` holds, `b` when it does not. */
  lemma IfTrueElseRunsOneArm<E>(condition: bool, a: E, b: E)
    ensures var (branch, first) := IfTrue(condition, a);
            first + branch.Else(b) == if condition then [a] else [b]
  {
  }

  /** Piping into the identity gives the value back. */
  lemma PipeIdentity<T>(x: T)
    ensures Pipe(x, y => y) == x
  {
  }

  /** Piping into "append `ending`" appends `ending`. */
  lemma PipeAppend(s: string, ending: string)
    ensures Pipe(s, t => t + ending) == s + ending
  {
  }

  /** Two pipes in a row are one pipe into the composed function. */
  lemma PipeComposition<T>(x: T, f: T -> T, g: T -> T)
    ensures Pipe(Pipe(x, f), g) == Pipe(x, y => g(f(y)))
  {
  }

  /** The `Option`-returning overload passes the function's option through:
      for every function, the result has its payload and its enumeration. */
  lemma PipeOptionForwards<T, TR>(x: T, f: T -> Option<TR>)
    ensures PipeOption(x, f).Value() == f(x).Value()
    ensures PipeOption(x, f).Elements() == f(x).Elements()
  {
  }

  /** A function that returns a bare value, converted implicitly, yields an
      option that is present exactly when that value is not null. */
  lemma PipeOptionImplicit<T, TR>(x: T, g: T -> Nullable<TR>)
    ensures PipeOption(x, y => Implicit(g(y))).hasValue <==> g(x) != Null
    ensures PipeOption(x, y => Implicit(g(y))).Value() == g(x)
  {
    PipeOptionForwards(x, y => Implicit(g(y)));
  }
}
