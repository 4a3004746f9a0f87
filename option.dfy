/** `Option<T>`: an immutable container that records whether a value is
    present and always carries a payload. Presence is decided by nullness
    when the option is built from a value, and the payload is readable
    whether or not a value is present. */
module Options {
  import opened Values

  /** `hasValue` is the `HasValue` property; `payload` is the private
      readonly field that `Value` returns. */
  datatype Option<T> = Option(hasValue: bool, payload: Nullable<T>) {

    /** `Value`: the payload, on an empty option too; it never fails. */
    function Value(): (v: Nullable<T>)
      ensures v == payload
    {
      payload
    }

    /** The enumerator's output: the payload once when a value is present,
        nothing otherwise. */
    function Elements(): (r: seq<Nullable<T>>)
      ensures |r| <= 1
      ensures r == [] <==> !hasValue
      ensures r != [] ==> r[0] == Value()
    {
      if hasValue then [payload] else []
    }
  }

  /** The private one-argument constructor: present exactly when the
      argument is not null. */
  function OfValue<T>(v: Nullable<T>): (o: Option<T>)
    ensures o.hasValue <==> v != Null
    ensures o.Value() == v
  {
    Option(IsNonNull(v), v)
  }

  /** The private constructor that is given the flag explicitly. */
  function OfValueAndFlag<T>(v: Nullable<T>, hasValue: bool): (o: Option<T>)
    ensures o.hasValue == hasValue && o.Value() == v
  {
    Option(hasValue, v)
  }

  /** `Option.From(value)`. */
  function From<T>(v: Nullable<T>): (o: Option<T>)
    ensures o.hasValue <==> v != Null
    ensures o.Value() == v
    ensures o.Elements() == if v == Null then [] else [v]
  {
    OfValue(v)
  }

  /** `Option.None()`: empty, with `default(T)` as its payload. */
  function None<T>(kind: TypeKind<T>): (o: Option<T>)
    ensures !o.hasValue
    ensures o.Value() == Default(kind)
    ensures o.Elements() == []
  {
    OfValueAndFlag(Default(kind), false)
  }

  /** `Option.None(defaultValue)`: empty, with the caller's payload. */
  function NoneWith<T>(defaultValue: Nullable<T>): (o: Option<T>)
    ensures !o.hasValue
    ensures o.Value() == defaultValue
    ensures o.Elements() == []
  {
    OfValueAndFlag(defaultValue, false)
  }

  /** The implicit conversion from `T` to `Option<T>`: the same flag and
      payload as `From` gives. (In the code each call builds a new object;
      options are compared by their fields here.) */
  function Implicit<T>(v: Nullable<T>): (o: Option<T>)
    ensures o == From(v)
  {
    OfValue(v)
  }

  /** Whether `From(default(T))` is present depends on the kind of type:
      `From(0)` for `int` holds a value, `From(null)` does not. */
  lemma FromDefault<T>(kind: TypeKind<T>)
    ensures From(Default(kind)).hasValue <==> kind.ValueType?
    ensures From(Default(kind)).Value() == None(kind).Value()
  {
  }

  /** A present option with payload `d` and an empty one with payload `d`
      carry the same payload and differ in their flag. */
  lemma PresentAndEmptyDiffer<T>(v: Nullable<T>)
    ensures v != Null ==> From(v) != NoneWith(v)
    ensures From(v).Value() == NoneWith(v).Value()
  {
  }
}
