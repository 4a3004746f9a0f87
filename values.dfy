/** C# value-level notions that the library's behaviour depends on: the null
    reference, the default value `default(T)` of a type, and the integer
    division operator `/`, which truncates toward zero. */
module Values {

  /** A value of a C# type parameter `T`: either the null reference or a
      non-null value. A value type such as `int` only ever has `NonNull`
      values (so `0` is `NonNull(0)`, not `Null`). */
  datatype Nullable<T> = Null | NonNull(value: T)

  /** The kind of type `T` is instantiated with. Reference types and
      `Nullable<S>` (`S?`) both default to `null`, other value types to their
      zero value (`0`, `false`, ...). The first two differ in what calling
      `Equals` on a null value does: it throws on a null reference, while
      `Nullable<S>.Equals` answers whether the argument is null too. */
  datatype TypeKind<T> = ReferenceType | NullableValueType | ValueType(zero: T)

  /** `default(T)` for a type of the given kind. */
  function Default<T>(kind: TypeKind<T>): (d: Nullable<T>)
    ensures d.Null? <==> !kind.ValueType?
    ensures kind.ValueType? ==> d == NonNull(kind.zero)
  {
    match kind
    case ReferenceType => Null
    case NullableValueType => Null
    case ValueType(zero) => NonNull(zero)
  }

  /** The C# predicate `x != null`. */
  function IsNonNull<T>(x: Nullable<T>): (b: bool)
  {
    x.NonNull?
  }

  function Abs(x: int): (n: nat)
  {
    if x < 0 then -x else x
  }

  /** C#'s integer `/`, which rounds toward zero; Dafny's `/` is Euclidean.
      The remainder it leaves is smaller than the divisor in magnitude and
      takes the sign of the dividend, which determines the quotient. */
  function TruncDiv(a: int, b: int): (q: int)
    requires b != 0
    ensures Abs(a - q * b) < Abs(b)
    ensures a - q * b == 0 || (a - q * b < 0 <==> a < 0)
    ensures 0 <= a && 0 < b ==> q == a / b
  {
    if 0 <= a then
      (if 0 < b then a / b else -(a / -b))
    else
      (if 0 < b then -((-a) / b) else (-a) / (-b))
  }

  lemma TruncDivOfMinusOne(b: int)
    requires 0 < b
    ensures TruncDiv(-1, b) == if b == 1 then -1 else 0
  {
  }
}
