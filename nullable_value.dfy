/**
 * The tri-state container `NullableValue<T>`: a value is undefined, or it is
 * present and holds a value that may itself be Java `null`.
 */
module NullableValues {
  import opened Wrappers

  /**
   * `Undefined` is a tag without payload, so every undefined container is the
   * same value, as the single shared `UNDEFINED` instance makes it in Java.
   * `Present(None)` is a container that holds `null`.
   */
  datatype NullableValue<+T> = Undefined | Present(value: Option<T>)

  /** The exception `get()` throws on an undefined container. */
  datatype Error = NoSuchElement(message: string)

  const UndefinedMessage := "Value is undefined"

  /** `undefined()`: the shared undefined container. */
  function UndefinedValue<T>(): (r: NullableValue<T>)
    ensures !IsPresent(r)
    ensures Get(r) == Failure(NoSuchElement(UndefinedMessage))
  {
    Undefined
  }

  /** `of(value)`: a present container holding `x`, which may be `null`. */
  function Of<T>(x: Option<T>): (r: NullableValue<T>)
    ensures IsPresent(r)
    ensures Get(r) == Success(x)
  {
    Present(x)
  }

  /** `isPresent()`: the `present` flag, false only for the undefined container. */
  function IsPresent<T>(nv: NullableValue<T>): (present: bool)
    ensures present <==> nv != Undefined
  {
    nv.Present?
  }

  /** The `value` field: what a present container holds, and `null` for the undefined one. */
  function StoredValue<T>(nv: NullableValue<T>): Option<T>
  {
    match nv
    case Undefined => None
    case Present(x) => x
  }

  /** `get()`: the stored value, or `NoSuchElementException("Value is undefined")`. */
  function Get<T>(nv: NullableValue<T>): (r: Result<Option<T>, Error>)
    ensures r.Failure? <==> !IsPresent(nv)
    ensures r.Failure? ==> r.error == NoSuchElement(UndefinedMessage)
    ensures r.Success? ==> nv == Present(r.value)
  {
    if !IsPresent(nv) then Failure(NoSuchElement(UndefinedMessage))
    else Success(StoredValue(nv))
  }

  /** `orElse(other)`: presence, not nullness, decides between the stored value and `other`. */
  function OrElse<T>(nv: NullableValue<T>, other: Option<T>): (r: Option<T>)
    ensures IsPresent(nv) ==> Get(nv) == Success(r)
    ensures !IsPresent(nv) ==> r == other
  {
    if IsPresent(nv) then StoredValue(nv) else other
  }

  /**
   * `ifPresent(action)`: the arguments, in order, of the calls made to `action`.
   * The callback has no other effect visible to this class.
   */
  function IfPresent<T>(nv: NullableValue<T>): (calls: seq<Option<T>>)
    ensures |calls| == if IsPresent(nv) then 1 else 0
    ensures IsPresent(nv) ==> Get(nv) == Success(calls[0])
  {
    if IsPresent(nv) then [StoredValue(nv)] else []
  }

  /**
   * `map(mapper)`: undefined stays undefined; a stored `null` stays `null`
   * without the mapper; otherwise the mapper's result, which may be `null`, is stored.
   */
  function Map<T, U>(nv: NullableValue<T>, mapper: T -> Option<U>): (r: NullableValue<U>)
    ensures IsPresent(r) <==> IsPresent(nv)
    ensures nv == Present(None) ==> r == Present(None)
    ensures nv.Present? && nv.value.Some? ==> r == Present(mapper(nv.value.value))
  {
    if !IsPresent(nv) then Undefined
    else match StoredValue(nv)
      case None => Of(None)
      case Some(x) => Of(mapper(x))
  }

  /** Applies `first`, then `second` unless `first` gave `null`. */
  function AndThen<T, U, V>(first: T -> Option<U>, second: U -> Option<V>): T -> Option<V>
  {
    x => match first(x)
      case None => None
      case Some(y) => second(y)
  }

  /** When there is no non-null value to map, the mapper is never consulted. */
  lemma MapIgnoresMapperWithoutValue<T, U>(nv: NullableValue<T>, f: T -> Option<U>, g: T -> Option<U>)
    requires nv == Undefined || nv == Present(None)
    ensures Map(nv, f) == Map(nv, g)
    ensures IsPresent(Map(nv, f)) <==> IsPresent(nv)
  {
  }

  /** Two maps in a row are one map with the null-skipping composition of the mappers. */
  lemma MapComposes<T, U, V>(nv: NullableValue<T>, f: T -> Option<U>, g: U -> Option<V>)
    ensures Map(Map(nv, f), g) == Map(nv, AndThen(f, g))
  {
  }

  /** Mapping with the identity (lifted to nullable results) changes nothing. */
  lemma MapIdentity<T>(nv: NullableValue<T>)
    ensures Map(nv, (x: T) => Some(x)) == nv
  {
  }

  /**
   * `equals(o)`: `o` is `Some` container or `None` when it is `null` or not a
   * `NullableValue`. The stored values are compared with `T`'s own equality.
   */
  function Equals<T(==)>(nv: NullableValue<T>, o: Option<NullableValue<T>>): (r: bool)
    ensures r <==> o == Some(nv)
  {
    match o
    case None => false
    case Some(that) => IsPresent(nv) == IsPresent(that) && StoredValue(nv) == StoredValue(that)
  }

  /** `equals` is an equivalence on containers: reflexive, symmetric and transitive. */
  lemma EqualsIsEquivalence<T>(a: NullableValue<T>, b: NullableValue<T>, c: NullableValue<T>)
    ensures Equals(a, Some(a))
    ensures Equals(a, Some(b)) <==> Equals(b, Some(a))
    ensures Equals(a, Some(b)) && Equals(b, Some(c)) ==> Equals(a, Some(c))
    ensures !Equals(a, None)
  {
  }

  /** All undefined containers are equal; `of(x)` is never equal to undefined; `of` compares its payloads. */
  lemma EqualsCases<T>(x: Option<T>, y: Option<T>)
    ensures Equals(UndefinedValue<T>(), Some(UndefinedValue<T>()))
    ensures !Equals(Of(x), Some(UndefinedValue<T>()))
    ensures !Equals(UndefinedValue<T>(), Some(Of(x)))
    ensures Equals(Of(x), Some(Of(y))) <==> x == y
  {
  }

  const TwoTo32: int := 0x1_0000_0000

  /** Java `int` arithmetic: the 32-bit two's-complement value congruent to `x`. */
  function Int32(x: int): (r: int)
    ensures -0x8000_0000 <= r < 0x8000_0000
    ensures (x - r) % TwoTo32 == 0
  {
    var m := x % TwoTo32;
    if m >= 0x8000_0000 then m - TwoTo32 else m
  }

  /** `Boolean.hashCode(b)`. */
  function BooleanHash(b: bool): int
  {
    if b then 1231 else 1237
  }

  /** The hash `Objects.hash` takes for one element: 0 for `null`, else its `hashCode()`. */
  function ElementHash<T>(x: Option<T>, hash: T -> int): int
  {
    match x
    case None => 0
    case Some(v) => hash(v)
  }

  /**
   * `hashCode()` = `Objects.hash(value, present)`, that is
   * 31 * (31 * 1 + hash(value)) + Boolean.hashCode(present) in `int` arithmetic.
   */
  function HashCode<T>(nv: NullableValue<T>, hash: T -> int): (h: int)
    ensures -0x8000_0000 <= h < 0x8000_0000
  {
    Int32(31 * (31 * 1 + ElementHash(StoredValue(nv), hash)) + BooleanHash(IsPresent(nv)))
  }

  /** Equal containers have equal hash codes. */
  lemma HashCodeConsistentWithEquals<T>(a: NullableValue<T>, b: NullableValue<T>, hash: T -> int)
    requires Equals(a, Some(b))
    ensures HashCode(a, hash) == HashCode(b, hash)
  {
  }

  /** The two containers without a non-null value hash to different fixed codes. */
  lemma HashCodeOfEmptyContainers<T>(hash: T -> int)
    ensures HashCode(UndefinedValue<T>(), hash) == 2198
    ensures HashCode(Of<T>(None), hash) == 2192
  {
  }

  const UndefinedText := "NullableValue.undefined"
  const PresentPrefix := "NullableValue["

  /** `String.valueOf` of the stored value: `"null"` for `null`. */
  function ShowNullable<T>(x: Option<T>, show: T -> string): string
  {
    match x
    case None => "null"
    case Some(v) => show(v)
  }

  /** `toString()`, with `show` rendering a non-null `T`. */
  function ToString<T>(nv: NullableValue<T>, show: T -> string): (s: string)
    ensures !IsPresent(nv) ==> s == UndefinedText
    ensures |s| >= |PresentPrefix| + 1
    ensures IsPresent(nv) ==> s[..|PresentPrefix|] == PresentPrefix && s[|s| - 1] == ']'
    ensures IsPresent(nv) ==> s[|PresentPrefix|..|s| - 1] == ShowNullable(StoredValue(nv), show)
  {
    if IsPresent(nv) then PresentPrefix + ShowNullable(StoredValue(nv), show) + "]"
    else UndefinedText
  }

  /** The rendering tells an undefined container from every present one. */
  lemma ToStringUndefinedIff<T>(nv: NullableValue<T>, show: T -> string)
    ensures ToString(nv, show) == UndefinedText <==> !IsPresent(nv)
  {
    if IsPresent(nv) {
      var s := ToString(nv, show);
      assert s[13] == '[';
      assert UndefinedText[13] == '.';
    }
  }

  /**
   * The rendering of present containers is injective when `show` is injective
   * and never yields the text `"null"`.
   */
  lemma ToStringInjective<T>(a: NullableValue<T>, b: NullableValue<T>, show: T -> string)
    requires IsPresent(a) && IsPresent(b)
    requires forall x, y :: show(x) == show(y) ==> x == y
    requires forall x :: show(x) != "null"
    requires ToString(a, show) == ToString(b, show)
    ensures a == b
  {
    var s := ToString(a, show);
    var inner := s[|PresentPrefix|..|s| - 1];
    assert ShowNullable(StoredValue(a), show) == inner;
    assert ShowNullable(StoredValue(b), show) == inner;
  }

  /** Without the `"null"` condition the rendering is ambiguous: a value shown as `null` prints like `null`. */
  lemma ToStringAmbiguousOnNullText<T>(x: T, show: T -> string)
    requires show(x) == "null"
    ensures ToString(Of(Some(x)), show) == ToString(Of<T>(None), show)
  {
  }

  /** The concrete cases the unit tests check, with `T` = `String`. */
  lemma UnitTestVectors()
    ensures !IsPresent(UndefinedValue<string>())
    ensures Get(UndefinedValue<string>()) == Failure(NoSuchElement("Value is undefined"))
    ensures IsPresent(Of<string>(None)) && Get(Of<string>(None)) == Success(None)
    ensures IsPresent(Of(Some("hello"))) && Get(Of(Some("hello"))) == Success(Some("hello"))
    ensures OrElse(Of(Some("hello")), Some("default")) == Some("hello")
    ensures OrElse(UndefinedValue(), Some("default")) == Some("default")
    ensures OrElse(Of(None), Some("default")) == None
    ensures IfPresent(Of(Some("hello"))) == [Some("hello")]
    ensures IfPresent(UndefinedValue<string>()) == []
    ensures Map(Of(Some("hello")), (s: string) => Some(|s|)) == Of(Some(5))
    ensures Map(UndefinedValue<string>(), (s: string) => Some(|s|)) == Undefined
    ensures Map(Of<string>(None), (s: string) => Some(|s|)) == Of(None)
    ensures Equals(Of(Some("hello")), Some(Of(Some("hello"))))
    ensures !Equals(Of(Some("hello")), Some(Of(Some("world"))))
    ensures !Equals(Of(Some("hello")), Some(UndefinedValue()))
    ensures Equals(UndefinedValue<string>(), Some(UndefinedValue()))
    ensures ToString(Of(Some("hello")), (s: string) => s) == "NullableValue[hello]"
    ensures ToString(Of<string>(None), (s: string) => s) == "NullableValue[null]"
    ensures ToString(UndefinedValue<string>(), (s: string) => s) == "NullableValue.undefined"
  {
    assert "hello" != "world" by { assert "hello"[0] != "world"[0]; }
  }
}
