/**
 * `NullableValueDeserializer`: maps the three wire states of an object member
 * (missing key, `null` literal, other value) onto the three container states,
 * and specializes itself to the content type of the property it serves.
 */
module NullableValueDeserializer {
  import opened Wrappers
  import opened Jackson
  import opened NullableValues

  /** A content deserializer the host found for the content type; its result may be `null`. */
  datatype ContentDeserializer<T> = ContentDeserializer(deserialize: Json -> Result<Option<T>, CodecError>)

  /**
   * The services of `DeserializationContext` that the deserializer uses:
   * the contextual type, `readTreeAsValue` applied to the tree `readTree` read,
   * and `findContextualValueDeserializer`.
   */
  datatype DeserializationContext<T> = DeserializationContext(
    contextualType: Option<JavaType>,
    readTreeAsValue: (Json, JavaType) -> Result<Option<T>, CodecError>,
    findContextualValueDeserializer: (JavaType, Option<BeanProperty>) -> ContentDeserializer<T>)

  /** The two final fields: the resolved content type and the content deserializer bound to it. */
  datatype Deserializer<T> = Deserializer(
    contentType: Option<JavaType>,
    contentDeserializer: Option<ContentDeserializer<T>>)

  /** The public no-argument constructor: the unbound deserializer the module registers. */
  function NewDeserializer<T>(): (d: Deserializer<T>)
    ensures d.contentType.None? && d.contentDeserializer.None?
  {
    Deserializer(None, None)
  }

  /**
   * The content value for a value token: the bound content deserializer's result,
   * or else the tree converted to the content type, or to `Object` when none is known.
   */
  function ReadContent<T>(d: Deserializer<T>, ctxt: DeserializationContext<T>, tree: Json): Result<Option<T>, CodecError>
  {
    match d.contentDeserializer
    case Some(cd) => cd.deserialize(tree)
    case None =>
      ctxt.readTreeAsValue(tree, match d.contentType case Some(t) => t case None => ObjectType)
  }

  /**
   * `deserialize`: the value path. It always yields a present container wrapping
   * the content value unchanged, and a content failure propagates unchanged.
   */
  function Deserialize<T>(d: Deserializer<T>, ctxt: DeserializationContext<T>, tree: Json): (r: Result<NullableValue<T>, CodecError>)
    ensures r.Success? ==> IsPresent(r.value)
    ensures r.Success? <==> ReadContent(d, ctxt, tree).Success?
    ensures r.Success? ==> Get(r.value) == Success(ReadContent(d, ctxt, tree).value)
    ensures r.Failure? ==> r.error == ReadContent(d, ctxt, tree).error
  {
    match ReadContent(d, ctxt, tree)
    case Success(x) => Success(Of(x))
    case Failure(e) => Failure(e)
  }

  /** `getNullValue`: the container for an explicit `null`, whatever the content type. */
  function GetNullValue<T>(d: Deserializer<T>): (r: NullableValue<T>)
    ensures IsPresent(r) && Get(r) == Success(None)
  {
    Of(None)
  }

  /** `getAbsentValue`: the container for a missing key. */
  function GetAbsentValue<T>(d: Deserializer<T>): (r: NullableValue<T>)
    ensures !IsPresent(r)
  {
    UndefinedValue()
  }

  /**
   * How the host drives the three hooks for one member: a missing key goes to
   * `getAbsentValue` without reading input, the `null` literal to `getNullValue`,
   * any other value to `deserialize`.
   */
  function DecodeField<T>(d: Deserializer<T>, ctxt: DeserializationContext<T>, w: Wire): (r: Result<NullableValue<T>, CodecError>)
    ensures (r.Success? && !IsPresent(r.value)) <==> w.Absent?
    ensures w.NullToken? ==> r == Success(Of(None))
    ensures w.ValueToken? ==> r == Deserialize(d, ctxt, w.tree)
  {
    match w
    case Absent => Success(GetAbsentValue(d))
    case NullToken => Success(GetNullValue(d))
    case ValueToken(tree) => Deserialize(d, ctxt, tree)
  }

  /** The declared wrapper type: the property's type, or the contextual type when there is no property. */
  function WrapperType<T>(ctxt: DeserializationContext<T>, property: Option<BeanProperty>): Option<JavaType>
  {
    match property
    case Some(p) => Some(p.propertyType)
    case None => ctxt.contextualType
  }

  /** The content type: type argument 0 of the wrapper type, when both are known. */
  function ResolvedContentType<T>(ctxt: DeserializationContext<T>, property: Option<BeanProperty>): Option<JavaType>
  {
    match WrapperType(ctxt, property)
    case Some(w) => ContainedType(w, 0)
    case None => None
  }

  /**
   * `createContextual`: a new deserializer bound to the resolved content type and
   * to the content deserializer the context finds for it; `this` when unresolvable.
   */
  function CreateContextual<T>(d: Deserializer<T>, ctxt: DeserializationContext<T>, property: Option<BeanProperty>): (r: Deserializer<T>)
    ensures ResolvedContentType(ctxt, property).None? ==> r == d
    ensures ResolvedContentType(ctxt, property).Some? ==>
      && r.contentType == ResolvedContentType(ctxt, property)
      && r.contentDeserializer == Some(ctxt.findContextualValueDeserializer(r.contentType.value, property))
  {
    var wrapperType := WrapperType(ctxt, property);
    if wrapperType.Some? then
      var contentType := ContainedType(wrapperType.value, 0);
      if contentType.Some? then
        Deserializer(contentType, Some(ctxt.findContextualValueDeserializer(contentType.value, property)))
      else d
    else d
  }

  /** Specializing twice for the same context gives the same deserializer as specializing once. */
  lemma CreateContextualIdempotent<T>(d: Deserializer<T>, ctxt: DeserializationContext<T>, property: Option<BeanProperty>)
    ensures CreateContextual(CreateContextual(d, ctxt, property), ctxt, property) == CreateContextual(d, ctxt, property)
  {
  }

  /**
   * What a specialized deserializer does with a value token: a property whose type
   * has a type argument decodes with the content deserializer found for it; an
   * unresolvable context leaves the registered deserializer decoding the tree as `Object`.
   */
  lemma ContextualDeserialize<T>(ctxt: DeserializationContext<T>, property: Option<BeanProperty>, tree: Json)
    ensures var r := Deserialize(CreateContextual(NewDeserializer(), ctxt, property), ctxt, tree);
      match ResolvedContentType(ctxt, property)
      case Some(ct) =>
        r.Success? <==> ctxt.findContextualValueDeserializer(ct, property).deserialize(tree).Success?
      case None =>
        r.Success? <==> ctxt.readTreeAsValue(tree, ObjectType).Success?
    ensures var r := Deserialize(CreateContextual(NewDeserializer(), ctxt, property), ctxt, tree);
      r.Success? ==> Get(r.value) == Success(
        match ResolvedContentType(ctxt, property)
        case Some(ct) => ctxt.findContextualValueDeserializer(ct, property).deserialize(tree).value
        case None => ctxt.readTreeAsValue(tree, ObjectType).value)
  {
  }
}
