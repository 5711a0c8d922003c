/**
 * `NullableValueSerializer`: decides whether a container field is omitted
 * (`isEmpty`), writes `null` or delegates the stored value to a content
 * serializer (`serialize`), and specializes itself to a property's content type.
 */
module NullableValueSerializer {
  import opened Wrappers
  import opened Jackson
  import opened NullableValues

  /** A content serializer the host found for the content type; it is only ever given non-null values. */
  datatype ContentSerializer<-T> = ContentSerializer(serialize: T -> Result<Json, CodecError>)

  /** The services of `SerializationContext` the serializer uses: generic `writePOJO` and `findValueSerializer`. */
  datatype SerializationContext<-T> = SerializationContext(
    writePOJO: T -> Result<Json, CodecError>,
    findValueSerializer: JavaType -> ContentSerializer<T>)

  /** The one final field: the bound content serializer, if any. */
  datatype Serializer<-T> = Serializer(contentSerializer: Option<ContentSerializer<T>>)

  /** The public no-argument constructor: the unbound serializer the module registers. */
  function NewSerializer<T>(): (s: Serializer<T>)
    ensures s.contentSerializer.None?
  {
    Serializer(None)
  }

  /**
   * `isEmpty`: `value` is `None` for a `null` reference. Only a null reference or an
   * undefined container is empty; a container holding `null` is not.
   */
  function IsEmpty<T>(value: Option<NullableValue<T>>): (empty: bool)
    ensures empty <==> value == None || value == Some(Undefined)
    ensures value.Some? && IsPresent(value.value) ==> !empty
  {
    value.None? || !IsPresent(value.value)
  }

  /** What a non-null stored value is written as: by the bound content serializer, else by `writePOJO`. */
  function WriteContent<T>(s: Serializer<T>, ctxt: SerializationContext<T>, x: T): Result<Json, CodecError>
  {
    match s.contentSerializer
    case Some(cs) => cs.serialize(x)
    case None => ctxt.writePOJO(x)
  }

  /**
   * The JSON value `serialize` writes for a container, or the content failure it
   * lets through. Undefined and present-null both write the `null` literal
   * without consulting any content serializer.
   */
  function Emit<T>(s: Serializer<T>, ctxt: SerializationContext<T>, nv: NullableValue<T>): (r: Result<Json, CodecError>)
    ensures OrElse(nv, None).None? ==> r == Success(JNull)
    ensures OrElse(nv, None).Some? ==> r == WriteContent(s, ctxt, OrElse(nv, None).value)
  {
    if !IsPresent(nv) then Success(JNull)
    else match Get(nv).value
      case None => Success(JNull)
      case Some(content) => WriteContent(s, ctxt, content)
  }

  /**
   * `serialize(value, gen, ctxt)`: appends to `gen` the value `Emit` gives, or
   * nothing when the content serializer fails, and reports that failure.
   */
  method Serialize<T>(s: Serializer<T>, value: NullableValue<T>, gen: JsonGenerator, ctxt: SerializationContext<T>)
    returns (outcome: Outcome<CodecError>)
    modifies gen
    ensures Emit(s, ctxt, value).Success? ==> outcome == Pass && gen.output == old(gen.output) + [Emit(s, ctxt, value).value]
    ensures Emit(s, ctxt, value).Failure? ==> outcome == Fail(Emit(s, ctxt, value).error) && gen.output == old(gen.output)
  {
    if !IsPresent(value) {
      gen.WriteNull();
      return Pass;
    }
    var content := Get(value).value;
    if content.None? {
      gen.WriteNull();
      outcome := Pass;
    } else if s.contentSerializer.Some? {
      var written := s.contentSerializer.value.serialize(content.value);
      match written
      case Success(tree) =>
        gen.WriteTree(tree);
        outcome := Pass;
      case Failure(e) =>
        outcome := Fail(e);
    } else {
      var written := ctxt.writePOJO(content.value);
      match written
      case Success(tree) =>
        gen.WriteTree(tree);
        outcome := Pass;
      case Failure(e) =>
        outcome := Fail(e);
    }
  }

  /** The content type: type argument 0 of the property's declared type; nothing without a property. */
  function PropertyContentType(property: Option<BeanProperty>): Option<JavaType>
  {
    match property
    case Some(p) => ContainedType(p.propertyType, 0)
    case None => None
  }

  /**
   * `createContextual`: a new serializer bound to the value serializer found for
   * the property's type argument 0; `this` for a null property or an unresolvable type.
   */
  function CreateContextual<T>(s: Serializer<T>, ctxt: SerializationContext<T>, property: Option<BeanProperty>): (r: Serializer<T>)
    ensures property.None? ==> r == s
    ensures PropertyContentType(property).None? ==> r == s
    ensures PropertyContentType(property).Some? ==>
      r.contentSerializer == Some(ctxt.findValueSerializer(PropertyContentType(property).value))
  {
    if property.Some? then
      var contentType := ContainedType(property.value.propertyType, 0);
      if contentType.Some? then Serializer(Some(ctxt.findValueSerializer(contentType.value)))
      else s
    else s
  }

  /** Specializing twice for the same property gives the same serializer as specializing once. */
  lemma CreateContextualIdempotent<T>(s: Serializer<T>, ctxt: SerializationContext<T>, property: Option<BeanProperty>)
    ensures CreateContextual(CreateContextual(s, ctxt, property), ctxt, property) == CreateContextual(s, ctxt, property)
  {
  }

  /** Writing is a function of the container alone: present-null and undefined write the same `null`. */
  lemma EmitNullCases<T>(s: Serializer<T>, ctxt: SerializationContext<T>)
    ensures Emit(s, ctxt, Of(None)) == Success(JNull)
    ensures Emit(s, ctxt, UndefinedValue()) == Success(JNull)
  {
  }
}
