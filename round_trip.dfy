/**
 * One container field through the host: the serializer's `isEmpty` decides
 * omission (the inclusion override NullableValueModule installs), `serialize`
 * writes the value, and the deserializer's hooks read it back.
 */
module NullableValueRoundTrip {
  import opened Wrappers
  import opened Jackson
  import opened NullableValues
  import De = NullableValueDeserializer
  import Ser = NullableValueSerializer

  /** What the host writes for one field: nothing, or the value `serialize` emitted. */
  datatype FieldOutput = Omitted | Written(json: Json)

  /** The host writing one field, omitting it when `omit` holds; a content failure aborts the write. */
  function WriteField<T>(s: Ser.Serializer<T>, sctx: Ser.SerializationContext<T>, nv: NullableValue<T>, omit: bool): Result<FieldOutput, CodecError>
  {
    if omit then Success(Omitted)
    else match Ser.Emit(s, sctx, nv)
      case Success(tree) => Success(Written(tree))
      case Failure(e) => Failure(e)
  }

  /** How the reading host classifies what was written: no key, the `null` literal, or a value. */
  function WireOfOutput(out: FieldOutput): Wire
  {
    match out
    case Omitted => Absent
    case Written(JNull) => NullToken
    case Written(tree) => ValueToken(tree)
  }

  function ReadField<T>(d: De.Deserializer<T>, dctx: De.DeserializationContext<T>, out: FieldOutput): Result<NullableValue<T>, CodecError>
  {
    De.DecodeField(d, dctx, WireOfOutput(out))
  }

  /**
   * The content codecs invert each other on `x`: when the serializer side writes
   * `x` it writes a value other than the `null` literal, and the deserializer side
   * reads that value back as `x`.
   */
  ghost predicate ContentRoundTrips<T>(s: Ser.Serializer<T>, sctx: Ser.SerializationContext<T>,
                                 d: De.Deserializer<T>, dctx: De.DeserializationContext<T>, x: T)
  {
    match Ser.WriteContent(s, sctx, x)
    case Success(tree) => tree != JNull && De.ReadContent(d, dctx, tree) == Success(Some(x))
    case Failure(_) => true
  }

  /**
   * Encode then decode gives back the container, for all three states, provided
   * the field is omitted exactly when `isEmpty` holds and the content codecs
   * invert each other. The write fails only on a non-null value whose content
   * serializer fails, and then with that serializer's error.
   */
  lemma FieldRoundTrip<T>(s: Ser.Serializer<T>, sctx: Ser.SerializationContext<T>,
                          d: De.Deserializer<T>, dctx: De.DeserializationContext<T>,
                          nv: NullableValue<T>, omit: bool)
    requires omit == Ser.IsEmpty(Some(nv))
    requires OrElse(nv, None).Some? ==> ContentRoundTrips(s, sctx, d, dctx, OrElse(nv, None).value)
    ensures WriteField(s, sctx, nv, omit).Success? ==> ReadField(d, dctx, WriteField(s, sctx, nv, omit).value) == Success(nv)
    ensures WriteField(s, sctx, nv, omit).Failure? <==>
      OrElse(nv, None).Some? && Ser.WriteContent(s, sctx, OrElse(nv, None).value).Failure?
    ensures WriteField(s, sctx, nv, omit).Failure? ==>
      WriteField(s, sctx, nv, omit).error == Ser.WriteContent(s, sctx, OrElse(nv, None).value).error
  {
  }

  /**
   * Why the inclusion override is needed: a host that always writes the field
   * turns an undefined container into an explicit `null`, which reads back as
   * present-null.
   */
  lemma AlwaysIncludedUndefinedReadsAsNull<T>(s: Ser.Serializer<T>, sctx: Ser.SerializationContext<T>,
                                              d: De.Deserializer<T>, dctx: De.DeserializationContext<T>)
    ensures WriteField(s, sctx, UndefinedValue(), false) == Success(Written(JNull))
    ensures ReadField(d, dctx, Written(JNull)) == Success(Of(None))
    ensures ReadField(d, dctx, Written(JNull)) != Success(UndefinedValue())
  {
  }
}
