/**
 * A PATCH request body whose declared properties are all containers, written
 * and read by the host field by field with the registered (unbound) codecs
 * specialized to each property. Used for the end-to-end scenarios of the
 * Jackson and integration tests and for the round trip of a whole object.
 */
module PatchRequests {
  import opened Wrappers
  import opened Jackson
  import opened NullableValues
  import De = NullableValueDeserializer
  import Ser = NullableValueSerializer
  import opened NullableValueRoundTrip

  /** The serializer the host uses for `property`: the registered one, specialized. */
  function SerializerFor<T>(sctx: Ser.SerializationContext<T>, property: BeanProperty): Ser.Serializer<T>
  {
    Ser.CreateContextual(Ser.NewSerializer(), sctx, Some(property))
  }

  /** The deserializer the host uses for `property`: the registered one, specialized. */
  function DeserializerFor<T>(dctx: De.DeserializationContext<T>, property: BeanProperty): De.Deserializer<T>
  {
    De.CreateContextual(De.NewDeserializer(), dctx, Some(property))
  }

  function Names(props: seq<BeanProperty>): (names: seq<string>)
    ensures |names| == |props|
    ensures forall i :: 0 <= i < |props| ==> names[i] == props[i].name
  {
    seq(|props|, i requires 0 <= i < |props| => props[i].name)
  }

  predicate DistinctNames(props: seq<BeanProperty>)
  {
    forall i, j :: 0 <= i < j < |props| ==> props[i].name != props[j].name
  }

  /**
   * The members written for `values`, in property order: a field is omitted
   * exactly when `isEmpty` holds; the first content failure aborts the object.
   */
  function SerializeObject<T>(sctx: Ser.SerializationContext<T>, props: seq<BeanProperty>, values: seq<NullableValue<T>>)
    : Result<seq<(string, Json)>, CodecError>
    requires |props| == |values|
    decreases |props|
  {
    if props == [] then Success([])
    else
      var n := |props| - 1;
      match SerializeObject(sctx, props[..n], values[..n])
      case Failure(e) => Failure(e)
      case Success(members) =>
        match WriteField(SerializerFor(sctx, props[n]), sctx, values[n], Ser.IsEmpty(Some(values[n])))
        case Failure(e) => Failure(e)
        case Success(Omitted) => Success(members)
        case Success(Written(tree)) => Success(members + [(props[n].name, tree)])
  }

  /** The container each declared property receives from the members of a JSON object. */
  function DeserializeObject<T>(dctx: De.DeserializationContext<T>, props: seq<BeanProperty>, members: seq<(string, Json)>)
    : (r: Result<seq<NullableValue<T>>, CodecError>)
    ensures r.Success? ==> |r.value| == |props|
    decreases |props|
  {
    if props == [] then Success([])
    else
      var n := |props| - 1;
      match DeserializeObject(dctx, props[..n], members)
      case Failure(e) => Failure(e)
      case Success(values) =>
        match De.DecodeField(DeserializerFor(dctx, props[n]), dctx, WireOf(members, props[n].name))
        case Failure(e) => Failure(e)
        case Success(nv) => Success(values + [nv])
  }

  /** Reading one more property appends its container, or fails with its error. */
  lemma DeserializeObjectStep<T>(dctx: De.DeserializationContext<T>, props: seq<BeanProperty>, p: BeanProperty,
                                 members: seq<(string, Json)>)
    ensures DeserializeObject(dctx, props + [p], members)
         == match DeserializeObject(dctx, props, members)
            case Failure(e) => Failure(e)
            case Success(values) =>
              match De.DecodeField(DeserializerFor(dctx, p), dctx, WireOf(members, p.name))
              case Failure(e) => Failure(e)
              case Success(nv) => Success(values + [nv])
  {
    assert (props + [p])[..|props|] == props;
  }

  /** Writing one more property appends its member unless it is omitted, or fails with its error. */
  lemma SerializeObjectStep<T>(sctx: Ser.SerializationContext<T>, props: seq<BeanProperty>, values: seq<NullableValue<T>>,
                               p: BeanProperty, nv: NullableValue<T>)
    requires |props| == |values|
    ensures SerializeObject(sctx, props + [p], values + [nv])
         == match SerializeObject(sctx, props, values)
            case Failure(e) => Failure(e)
            case Success(members) =>
              match WriteField(SerializerFor(sctx, p), sctx, nv, Ser.IsEmpty(Some(nv)))
              case Failure(e) => Failure(e)
              case Success(Omitted) => Success(members)
              case Success(Written(tree)) => Success(members + [(p.name, tree)])
  {
    assert (props + [p])[..|props|] == props;
    assert (values + [nv])[..|values|] == values;
  }

  /** Every key written is the name of a declared property. */
  lemma {:induction false} SerializedKeysAreDeclared<T>(sctx: Ser.SerializationContext<T>, props: seq<BeanProperty>, values: seq<NullableValue<T>>)
    requires |props| == |values|
    ensures SerializeObject(sctx, props, values).Success? ==>
      forall j :: 0 <= j < |SerializeObject(sctx, props, values).value| ==>
        SerializeObject(sctx, props, values).value[j].0 in Names(props)
  {
    if props != [] {
      var n := |props| - 1;
      SerializedKeysAreDeclared(sctx, props[..n], values[..n]);
      assert Names(props[..n]) == Names(props)[..n];
    }
  }

  /** A member whose key no declared property has does not change what the properties read. */
  lemma {:induction false} UndeclaredMemberIgnored<T>(dctx: De.DeserializationContext<T>, props: seq<BeanProperty>,
                                                     members: seq<(string, Json)>, extra: (string, Json))
    requires extra.0 !in Names(props)
    ensures DeserializeObject(dctx, props, members + [extra]) == DeserializeObject(dctx, props, members)
  {
    if props != [] {
      var n := |props| - 1;
      assert Names(props[..n]) == Names(props)[..n];
      UndeclaredMemberIgnored(dctx, props[..n], members, extra);
      assert (members + [extra])[..|members|] == members;
      assert props[n].name == Names(props)[n];
      assert WireOf(members + [extra], props[n].name) == WireOf(members, props[n].name);
    }
  }

  /** The content codecs of every property invert each other on that property's non-null value. */
  ghost predicate ContentsRoundTrip<T>(sctx: Ser.SerializationContext<T>, dctx: De.DeserializationContext<T>,
                                       props: seq<BeanProperty>, values: seq<NullableValue<T>>)
    requires |props| == |values|
  {
    forall i :: 0 <= i < |props| && OrElse(values[i], None).Some? ==>
      ContentRoundTrips(SerializerFor(sctx, props[i]), sctx, DeserializerFor(dctx, props[i]), dctx, OrElse(values[i], None).value)
  }

  /**
   * Round trip of a whole object: reading back the members written for `values`
   * gives every property its original container, undefined, present-null or present.
   */
  lemma {:induction false} ObjectRoundTrip<T>(sctx: Ser.SerializationContext<T>, dctx: De.DeserializationContext<T>,
                                             props: seq<BeanProperty>, values: seq<NullableValue<T>>)
    requires |props| == |values|
    requires DistinctNames(props)
    requires ContentsRoundTrip(sctx, dctx, props, values)
    ensures SerializeObject(sctx, props, values).Success? ==>
      DeserializeObject(dctx, props, SerializeObject(sctx, props, values).value) == Success(values)
  {
    if props != [] && SerializeObject(sctx, props, values).Success? {
      var n := |props| - 1;
      var p, v := props[n], values[n];
      var init, initValues := props[..n], values[..n];
      assert ContentsRoundTrip(sctx, dctx, init, initValues) by {
        forall i | 0 <= i < |init| && OrElse(initValues[i], None).Some?
          ensures ContentRoundTrips(SerializerFor(sctx, init[i]), sctx, DeserializerFor(dctx, init[i]), dctx, OrElse(initValues[i], None).value)
        {
          assert init[i] == props[i] && initValues[i] == values[i];
        }
      }
      ObjectRoundTrip(sctx, dctx, init, initValues);
      var members := SerializeObject(sctx, init, initValues).value;
      SerializedKeysAreDeclared(sctx, init, initValues);
      assert Names(init) == Names(props)[..n];
      assert p.name !in Names(init) by {
        forall i | 0 <= i < n ensures Names(init)[i] != p.name {
          assert Names(init)[i] == props[i].name;
        }
      }
      var s, d := SerializerFor(sctx, p), DeserializerFor(dctx, p);
      var omit := Ser.IsEmpty(Some(v));
      FieldRoundTrip(s, sctx, d, dctx, v, omit);
      var out := WriteField(s, sctx, v, omit).value;
      assert props[..n] == init && values == initValues + [v];
      match out
      case Omitted =>
        assert WireOf(members, p.name) == Absent;
      case Written(tree) =>
        UndeclaredMemberIgnored(dctx, init, members, (p.name, tree));
        assert Lookup(members + [(p.name, tree)], p.name) == Some(tree);
        assert WireOf(members + [(p.name, tree)], p.name) == WireOfOutput(out);
    }
  }

  const StringType := JavaType("java.lang.String", [])

  /** The declared type `NullableValue<content>`. */
  function NullableValueOf(content: JavaType): JavaType
  {
    JavaType("io.github.rav316.nullablevalue.NullableValue", [content])
  }

  const NameProperty := BeanProperty("name", NullableValueOf(StringType))
  const EmailProperty := BeanProperty("email", NullableValueOf(StringType))

  /** Reads a text value; any other JSON value is a content failure. */
  function ReadText(tree: Json): Result<Option<string>, CodecError>
  {
    match tree
    case JString(text) => Success(Some(text))
    case _ => Failure(CodecError("Cannot deserialize value of type `java.lang.String`"))
  }

  /** A host whose content serializers write text values as JSON strings. */
  function TextSerializationContext(): Ser.SerializationContext<string>
  {
    Ser.SerializationContext(
      (text: string) => Success(JString(text)),
      (t: JavaType) => Ser.ContentSerializer((text: string) => Success(JString(text))))
  }

  /** A host whose content deserializers read JSON strings as text values. */
  function TextDeserializationContext(): De.DeserializationContext<string>
  {
    De.DeserializationContext(
      None,
      (tree: Json, t: JavaType) => ReadText(tree),
      (t: JavaType, p: Option<BeanProperty>) => De.ContentDeserializer(ReadText))
  }

  /** Writing an object of text containers never fails. */
  lemma {:induction false} TextSerializationSucceeds(props: seq<BeanProperty>, values: seq<NullableValue<string>>)
    requires |props| == |values|
    ensures SerializeObject(TextSerializationContext(), props, values).Success?
  {
    if props != [] {
      var n := |props| - 1;
      TextSerializationSucceeds(props[..n], values[..n]);
    }
  }

  /**
   * Every object of text containers with distinct property names is read back
   * as written: each property keeps its undefined, present-null or present state.
   */
  lemma TextObjectRoundTrip(props: seq<BeanProperty>, values: seq<NullableValue<string>>)
    requires |props| == |values|
    requires DistinctNames(props)
    ensures SerializeObject(TextSerializationContext(), props, values).Success?
    ensures DeserializeObject(TextDeserializationContext(), props,
                              SerializeObject(TextSerializationContext(), props, values).value) == Success(values)
  {
    var sctx, dctx := TextSerializationContext(), TextDeserializationContext();
    TextSerializationSucceeds(props, values);
    forall i | 0 <= i < |props| && OrElse(values[i], None).Some?
      ensures ContentRoundTrips(SerializerFor(sctx, props[i]), sctx, DeserializerFor(dctx, props[i]), dctx, OrElse(values[i], None).value)
    {
    }
    ObjectRoundTrip(sctx, dctx, props, values);
  }

  /** `{"name": "John", "email": "john@example.com"}`: both properties present with their text. */
  lemma PatchWithValue()
    ensures DeserializeObject(TextDeserializationContext(), [NameProperty, EmailProperty],
                              [("name", JString("John")), ("email", JString("john@example.com"))])
         == Success([Of(Some("John")), Of(Some("john@example.com"))])
  {
    var members := [("name", JString("John")), ("email", JString("john@example.com"))];
    NameAndEmailProperties();
    assert WireOf(members, "name") == ValueToken(JString("John"));
    assert WireOf(members, "email") == ValueToken(JString("john@example.com"));
    TextFieldRead(NameProperty, JString("John"));
    TextFieldRead(EmailProperty, JString("john@example.com"));
    ReadNameThenEmail(members, Of(Some("John")), Of(Some("john@example.com")));
  }

  /** `{"name": "John", "email": null}`: name is present with its text, email is present-null. */
  lemma PatchWithNull()
    ensures DeserializeObject(TextDeserializationContext(), [NameProperty, EmailProperty],
                              [("name", JString("John")), ("email", JNull)])
         == Success([Of(Some("John")), Of(None)])
  {
    var members := [("name", JString("John")), ("email", JNull)];
    NameAndEmailProperties();
    assert WireOf(members, "name") == ValueToken(JString("John"));
    assert WireOf(members, "email") == NullToken;
    TextFieldRead(NameProperty, JString("John"));
    ReadNameThenEmail(members, Of(Some("John")), Of(None));
  }

  /** `{"name": "John"}`: name is present with its text, email is undefined. */
  lemma PatchWithUndefined()
    ensures DeserializeObject(TextDeserializationContext(), [NameProperty, EmailProperty],
                              [("name", JString("John"))])
         == Success([Of(Some("John")), UndefinedValue()])
  {
    var members := [("name", JString("John"))];
    NameAndEmailProperties();
    assert WireOf(members, "name") == ValueToken(JString("John"));
    assert WireOf(members, "email") == Absent;
    TextFieldRead(NameProperty, JString("John"));
    ReadNameThenEmail(members, Of(Some("John")), UndefinedValue());
  }

  /** Two present texts are written as two string members. */
  lemma SerializeWithValue()
    ensures SerializeObject(TextSerializationContext(), [NameProperty, EmailProperty],
                            [Of(Some("John")), Of(Some("john@example.com"))])
         == Success([("name", JString("John")), ("email", JString("john@example.com"))])
  {
    NameAndEmailProperties();
    WriteNameThenEmail(Of(Some("John")), Of(Some("john@example.com")));
    assert [("name", JString("John"))] + [("email", JString("john@example.com"))]
        == [("name", JString("John")), ("email", JString("john@example.com"))];
  }

  /** A present-null email is written as the member `"email": null`, not omitted. */
  lemma SerializeWithNull()
    ensures SerializeObject(TextSerializationContext(), [NameProperty, EmailProperty], [Of(Some("John")), Of(None)])
         == Success([("name", JString("John")), ("email", JNull)])
  {
    NameAndEmailProperties();
    WriteNameThenEmail(Of(Some("John")), Of(None));
    assert [("name", JString("John"))] + [("email", JNull)] == [("name", JString("John")), ("email", JNull)];
  }

  /** An undefined email is omitted: only the name member is written. */
  lemma SerializeWithUndefined()
    ensures SerializeObject(TextSerializationContext(), [NameProperty, EmailProperty], [Of(Some("John")), UndefinedValue()])
         == Success([("name", JString("John"))])
  {
    NameAndEmailProperties();
    WriteNameThenEmail(Of(Some("John")), UndefinedValue());
    assert [("name", JString("John"))] + [] == [("name", JString("John"))];
  }

  /** Reading the two scenario properties in order, given what each field reads. */
  lemma ReadNameThenEmail(members: seq<(string, Json)>, name: NullableValue<string>, email: NullableValue<string>)
    requires De.DecodeField(DeserializerFor(TextDeserializationContext(), NameProperty), TextDeserializationContext(),
                            WireOf(members, NameProperty.name)) == Success(name)
    requires De.DecodeField(DeserializerFor(TextDeserializationContext(), EmailProperty), TextDeserializationContext(),
                            WireOf(members, EmailProperty.name)) == Success(email)
    ensures DeserializeObject(TextDeserializationContext(), [NameProperty, EmailProperty], members) == Success([name, email])
  {
    var dctx := TextDeserializationContext();
    assert DeserializeObject(dctx, [NameProperty], members) == Success([name]) by {
      DeserializeObjectStep(dctx, [], NameProperty, members);
      assert [] + [NameProperty] == [NameProperty] && [] + [name] == [name];
    }
    DeserializeObjectStep(dctx, [NameProperty], EmailProperty, members);
    assert [NameProperty] + [EmailProperty] == [NameProperty, EmailProperty] && [name] + [email] == [name, email];
  }

  /** Writing the two scenario properties in order, given what each field writes. */
  lemma WriteNameThenEmail(name: NullableValue<string>, email: NullableValue<string>)
    requires name.Present? && name.value.Some?
    ensures SerializeObject(TextSerializationContext(), [NameProperty, EmailProperty], [name, email])
         == Success([(NameProperty.name, JString(name.value.value))] + (
              match email
              case Undefined => []
              case Present(None) => [(EmailProperty.name, JNull)]
              case Present(Some(text)) => [(EmailProperty.name, JString(text))]))
  {
    var sctx := TextSerializationContext();
    TextFieldWritten(NameProperty, name);
    TextFieldWritten(EmailProperty, email);
    var written := [(NameProperty.name, JString(name.value.value))];
    assert SerializeObject(sctx, [NameProperty], [name]) == Success(written) by {
      SerializeObjectStep(sctx, [], [], NameProperty, name);
      assert [] + [NameProperty] == [NameProperty] && [] + [name] == [name] && [] + written == written;
    }
    SerializeObjectStep(sctx, [NameProperty], [name], EmailProperty, email);
    assert [NameProperty] + [EmailProperty] == [NameProperty, EmailProperty] && [name] + [email] == [name, email];
    if email.Undefined? {
      assert written + [] == written;
    }
  }

  /** What the specialized deserializer of a text property reads from a value token. */
  lemma TextFieldRead(p: BeanProperty, tree: Json)
    requires ContainedType(p.propertyType, 0) == Some(StringType)
    ensures De.DecodeField(DeserializerFor(TextDeserializationContext(), p), TextDeserializationContext(), ValueToken(tree))
         == match ReadText(tree) case Success(x) => Success(Of(x)) case Failure(e) => Failure(e)
  {
  }

  /** What the host writes for a text property under the inclusion override. */
  lemma TextFieldWritten(p: BeanProperty, nv: NullableValue<string>)
    requires ContainedType(p.propertyType, 0) == Some(StringType)
    ensures WriteField(SerializerFor(TextSerializationContext(), p), TextSerializationContext(), nv, Ser.IsEmpty(Some(nv)))
         == match nv
            case Undefined => Success(Omitted)
            case Present(None) => Success(Written(JNull))
            case Present(Some(text)) => Success(Written(JString(text)))
  {
  }

  /** The two properties of the scenarios: distinct names, both resolving to `String` content. */
  lemma NameAndEmailProperties()
    ensures "name" != "email"
    ensures ContainedType(NameProperty.propertyType, 0) == Some(StringType)
    ensures ContainedType(EmailProperty.propertyType, 0) == Some(StringType)
  {
    assert "name"[0] != "email"[0];
  }
}
