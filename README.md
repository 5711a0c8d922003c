# NullableValue: a tri-state field container and its JSON and validation adapters

This project models, in Dafny, the core of a Spring Boot starter. The starter gives PATCH-style JSON APIs a tri-state field type, `NullableValue<T>`. A field can be in one of three states:

- **undefined**: the key is missing, so the field is left unchanged;
- **present-null**: the key is present with `null`, so the field is cleared;
- **present**: the key holds a value, so the field is replaced.

The model covers:

- **`NullableValues`**: the container. It is `Undefined | Present(Option<T>)`, where `None` stands for Java `null`. The module has `undefined`, `of`, `isPresent`, `get`, `orElse`, `ifPresent`, `map`, `equals`, `hashCode` and `toString`.
- **`NullableValueDeserializer`**: the Jackson deserializer. It has three hooks:
  - the absent hook maps a missing key to undefined;
  - the null hook maps the `null` literal to present-null;
  - the value path maps any other value to present, using the content deserializer.

  `createContextual` binds the deserializer to type argument 0 of the property's type, or of the contextual type.
- **`NullableValueSerializer`**: the Jackson serializer.
  - `isEmpty` decides whether the field is omitted.
  - `serialize` appends to a `JsonGenerator`. It writes `null`, or delegates to a content serializer or to `writePOJO`. It is proved against the function `Emit`.
  - `createContextual` binds the serializer from the property's type argument.
- **`NullableValueExtractor`**: the Jakarta Bean Validation value extractor (chapter 7 of the Bean Validation specification, "Value extraction"). It passes the stored value to a `ValueReceiver` for a present container, even when that value is `null`. It passes nothing for a null reference or an undefined container.
- **`NullableValueRoundTrip`**: one field written and read back through the host. The host omits the field exactly when `isEmpty` holds. That is the inclusion override that `NullableValueModule` installs, and here it is a hypothesis. Under it, all three states survive encode then decode.
- **`PatchRequests`**: a request object whose properties are all containers, as in the tests. It holds:
  - an inductive round-trip proof for a whole object;
  - the three PATCH scenarios of the integration tests, as concrete lemmas.
- **`Jackson`** and **`Wrappers`**: the Jackson interface this code relies on, and the `Option`, `Result` and `Outcome` types.

The host framework is Jackson. Its services are parameters of the model: `readTreeAsValue`, `writePOJO`, `findValueSerializer`, `findContextualValueDeserializer` and the contextual type. `JavaType.containedType` is modelled concretely, as the type-argument list of a type descriptor.

Three behaviours of the code are worth stating plainly:

- A present container renders as `NullableValue[<value>]` and the undefined one as `NullableValue.undefined`.
- `serialize` writes `null` if it is ever reached for an undefined container.
- The serializer's `createContextual` looks only at the property. With no property it stays unbound and does not fall back to the contextual type. The deserializer's `createContextual` does use the contextual type.

## Model

| member | source | states |
|---|---|---|
| NullableValues.UndefinedValue | src/main/java/io/github/rav316/nullablevalue/NullableValue.java:20-23 | `undefined()` is never present, and `get` on it fails with `NoSuchElement("Value is undefined")` |
| NullableValues.Of | src/main/java/io/github/rav316/nullablevalue/NullableValue.java:25-27 | `of(x)` is present for every `x`, including `null`, and `get` returns exactly `x` |
| NullableValues.IsPresent | src/main/java/io/github/rav316/nullablevalue/NullableValue.java:29-31 | `isPresent()` is false exactly for the undefined container, so it is true for `of(x)` with any `x`, `null` included |
| NullableValues.Get | src/main/java/io/github/rav316/nullablevalue/NullableValue.java:33-38 | `get` fails exactly on an undefined container, with `NoSuchElement("Value is undefined")`. On success, the container is `of` the returned value, `null` included |
| NullableValues.OrElse | src/main/java/io/github/rav316/nullablevalue/NullableValue.java:40-42 | When present, the result is what `get` returns, even `null`. The default is returned only when undefined |
| NullableValues.IfPresent | src/main/java/io/github/rav316/nullablevalue/NullableValue.java:44-48 | The action is called exactly once when present, with `get`'s value (also `null`). It is never called when undefined |
| NullableValues.Map | src/main/java/io/github/rav316/nullablevalue/NullableValue.java:50-53 | Presence is preserved. Present-null maps to present-null. `of(x)` with non-null `x` maps to `of(mapper(x))`, and the mapper may itself return `null` |
| NullableValues.MapIgnoresMapperWithoutValue | src/main/java/io/github/rav316/nullablevalue/NullableValue.java:50-53 | For undefined and present-null, the result does not depend on the mapper, so the mapper is not consulted |
| NullableValues.MapComposes | src/main/java/io/github/rav316/nullablevalue/NullableValue.java:50-53 | Two maps equal one map with the null-skipping composition of the two mappers |
| NullableValues.MapIdentity | src/main/java/io/github/rav316/nullablevalue/NullableValue.java:50-53 | Mapping with the identity returns the container unchanged |
| NullableValues.Equals | src/main/java/io/github/rav316/nullablevalue/NullableValue.java:55-60 | Comparing the presence flags and stored values is exactly value identity of the containers. A `null` argument is never equal |
| NullableValues.EqualsIsEquivalence | src/main/java/io/github/rav316/nullablevalue/NullableValue.java:55-60 | `equals` is reflexive, symmetric and transitive, and never holds against `null` |
| NullableValues.EqualsCases | src/main/java/io/github/rav316/nullablevalue/NullableValue.java:55-60 | All undefined values are equal, and `of(x)` never equals undefined (`of(null)` included). `of(x)` equals `of(y)` if and only if `x == y` |
| NullableValues.HashCode | src/main/java/io/github/rav316/nullablevalue/NullableValue.java:62-65 | `Objects.hash(value, present)` in 32-bit `int` arithmetic, so the result is always a Java `int` |
| NullableValues.HashCodeConsistentWithEquals | src/main/java/io/github/rav316/nullablevalue/NullableValue.java:55-65 | Equal containers have equal hash codes |
| NullableValues.HashCodeOfEmptyContainers | src/main/java/io/github/rav316/nullablevalue/NullableValue.java:62-65 | Undefined hashes to 2198 and `of(null)` to 2192, whatever the element hash |
| NullableValues.ToString | src/main/java/io/github/rav316/nullablevalue/NullableValue.java:67-70 | An undefined container renders as `NullableValue.undefined`. A present one renders as `NullableValue[`, then `String.valueOf` of its stored value (`null` for `null`), then `]` |
| NullableValues.ToStringUndefinedIff | src/main/java/io/github/rav316/nullablevalue/NullableValue.java:67-70 | The text is `NullableValue.undefined` if and only if the container is undefined |
| NullableValues.ToStringInjective | src/main/java/io/github/rav316/nullablevalue/NullableValue.java:67-70 | Take two present containers, an injective element rendering, and elements that never render as `null`. If their texts are equal, the containers are equal |
| NullableValues.ToStringAmbiguousOnNullText | src/main/java/io/github/rav316/nullablevalue/NullableValue.java:67-70 | A value that renders as `null` prints exactly like present-null, so the previous hypothesis is needed |
| NullableValues.UnitTestVectors | src/test/java/io/github/rav316/nullablevalue/NullableValueTest.java:13-118 | The concrete results the unit tests expect, except `a.hashCode() == b.hashCode()`, which `HashCodeConsistentWithEquals` states for every element hash |
| NullableValueDeserializer.NewDeserializer | src/main/java/io/github/rav316/nullablevalue/NullableValueDeserializer.java:14-17 | The registered deserializer has no content type and no content deserializer |
| NullableValueDeserializer.Deserialize | src/main/java/io/github/rav316/nullablevalue/NullableValueDeserializer.java:24-30 | The value path always yields a present container, never undefined, holding the content value unchanged (`null` included). A content failure propagates with the same error |
| NullableValueDeserializer.GetNullValue | src/main/java/io/github/rav316/nullablevalue/NullableValueDeserializer.java:32-35 | The `null` literal yields present-null, whatever the content type |
| NullableValueDeserializer.GetAbsentValue | src/main/java/io/github/rav316/nullablevalue/NullableValueDeserializer.java:37-40 | A missing key yields undefined |
| NullableValueDeserializer.DecodeField | src/main/java/io/github/rav316/nullablevalue/NullableValueDeserializer.java:24-40 | A result is undefined if and only if the key is missing, and then no input is read. A `null` literal gives present-null. A value goes to `deserialize` |
| NullableValueDeserializer.CreateContextual | src/main/java/io/github/rav316/nullablevalue/NullableValueDeserializer.java:42-53 | If type argument 0 of the wrapper type resolves, the result is bound to it and to the content deserializer found for it. The wrapper type is the property's type, else the contextual type. Otherwise the deserializer is returned unchanged |
| NullableValueDeserializer.CreateContextualIdempotent | src/main/java/io/github/rav316/nullablevalue/NullableValueDeserializer.java:42-53 | Specializing twice for one context gives the same deserializer as specializing once |
| NullableValueDeserializer.ContextualDeserialize | src/main/java/io/github/rav316/nullablevalue/NullableValueDeserializer.java:24-53 | After specialization, a value is decoded by the content deserializer found for the resolved content type. When nothing resolves, it is read as `Object` |
| NullableValueSerializer.NewSerializer | src/main/java/io/github/rav316/nullablevalue/NullableValueSerializer.java:13-15 | The registered serializer has no content serializer |
| NullableValueSerializer.IsEmpty | src/main/java/io/github/rav316/nullablevalue/NullableValueSerializer.java:37-40 | Empty if and only if the reference is null or the container is undefined. Present-null is not empty |
| NullableValueSerializer.Emit | src/main/java/io/github/rav316/nullablevalue/NullableValueSerializer.java:21-35 | Undefined and present-null write `null` without a content serializer. A non-null value goes to the bound content serializer, else to `writePOJO`, and any failure passes through |
| NullableValueSerializer.Serialize | src/main/java/io/github/rav316/nullablevalue/NullableValueSerializer.java:21-35 | The generator's output grows by exactly the value `Emit` gives. On a content failure, nothing is appended and the failure is reported |
| NullableValueSerializer.CreateContextual | src/main/java/io/github/rav316/nullablevalue/NullableValueSerializer.java:42-52 | Binds only for a non-null property whose type argument 0 resolves, to the serializer found for it. Otherwise the serializer is returned unchanged |
| NullableValueSerializer.CreateContextualIdempotent | src/main/java/io/github/rav316/nullablevalue/NullableValueSerializer.java:42-52 | Specializing twice for one property gives the same serializer as specializing once |
| NullableValueSerializer.EmitNullCases | src/main/java/io/github/rav316/nullablevalue/NullableValueSerializer.java:23-29 | Present-null, and undefined if it ever reaches `serialize`, both write the `null` literal |
| NullableValueExtractor.Extracted | src/main/java/io/github/rav316/nullablevalue/NullableValueExtractor.java:11-16 | There are no receiver calls for a null reference or an undefined container. A present one gets exactly one call with no node name, carrying the stored value, even `null` |
| NullableValueExtractor.ExtractValues | src/main/java/io/github/rav316/nullablevalue/NullableValueExtractor.java:11-16 | The receiver's calls grow by exactly `Extracted`. `get` is reached only after the presence check, so extraction cannot fail |
| NullableValueExtractor.SatisfiesNotNull | src/main/java/io/github/rav316/nullablevalue/NullableValueExtractor.java:7-16 | Through the extractor, a not-null constraint on the content fails exactly for present-null. It holds for an omitted field |
| NullableValueRoundTrip.FieldRoundTrip | src/main/java/io/github/rav316/nullablevalue/NullableValueSerializer.java:21-40 | Take a field omitted if and only if `isEmpty`, with content codecs that invert each other. Decoding the written field gives back undefined, present-null or present exactly. Writing fails only through the content serializer, with its error |
| NullableValueRoundTrip.AlwaysIncludedUndefinedReadsAsNull | src/main/java/io/github/rav316/nullablevalue/NullableValueModule.java:15-22 | Without the inclusion override, undefined is written as `null` and reads back as present-null, not undefined |
| PatchRequests.ObjectRoundTrip | src/test/java/io/github/rav316/nullablevalue/NullableValueJacksonTest.java:34-100 | Take an object with distinct property names whose content codecs invert each other. Reading back the members written for it gives every property its original container |
| PatchRequests.TextObjectRoundTrip | src/test/java/io/github/rav316/nullablevalue/NullableValueJacksonTest.java:76-100 | For text containers, writing never fails and reading gives back every property's state |
| PatchRequests.PatchWithValue | src/test/java/io/github/rav316/nullablevalue/NullableValueIntegrationTest.java:77-89 | `{"name":"John","email":"john@example.com"}` reads as two present values |
| PatchRequests.PatchWithNull | src/test/java/io/github/rav316/nullablevalue/NullableValueIntegrationTest.java:91-103 | `{"name":"John","email":null}` reads name as present `"John"` and email as present-null |
| PatchRequests.PatchWithUndefined | src/test/java/io/github/rav316/nullablevalue/NullableValueIntegrationTest.java:105-116 | `{"name":"John"}` reads name as present `"John"` and email as undefined |
| PatchRequests.SerializeWithValue | src/test/java/io/github/rav316/nullablevalue/NullableValueJacksonTest.java:76-88 | Present `"John"` and `"john@example.com"` are written as the members `"name":"John"` and `"email":"john@example.com"` |
| PatchRequests.SerializeWithNull | src/test/java/io/github/rav316/nullablevalue/NullableValueJacksonTest.java:90-100 | A present-null email is written as the member `"email":null`, next to `"name":"John"` |
| PatchRequests.SerializeWithUndefined | src/main/java/io/github/rav316/nullablevalue/NullableValueModule.java:15-22 | Under the inclusion override an undefined email is omitted, so only `"name":"John"` is written. No test in the repository checks this |

## Left out

- Java's reference identity is not modelled. Undefined is a payload-free tag, so "one shared instance" becomes "all undefined values are the same value".
- Java `null` references are modelled as `None`. This covers the `isEmpty` and `extractValues` arguments and the `equals` argument. For `equals`, an argument of another class is also `None`.
- NullableValues.Equals: containers with different type arguments are not compared. The elements' own `equals` is modelled as value equality.
- NullableValues.HashCode: the elements' `hashCode` is a parameter.
- NullableValues.ToString: the elements' `toString` is a parameter, and `null` renders as `null`.
- NullableValues.IfPresent: the callback's own effects are outside the model. Only the arguments it receives are modelled.
- NullableValues.Map: the mapper is a pure function. Its side effects, and exceptions thrown from it, are not modelled.
- Jackson parsing is not modelled. Token streams, `readTree`, and how far a content deserializer advances the parser are replaced by the JSON value of the member, so a content deserializer maps a whole JSON value.
- NullableValueSerializer.Serialize: partial output is not modelled. A content serializer that writes tokens and then throws is modelled as having written nothing.
- PatchRequests.SerializeObject: written members follow the order of the property list. Jackson orders bean properties by its own rules (`@JsonPropertyOrder`, `MapperFeature.SORT_PROPERTIES_ALPHABETICALLY`), so the scenario lemmas' exact member sequences hold for declaration order only.
- NullableValueDeserializer.CreateContextual: `findContextualValueDeserializer` is a total parameter. Jackson throws when it cannot build a deserializer for the content type, and that failure is not modelled.
- NullableValueSerializer.CreateContextual: `findValueSerializer` is a total parameter. Jackson throws when it cannot build a serializer for the content type, and that failure is not modelled.
- Jackson.WireOf: for a key that occurs more than once, only the last occurrence is read. Jackson deserializes every occurrence in input order, so an earlier duplicate whose content fails makes the whole read fail. The model does not capture that failure.
- NullableValueSerializer.Serialize: the generator's `writeNull` and value writes never fail. An I/O failure while writing is not modelled.
- JSON numbers are integers. Floating point is not modelled.
- The registration glue in `NullableValueModule.java` is not modelled, apart from its inclusion override. Nor are the Spring autoconfiguration classes or the MockMvc test harness. The override is the omission rule "omit if and only if `isEmpty`", and it is a hypothesis of the round-trip lemmas.
- For setter-based beans, Jackson leaves a field with a missing key at its initializer, which is `undefined()` in the tests. It does not call `getAbsentValue`. The model applies the absent hook, and both give undefined.
- PatchRequests is limited in three ways:
  - every property of an object has the same content type, so the tests' `Integer` `age` field is not modelled;
  - keys that no property declares are ignored, and the `FAIL_ON_UNKNOWN_PROPERTIES` setting is not modelled;
  - properties are read in declaration order, so when several fields fail, the model may report a different error first than Jackson.
- Encoding idempotence needs no lemma. `Emit` is a function, so the same container always yields the same output.
- The unused `ctxt` argument of `isEmpty` is left out.
- Concurrency is left out. Every value is immutable and there is nothing to synchronize.
