/**
 * `NullableValueExtractor`: the value extractor (Jakarta Bean Validation,
 * chapter 7, "Value extraction") that lets constraints declared on a
 * container field be checked against the value it holds. It is unwrap-by-default.
 */
module NullableValueExtractor {
  import opened Wrappers
  import opened NullableValues

  /** One call `receiver.value(nodeName, object)`; both arguments may be `null`. */
  datatype ExtractedValue<T> = ExtractedValue(nodeName: Option<string>, extracted: Option<T>)

  /** The engine's `ValueReceiver`, modelled by the calls it has received. */
  class ValueReceiver<T> {
    var received: seq<ExtractedValue<T>>

    constructor ()
      ensures received == []
    {
      received := [];
    }

    /** `value(nodeName, object)`: records one extracted value. */
    method Value(nodeName: Option<string>, extracted: Option<T>)
      modifies this
      ensures received == old(received) + [ExtractedValue(nodeName, extracted)]
    {
      received := received + [ExtractedValue(nodeName, extracted)];
    }
  }

  /**
   * The calls `extractValues` makes: none for a null reference (`None`) or an
   * undefined container, one carrying the stored value, `null` included, with no node name.
   */
  function Extracted<T>(originalValue: Option<NullableValue<T>>): (calls: seq<ExtractedValue<T>>)
    ensures |calls| <= 1
    ensures calls == [] <==> originalValue.None? || !IsPresent(originalValue.value)
    ensures calls != [] ==> calls[0].nodeName.None? && Get(originalValue.value) == Success(calls[0].extracted)
  {
    match originalValue
    case Some(Present(x)) => [ExtractedValue(None, x)]
    case _ => []
  }

  /**
   * `extractValues(originalValue, receiver)`: `get()` is only reached after the
   * presence check, so extraction never fails.
   */
  method ExtractValues<T>(originalValue: Option<NullableValue<T>>, receiver: ValueReceiver<T>)
    modifies receiver
    ensures receiver.received == old(receiver.received) + Extracted(originalValue)
  {
    if originalValue.None? || !IsPresent(originalValue.value) {
      return;
    }
    receiver.Value(None, Get(originalValue.value).value);
  }

  /**
   * A `@NotNull` constraint on the content type, checked through the extractor:
   * it fails exactly when the field holds an explicit `null`, and never for an omitted field.
   */
  method SatisfiesNotNull<T>(field: Option<NullableValue<T>>) returns (valid: bool)
    ensures valid <==> field != Some(Of(None))
  {
    var receiver := new ValueReceiver<T>();
    ExtractValues(field, receiver);
    assert receiver.received == Extracted(field);
    valid := forall i | 0 <= i < |receiver.received| :: receiver.received[i].extracted.Some?;
  }
}
