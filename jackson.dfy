/**
 * The parts of the Jackson data-binding API that the codec uses, modelled at
 * their interface: JSON values (RFC 8259, section 3), generic type descriptors,
 * bean properties, codec errors, the token sink, and how a bean deserializer
 * finds the wire state of one member of a JSON object.
 */
module Jackson {
  import opened Wrappers

  /** A JSON value; numbers are integers in this model. */
  datatype Json =
    | JNull
    | JBool(b: bool)
    | JNumber(n: int)
    | JString(s: string)
    | JArray(items: seq<Json>)
    | JObject(members: seq<(string, Json)>)

  /** A type descriptor: the raw class and its generic type arguments. */
  datatype JavaType = JavaType(rawClass: string, typeArgs: seq<JavaType>)

  const ObjectType := JavaType("java.lang.Object", [])

  /** `JavaType.containedType(index)`: the index-th type argument, or `null` when there is none. */
  function ContainedType(t: JavaType, index: nat): (r: Option<JavaType>)
    ensures r.Some? <==> index < |t.typeArgs|
    ensures r.Some? ==> r.value in t.typeArgs
  {
    if index < |t.typeArgs| then Some(t.typeArgs[index]) else None
  }

  /** A declared property of a bean: its JSON name and its declared (wrapper) type. */
  datatype BeanProperty = BeanProperty(name: string, propertyType: JavaType)

  /** An exception raised by a content serializer or deserializer. */
  datatype CodecError = CodecError(message: string)

  /**
   * The wire state of one object member as the host sees it: the key is
   * missing, its value is the `null` literal, or it holds another value.
   */
  datatype Wire = Absent | NullToken | ValueToken(tree: Json)

  /** The value of the last member named `key` (a later duplicate overrides an earlier one). */
  function Lookup(members: seq<(string, Json)>, key: string): (r: Option<Json>)
    ensures r.None? <==> forall i :: 0 <= i < |members| ==> members[i].0 != key
    ensures r.Some? ==> exists i :: 0 <= i < |members| && members[i] == (key, r.value) &&
                          forall j :: i < j < |members| ==> members[j].0 != key
  {
    if members == [] then None
    else if members[|members| - 1].0 == key then Some(members[|members| - 1].1)
    else
      var init := members[..|members| - 1];
      var r := Lookup(init, key);
      assert r.Some? ==> exists i :: 0 <= i < |members| - 1 && members[i] == (key, r.value) &&
                                     forall j :: i < j < |members| ==> members[j].0 != key by {
        if r.Some? {
          var i :| 0 <= i < |init| && init[i] == (key, r.value) && forall j :: i < j < |init| ==> init[j].0 != key;
          assert members[i] == init[i];
          forall j | i < j < |members| ensures members[j].0 != key {
            if j < |init| { assert members[j] == init[j]; }
          }
        }
      }
      r
  }

  /** How the host classifies the member named `key` before it calls a deserializer hook. */
  function WireOf(members: seq<(string, Json)>, key: string): (w: Wire)
    ensures w.Absent? <==> Lookup(members, key).None?
    ensures w.NullToken? <==> Lookup(members, key) == Some(JNull)
    ensures w.ValueToken? ==> Lookup(members, key) == Some(w.tree) && w.tree != JNull
  {
    match Lookup(members, key)
    case None => Absent
    case Some(JNull) => NullToken
    case Some(tree) => ValueToken(tree)
  }

  /** A `JsonGenerator`: the sink that a serializer appends JSON values to. */
  class JsonGenerator {
    var output: seq<Json>

    constructor ()
      ensures output == []
    {
      output := [];
    }

    /** `writeNull()`: appends the `null` literal. */
    method WriteNull()
      modifies this
      ensures output == old(output) + [JNull]
    {
      output := output + [JNull];
    }

    /** Appends a value produced by a content serializer or by `writePOJO`. */
    method WriteTree(tree: Json)
      modifies this
      ensures output == old(output) + [tree]
    {
      output := output + [tree];
    }
  }
}
