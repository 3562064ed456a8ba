/**
 * PropertyWriter: writes one declared property of an instance under the table key it was
 * registered with. The writer, the instance and the options the source binds at construction
 * are passed to Write here.
 */
module PropertyWriters {
  import opened JsonTokens
  import opened ClrTypes
  import opened JsonOptions
  import opened ExtensibleObjects

  /** The member name (the property table's key) and the property whose value is written. */
  datatype PropertyWriter = PropertyWriter(memberName: string, property: PropertyInfo)

  /**
   * The tokens written for a property holding value: the shape WriteSpec lays out for each
   * property writer, and the link the round-trip lemmas rely on.
   */
  function PropertyTokens(options: SerializerOptions, w: PropertyWriter, value: seq<Token>): seq<Token>
  {
    if value == [Null] && options.ignoreNullValues then []
    else [PropertyName(ConvertPropertyName(options, w.memberName))] + value
  }

  /**
   * Write: the value is read from the instance; a null value under IgnoreNullValues writes
   * nothing, any other value writes exactly one member name (the key through the naming
   * policy, or the key itself without one) followed by the value. The first ensures ties the
   * output to PropertyTokens, the form the converter's writing lemmas use; the others state it.
   */
  method Write(w: PropertyWriter, instance: ExtensibleObject, options: SerializerOptions) returns (out: seq<Token>)
    requires w.property in instance.values
    ensures out == PropertyTokens(options, w, instance.values[w.property])
    ensures instance.values[w.property] == [Null] && options.ignoreNullValues ==> out == []
    ensures !(instance.values[w.property] == [Null] && options.ignoreNullValues) ==>
      |out| >= 1 && out[0] == PropertyName(ConvertPropertyName(options, w.memberName))
      && out[1..] == instance.values[w.property]
    ensures KeepsNames(options) && out != [] ==> out[0] == PropertyName(w.memberName)
  {
    var value := instance.values[w.property];
    if value == [Null] && options.ignoreNullValues {
      return [];
    }
    out := [PropertyName(ConvertPropertyName(options, w.memberName))] + value;
  }
}
