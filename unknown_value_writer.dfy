/**
 * Writing unknown members back (WriteExtensionMember and WriteExtensionData).
 *
 * EncodeValue and EncodeMember state the tokens an unknown value is meant to be written as: the
 * shape the reader decoded it from, with member names through the naming policy and null members
 * dropped under IgnoreNullValues. The methods follow the code as written, which hands a list item
 * that is not a nested object to the framework serializer: a null item then throws, and a nested
 * object inside a nested list is not written as an object (the predicates *Writable say exactly
 * which values the code can write).
 */
module UnknownValueWriter {
  import opened Wrappers
  import opened JsonTokens
  import opened ExtensionMembers
  import opened JsonOptions
  import opened UnknownValueReader

  /** The tokens of a value: an object of its members, an array of its items, or one scalar token. */
  function EncodeValue(options: SerializerOptions, v: Value): seq<Token>
    decreases v, 1
  {
    match v
    case ObjectValue(ms) => [StartObject] + EncodeMembers(options, ms, 0) + [EndObject]
    case ListValue(items) => [StartArray] + EncodeItems(options, items, 0) + [EndArray]
    case StringValue(s) => [String(s)]
    case NumberValue(n) => [Number(n)]
    case BoolValue(b) => if b then [True] else [False]
    case NullValue => [Null]
  }

  /** The members ms[i..] of a nested object, in ascending key order. */
  function EncodeMembers(options: SerializerOptions, ms: seq<ExtensionMember>, i: nat): seq<Token>
    requires i <= |ms|
    decreases ObjectValue(ms), 0, |ms| - i
  {
    if i == |ms| then [] else EncodeMember(options, ms[i]) + EncodeMembers(options, ms, i + 1)
  }

  /** The items items[i..] of a list. */
  function EncodeItems(options: SerializerOptions, items: seq<Value>, i: nat): seq<Token>
    requires i <= |items|
    decreases ListValue(items), 0, |items| - i
  {
    if i == |items| then [] else EncodeValue(options, items[i]) + EncodeItems(options, items, i + 1)
  }

  /** A member: nothing when it is null and nulls are ignored, else its converted name and its value. */
  function EncodeMember(options: SerializerOptions, m: ExtensionMember): seq<Token>
    decreases m, 2
  {
    if m.value.NullValue? && options.ignoreNullValues then []
    else [PropertyName(ConvertPropertyName(options, m.name))] + EncodeValue(options, m.value)
  }

  /** What the framework serializer writes without an error: everything but a nested ExtensionData. */
  predicate FrameworkWritable(v: Value)
    decreases v
  {
    match v
    case ObjectValue(_) => false
    case ListValue(items) => forall i :: 0 <= i < |items| ==> FrameworkWritable(items[i])
    case _ => true
  }

  /** A direct item of a member's list: a nested object is written by the codec, null throws, the rest goes to the framework. */
  predicate ItemWritable(options: SerializerOptions, v: Value)
    decreases v, 1
  {
    match v
    case ObjectValue(ms) => forall i :: 0 <= i < |ms| ==> MemberWritable(options, ms[i])
    case NullValue => false
    case _ => FrameworkWritable(v)
  }

  /** A member that WriteExtensionMember writes without an exception. */
  predicate MemberWritable(options: SerializerOptions, m: ExtensionMember)
    decreases m, 2
  {
    if m.value.NullValue? && options.ignoreNullValues then true
    else match m.value
      case ObjectValue(ms) => forall i :: 0 <= i < |ms| ==> MemberWritable(options, ms[i])
      case ListValue(items) => forall i :: 0 <= i < |items| ==> ItemWritable(options, items[i])
      case _ => true
  }

  /**
   * JsonSerializer.Serialize of a decoded value by its runtime type: a scalar as its token, a
   * List<object> as an array of its elements; an ExtensionData element is not supported, as in
   * System.Text.Json before version 5, which rejects its Dictionary<int, ExtensionMember> property
   * (version 5 and later write its public properties instead; neither writes back the `{}` read).
   */
  function FrameworkSerialize(options: SerializerOptions, v: Value): (r: Result<seq<Token>>)
    ensures r.Ok? <==> FrameworkWritable(v)
    ensures r.Ok? ==> r.value == EncodeValue(options, v)
    ensures r.Err? ==> r.error == NotSupportedException
    decreases v, 1
  {
    match v
    case ObjectValue(_) => Err(NotSupportedException)
    case ListValue(items) =>
      (match FrameworkItems(options, items, 0)
       case Err(e) => Err(e)
       case Ok(ts) => Ok([StartArray] + ts + [EndArray]))
    case _ => Ok(EncodeValue(options, v))
  }

  function FrameworkItems(options: SerializerOptions, items: seq<Value>, i: nat): (r: Result<seq<Token>>)
    requires i <= |items|
    ensures r.Ok? <==> forall j :: i <= j < |items| ==> FrameworkWritable(items[j])
    ensures r.Ok? ==> r.value == EncodeItems(options, items, i)
    ensures r.Err? ==> r.error == NotSupportedException
    decreases ListValue(items), 0, |items| - i
  {
    if i == |items| then Ok([])
    else match FrameworkSerialize(options, items[i])
      case Err(e) => Err(e)
      case Ok(head) =>
        match FrameworkItems(options, items, i + 1)
        case Err(e) => Err(e)
        case Ok(tail) => Ok(head + tail)
  }

  /**
   * WriteExtensionMember: nothing for an ignored null; otherwise the converted name, then a nested
   * object through WriteExtensionData, a list item by item, or the scalar through the framework.
   */
  method WriteExtensionMember(options: SerializerOptions, m: ExtensionMember) returns (r: Result<seq<Token>>)
    ensures r.Ok? <==> MemberWritable(options, m)
    ensures r.Ok? ==> r.value == EncodeMember(options, m)
    decreases m, 2
  {
    if m.value.NullValue? && options.ignoreNullValues {
      return Ok([]);
    }
    var name := [PropertyName(ConvertPropertyName(options, m.name))];
    match m.value {
      case ObjectValue(ms) =>
        var data := WriteExtensionData(options, ms);
        if data.Err? {
          return data;
        }
        r := Ok(name + data.value);
      case ListValue(items) =>
        var out := [StartArray];
        var i := 0;
        while i < |items|
          invariant i <= |items|
          invariant forall j :: 0 <= j < i ==> ItemWritable(options, items[j])
          invariant out + EncodeItems(options, items, i) == [StartArray] + EncodeItems(options, items, 0)
        {
          var item: Result<seq<Token>>;
          if items[i].ObjectValue? {
            item := WriteExtensionData(options, items[i].members);
          } else if items[i].NullValue? {
            item := Err(NullReferenceException);
          } else {
            item := FrameworkSerialize(options, items[i]);
          }
          if item.Err? {
            return Err(item.error);
          }
          assert out + EncodeItems(options, items, i) == (out + item.value) + EncodeItems(options, items, i + 1);
          out := out + item.value;
          i := i + 1;
        }
        r := Ok(name + out + [EndArray]);
      case NullValue =>
        r := Ok(name + [Null]);
      case _ =>
        var scalar := FrameworkSerialize(options, m.value);
        r := Ok(name + scalar.value);
    }
  }

  /**
   * WriteExtensionData: '{', the members, '}'. The source writes a nested dictionary sorted by
   * key; here the members are a sequence in key order, as DecodeObject builds them (numbered by
   * position, see DecodedValueWellIndexed).
   */
  method WriteExtensionData(options: SerializerOptions, ms: seq<ExtensionMember>) returns (r: Result<seq<Token>>)
    ensures r.Ok? <==> forall i :: 0 <= i < |ms| ==> MemberWritable(options, ms[i])
    ensures r.Ok? ==> r.value == EncodeValue(options, ObjectValue(ms))
    decreases ObjectValue(ms), 0
  {
    var out := [StartObject];
    var i := 0;
    while i < |ms|
      invariant i <= |ms|
      invariant forall j :: 0 <= j < i ==> MemberWritable(options, ms[j])
      invariant out + EncodeMembers(options, ms, i) == [StartObject] + EncodeMembers(options, ms, 0)
    {
      var member := WriteExtensionMember(options, ms[i]);
      if member.Err? {
        return member;
      }
      assert out + EncodeMembers(options, ms, i) == (out + member.value) + EncodeMembers(options, ms, i + 1);
      out := out + member.value;
      i := i + 1;
    }
    assert out == [StartObject] + EncodeMembers(options, ms, 0);
    r := Ok(out + [EndObject]);
  }
}
