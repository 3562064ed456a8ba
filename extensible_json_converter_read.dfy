/**
 * ExtensibleJsonConverter.Read and CreateAccessorAndInstance.
 *
 * The reader is the token sequence and a position; Read returns the instance and the position
 * of the object's last token (the '}'), where the framework expects a converter to leave the
 * reader. ReadSpec states the outcome as a function of the tokens and of the accessor cache;
 * the method follows the source step by step and is proved to produce it.
 */
module ExtensibleJsonConverterRead {
  import opened Wrappers
  import opened Strings
  import opened JsonTokens
  import opened ClrTypes
  import opened ExtensionMembers
  import opened ExtensionDataStore
  import opened ExtensibleObjects
  import opened TypeDescriptorPolicy
  import opened DefaultTypeMappings
  import opened TypeAccessors
  import opened TypeAccessorCaches
  import opened UnknownValueReader
  import opened ExtensibleJsonConverters

  /** The outcome of the first member: the class to create, the descriptor read, and where the members resume. */
  datatype Header = Header(t: ClrType, descriptor: Option<string>, next: nat)

  /**
   * CreateAccessorAndInstance up to the choice of class. The first member is the descriptor
   * when its name equals the descriptor member name ignoring case; its value must be a string.
   * A descriptor that resolves to a mapped class replaces the requested class; one that does
   * not keeps it. Any other first member is left for the member loop.
   */
  function ReadHeader(conv: Converter, ts: seq<Token>, cur: nat, typeToConvert: ClrType): (r: Result<Header>)
    requires cur < |ts| && Valid(conv.mappings.policy)
    ensures r.Ok? ==> cur <= r.value.next <= |ts|
  {
    if !ts[cur].PropertyName? then Err(JsonException(ExpectedPropertyName))
    else if !EqualsIgnoreCase(ts[cur].name, DescriptorMember(conv)) then Ok(Header(typeToConvert, None, cur))
    else if cur + 1 == |ts| then Err(JsonException(PrematureEnd))
    else if !ts[cur + 1].String? then Err(JsonException(DescriptorNotString))
    else
      var d := ts[cur + 1].s;
      var t := match ClosestType(conv.mappings, d) case Some(c) => c case None => typeToConvert;
      Ok(Header(t, Some(d), cur + 2))
  }

  /**
   * The position of the first member after the descriptor, as the code computes it: 1 when the
   * descriptor is a property and one was read, else 0.
   */
  function StartIndexAsWritten(conv: Converter, descriptor: Option<string>): int
  {
    if descriptor.Some? && conv.descriptorProperty.Some? then 1 else 0
  }

  /**
   * The position of the first member after the descriptor, counted as the writer counts it: the
   * writer always writes a descriptor property first, at position 0, so members start at 1
   * whenever the descriptor is a property, whether or not the payload carried it. This is the
   * corrected count; Read itself uses StartIndexAsWritten.
   */
  function StartIndex(conv: Converter, descriptor: Option<string>): (r: int)
    ensures r == (if conv.descriptorProperty.Some? then 1 else 0)
    ensures descriptor.Some? ==> r == StartIndexAsWritten(conv, descriptor)
  {
    if conv.descriptorProperty.Some? then 1 else 0
  }

  /** The first member's position: as the code computes it, or as the writer counts it when corrected. */
  function FirstIndex(conv: Converter, descriptor: Option<string>, corrected: bool): int
  {
    if corrected then StartIndex(conv, descriptor) else StartIndexAsWritten(conv, descriptor)
  }

  /** The property values of the new instance: the initial ones, with the descriptor property set when one was read. */
  function InitialState(conv: Converter, h: Header): map<PropertyInfo, seq<Token>>
  {
    var values := InitialValues(h.t);
    if conv.descriptorProperty.Some? && h.descriptor.Some? then values[conv.descriptorProperty.value := [String(h.descriptor.value)]]
    else values
  }

  /** The TypeDescriptor stored in the new ExtensionData: the descriptor read, when it is metadata. */
  function StoredDescriptor(conv: Converter, h: Header): Option<string>
  {
    if conv.descriptorProperty.None? then h.descriptor else None
  }

  /**
   * The member loop from cur: each member, known or not, takes the next position. A member in
   * the table has its value stored in the property; any other member is decoded and stored as
   * an unknown member under its position. The loop ends on '}', which it does not consume.
   */
  function ReadMembers(acc: TypeAccessor, ts: seq<Token>, cur: nat, index: int,
                       values: map<PropertyInfo, seq<Token>>, members: map<int, ExtensionMember>)
    : (r: Result<(map<PropertyInfo, seq<Token>>, map<int, ExtensionMember>, nat)>)
    requires cur <= |ts|
    ensures r.Ok? ==> cur <= r.value.2 < |ts| && ts[r.value.2] == EndObject
    decreases |ts| - cur
  {
    if cur == |ts| then Err(JsonException(PrematureEnd))
    else if ts[cur] == EndObject then Ok((values, members, cur))
    else if !ts[cur].PropertyName? then Err(JsonException(ExpectedPropertyName))
    else
      var name := ts[cur].name;
      match Lookup(acc.table, name)
      case Some(p) =>
        (match ValueEnd(ts, cur)
         case Err(e) => Err(e)
         case Ok(e) => ReadMembers(acc, ts, e, index + 1, values[p := ts[cur + 1..e]], members))
      case None =>
        match DecodeAt(ts, cur + 1)
        case Err(e) => Err(e)
        case Ok((v, next)) =>
          ReadMembers(acc, ts, next, index + 1, values, members[index := ExtensionMember(index, name, v)])
  }

  /** The unknown value that starts at pos, and the position just past it. */
  function DecodeAt(ts: seq<Token>, pos: nat): (r: Result<(Value, nat)>)
    requires pos <= |ts|
    ensures r.Ok? ==> pos < r.value.1 <= |ts| && DecodeValue(ts[pos..]) == Ok((r.value.0, ts[r.value.1..]))
    ensures r.Err? ==> DecodeValue(ts[pos..]) == Err(r.error)
  {
    match DecodeValue(ts[pos..])
    case Err(e) => Err(e)
    case Ok((v, rest)) =>
      ValueSuffix(ts[pos..]);
      assert ts[pos..][|ts[pos..]| - |rest|..] == ts[|ts| - |rest|..];
      Ok((v, |ts| - |rest|))
  }

  /** The class whose accessor Read fetches from the cache, when it gets that far. */
  function AccessorClass(conv: Converter, ts: seq<Token>, pos: nat, typeToConvert: ClrType): Option<ClrType>
    requires pos < |ts| && Valid(conv.mappings.policy)
  {
    if ts[pos] != StartObject || pos + 1 == |ts| then None
    else match ReadHeader(conv, ts, pos + 1, typeToConvert)
      case Err(_) => None
      case Ok(h) => Some(h.t)
  }

  /** The cache after Read: the class's accessor is added on a miss, unless the TypeAccessor constructor throws. */
  function CacheAfterRead(conv: Converter, accessors: map<ClrType, TypeAccessor>, ts: seq<Token>, pos: nat, typeToConvert: ClrType)
    : map<ClrType, TypeAccessor>
    requires pos < |ts| && Valid(conv.mappings.policy)
  {
    match AccessorClass(conv, ts, pos, typeToConvert)
    case None => accessors
    case Some(t) =>
      if AccessorAvailable(accessors, t) then accessors[t := CachedAccessor(accessors, t, Some(GetPropertyFilter(conv)))]
      else accessors
  }

  /** Read can make an instance of t: its accessor is available and the class is not abstract. */
  predicate Instantiable(accessors: map<ClrType, TypeAccessor>, t: ClrType)
  {
    AccessorAvailable(accessors, t) && !t.isAbstract
  }

  /**
   * Read from the token at pos: None for a null token, else the state of the new instance and
   * the position of its closing '}'. The members are numbered from StartIndexAsWritten, as the
   * code numbers them.
   */
  function ReadSpec(conv: Converter, accessors: map<ClrType, TypeAccessor>, ts: seq<Token>, pos: nat, typeToConvert: ClrType)
    : (r: Result<(Option<ObjectState>, nat)>)
    requires pos < |ts| && Valid(conv.mappings.policy)
    ensures r.Ok? ==> pos <= r.value.1 < |ts|
  {
    ReadSpecFrom(conv, accessors, ts, pos, typeToConvert, false)
  }

  /** Read with the members numbered from FirstIndex: the code when not corrected, the writer's count when corrected. */
  function ReadSpecFrom(conv: Converter, accessors: map<ClrType, TypeAccessor>, ts: seq<Token>, pos: nat, typeToConvert: ClrType,
                        corrected: bool)
    : (r: Result<(Option<ObjectState>, nat)>)
    requires pos < |ts| && Valid(conv.mappings.policy)
    ensures r.Ok? ==> pos <= r.value.1 < |ts|
  {
    if ts[pos] == Null then Ok((None, pos))
    else if ts[pos] != StartObject then Err(JsonException(ExpectedStartObject))
    else if pos + 1 == |ts| then Err(JsonException(PrematureEnd))
    else match ReadHeader(conv, ts, pos + 1, typeToConvert)
      case Err(e) => Err(e)
      case Ok(h) =>
        var acc := CachedAccessor(accessors, h.t, Some(GetPropertyFilter(conv)));
        if !AccessorAvailable(accessors, h.t) then Err(ArgumentNullException)
        else if h.t.isAbstract then Err(InvalidOperationException)
        else if !IsAssignableFrom(conv.root, h.t) then Err(InvalidCastException)
        else match ReadMembers(acc, ts, h.next, FirstIndex(conv, h.descriptor, corrected), InitialState(conv, h), map[])
          case Err(e) => Err(e)
          case Ok((values, members, end)) =>
            Ok((Some(ObjectState(h.t, values, Some(DataState(StoredDescriptor(conv, h), members)))), end))
  }

  /**
   * CreateAccessorAndInstance: reads the optional descriptor, fetches the accessor of the
   * chosen class (ArgumentNullException when it has no parameterless constructor), creates the
   * instance (InvalidOperationException for an abstract class) and casts it to TExtensible
   * (InvalidCastException), attaches a new ExtensionData and records the descriptor in it or in
   * the descriptor property.
   */
  method CreateAccessorAndInstance(conv: Converter, cache: TypeAccessorCache, ts: seq<Token>, cur: nat, typeToConvert: ClrType)
    returns (r: Result<(TypeAccessor, ExtensibleObject, nat, int)>, ghost h: Header)
    requires cur < |ts| && Valid(conv.mappings.policy) && cache.Valid()
    modifies cache
    ensures cache.Valid()
    ensures ReadHeader(conv, ts, cur, typeToConvert).Err? ==>
      r == Err(ReadHeader(conv, ts, cur, typeToConvert).error) && cache.accessors == old(cache.accessors)
    ensures ReadHeader(conv, ts, cur, typeToConvert).Ok? ==>
      && h == ReadHeader(conv, ts, cur, typeToConvert).value
      && (!AccessorAvailable(old(cache.accessors), h.t) ==>
            r == Err(ArgumentNullException) && cache.accessors == old(cache.accessors))
      && (AccessorAvailable(old(cache.accessors), h.t) ==>
            cache.accessors == old(cache.accessors)[h.t := CachedAccessor(old(cache.accessors), h.t, Some(GetPropertyFilter(conv)))])
      && (AccessorAvailable(old(cache.accessors), h.t) && h.t.isAbstract ==> r == Err(InvalidOperationException))
      && (Instantiable(old(cache.accessors), h.t) && !IsAssignableFrom(conv.root, h.t) ==> r == Err(InvalidCastException))
      && (Instantiable(old(cache.accessors), h.t) && IsAssignableFrom(conv.root, h.t) ==> r.Ok?)
    ensures r.Ok? ==>
      var (acc, instance, next, index) := r.value;
      && acc == CachedAccessor(old(cache.accessors), h.t, Some(GetPropertyFilter(conv)))
      && fresh(instance) && instance.extensionData != null && fresh(instance.extensionData)
      && instance.Valid() && instance.extensionData.Valid()
      && instance.runtimeType == h.t && instance.values == InitialState(conv, h)
      && instance.extensionData.typeDescriptor == StoredDescriptor(conv, h)
      && instance.extensionData.extensionMembers == map[]
      && next == h.next && index == StartIndexAsWritten(conv, h.descriptor)
  {
    var header := ReadTypeDescriptor(conv, ts, cur, typeToConvert);
    if header.Err? {
      return Err(header.error), Header(typeToConvert, None, cur);
    }
    h := header.value;
    var t, typeDescriptor, next := header.value.t, header.value.descriptor, header.value.next;
    var fetched := cache.GetTypeAccessor(t, Some(GetPropertyFilter(conv)));
    if fetched.Err? {
      return Err(fetched.error), h;
    }
    var acc := fetched.value;
    var created := CreateInstance(acc);
    if created.Err? {
      return Err(created.error), h;
    }
    var instance := created.value;
    if !IsAssignableFrom(conv.root, instance.runtimeType) {
      return Err(InvalidCastException), h;
    }
    AttachExtensionData(conv, instance, typeDescriptor);
    var startingIndex := if typeDescriptor.Some? && conv.descriptorProperty.Some? then 1 else 0;
    r := Ok((acc, instance, next, startingIndex));
  }

  /**
   * The start of CreateAccessorAndInstance: when the first member is named like the descriptor
   * (ignoring case), its value must be a string; the class is then the closest mapped type of
   * that descriptor, or typeToConvert when there is none.
   */
  method ReadTypeDescriptor(conv: Converter, ts: seq<Token>, cur: nat, typeToConvert: ClrType) returns (r: Result<Header>)
    requires cur < |ts| && Valid(conv.mappings.policy)
    ensures r == ReadHeader(conv, ts, cur, typeToConvert)
  {
    if !ts[cur].PropertyName? {
      return Err(JsonException(ExpectedPropertyName));
    }
    var memberName := ts[cur].name;
    if !EqualsIgnoreCase(memberName, DescriptorMember(conv)) {
      return Ok(Header(typeToConvert, None, cur));
    }
    if cur + 1 == |ts| {
      return Err(JsonException(PrematureEnd));
    }
    if !ts[cur + 1].String? {
      return Err(JsonException(DescriptorNotString));
    }
    var typeDescriptor := ts[cur + 1].s;
    var t := typeToConvert;
    var closest := TryGetClosestType(conv.mappings, typeDescriptor);
    if closest.Some? {
      t := closest.value;
    }
    r := Ok(Header(t, Some(typeDescriptor), cur + 2));
  }

  /**
   * The end of CreateAccessorAndInstance: a new ExtensionData is attached to the instance, and
   * the descriptor read is recorded in it when the descriptor is metadata, or in the descriptor
   * property when it is a property.
   */
  method AttachExtensionData(conv: Converter, instance: ExtensibleObject, typeDescriptor: Option<string>)
    requires instance.Valid()
    modifies instance
    ensures instance.extensionData != null && fresh(instance.extensionData)
    ensures instance.Valid() && instance.extensionData.Valid()
    ensures instance.values == (if conv.descriptorProperty.Some? && typeDescriptor.Some?
                                then old(instance.values)[conv.descriptorProperty.value := [String(typeDescriptor.value)]]
                                else old(instance.values))
    ensures instance.extensionData.typeDescriptor == (if conv.descriptorProperty.None? then typeDescriptor else None)
    ensures instance.extensionData.extensionMembers == map[]
  {
    var data := new ExtensionData();
    instance.extensionData := data;
    if conv.descriptorProperty.None? {
      data.SetTypeDescriptor(typeDescriptor);
    }
    if typeDescriptor.Some? && conv.descriptorProperty.Some? {
      instance.values := instance.values[conv.descriptorProperty.value := [String(typeDescriptor.value)]];
    }
  }

  /** DecodeAt agrees with what GetExtensionMemberValue reports. */
  lemma DecodeAtValue(ts: seq<Token>, pos: nat, v: Value, next: nat)
    requires pos < next <= |ts| && DecodeValue(ts[pos..]) == Ok((v, ts[next..]))
    ensures DecodeAt(ts, pos) == Ok((v, next))
  {
    assert |ts| - |ts[next..]| == next;
  }

  /**
   * One member of Read's loop, the reader on a token other than '}': a member name offered to
   * TrySetMember, or decoded and stored under the position index when the table lacks it.
   */
  method ReadMember(acc: TypeAccessor, instance: ExtensibleObject, data: ExtensionData, ts: seq<Token>, cur: nat, index: int)
    returns (r: Result<nat>)
    requires cur < |ts| && ts[cur] != EndObject && data.Valid() && instance.extensionData == data
    modifies instance, data
    ensures data.Valid() && instance.extensionData == data && data.typeDescriptor == old(data.typeDescriptor)
    ensures old(instance.values).Keys <= instance.values.Keys
    ensures r.Ok? ==> cur < r.value <= |ts|
    ensures ReadMembers(acc, ts, cur, index, old(instance.values), old(data.extensionMembers))
         == if r.Err? then Err(r.error) else ReadMembers(acc, ts, r.value, index + 1, instance.values, data.extensionMembers)
  {
    if !ts[cur].PropertyName? {
      return Err(JsonException(ExpectedPropertyName));
    }
    var propertyName := ts[cur].name;
    var setOutcome := TrySetMember(acc, instance, propertyName, ts, cur);
    if setOutcome.Err? {
      return Err(setOutcome.error);
    }
    if setOutcome.value.Some? {
      return Ok(setOutcome.value.value);
    }
    var value := GetExtensionMemberValue(ts, cur + 1);
    if value.Err? {
      return Err(value.error);
    }
    DecodeAtValue(ts, cur + 1, value.value.0, value.value.1);
    data.Store(ExtensionMember(index, propertyName, value.value.0));
    r := Ok(value.value.1);
  }

  /**
   * The member loop of Read: until '}', each member name is offered to TrySetMember; a member
   * it does not take is decoded and stored in the ExtensionData under the current position;
   * the position advances by one per member either way.
   */
  method ReadMemberLoop(acc: TypeAccessor, instance: ExtensibleObject, data: ExtensionData, ts: seq<Token>, cur: nat, index: int)
    returns (r: Result<nat>)
    requires cur <= |ts| && data.Valid() && instance.extensionData == data
    modifies instance, data
    ensures data.Valid() && instance.extensionData == data && data.typeDescriptor == old(data.typeDescriptor)
    ensures old(instance.values).Keys <= instance.values.Keys
    ensures var spec := ReadMembers(acc, ts, cur, index, old(instance.values), old(data.extensionMembers));
      && (r.Ok? <==> spec.Ok?)
      && (r.Err? ==> r.error == spec.error)
      && (r.Ok? ==> r.value == spec.value.2 && instance.values == spec.value.0 && data.extensionMembers == spec.value.1)
  {
    var cur := cur;
    var index := index;
    ghost var whole := ReadMembers(acc, ts, cur, index, instance.values, data.extensionMembers);
    while true
      invariant cur <= |ts|
      invariant instance.extensionData == data && data.Valid() && data.typeDescriptor == old(data.typeDescriptor)
      invariant old(instance.values).Keys <= instance.values.Keys
      invariant ReadMembers(acc, ts, cur, index, instance.values, data.extensionMembers) == whole
      decreases |ts| - cur
    {
      if cur == |ts| {
        return Err(JsonException(PrematureEnd));
      }
      if ts[cur] == EndObject {
        break;
      }
      var next := ReadMember(acc, instance, data, ts, cur, index);
      if next.Err? {
        return Err(next.error);
      }
      cur := next.value;
      index := index + 1;
    }
    r := Ok(cur);
  }

  /** ReadSpec on '{' with a header that names a class convertible to TExtensible: the member loop's outcome. */
  lemma ReadSpecObject(conv: Converter, accessors: map<ClrType, TypeAccessor>, ts: seq<Token>, pos: nat, typeToConvert: ClrType, h: Header)
    requires pos + 1 < |ts| && Valid(conv.mappings.policy) && ts[pos] == StartObject
    requires ReadHeader(conv, ts, pos + 1, typeToConvert) == Ok(h)
    requires Instantiable(accessors, h.t) && IsAssignableFrom(conv.root, h.t)
    ensures ReadSpec(conv, accessors, ts, pos, typeToConvert)
         == match ReadMembers(CachedAccessor(accessors, h.t, Some(GetPropertyFilter(conv))), ts, h.next,
                              StartIndexAsWritten(conv, h.descriptor), InitialState(conv, h), map[])
            case Err(e) => Err(e)
            case Ok((values, ms, end)) =>
              Ok((Some(ObjectState(h.t, values, Some(DataState(StoredDescriptor(conv, h), ms)))), end))
  {
  }

  /**
   * Read: null for a null token; an error unless the token is '{' followed by at least one
   * more token; otherwise the instance CreateAccessorAndInstance makes, filled member by member
   * until '}'.
   */
  method Read(conv: Converter, cache: TypeAccessorCache, ts: seq<Token>, pos: nat, typeToConvert: ClrType)
    returns (r: Result<(ExtensibleObject?, nat)>)
    requires pos < |ts| && Valid(conv.mappings.policy) && cache.Valid()
    modifies cache
    ensures cache.Valid()
    ensures cache.accessors == CacheAfterRead(conv, old(cache.accessors), ts, pos, typeToConvert)
    ensures var spec := ReadSpec(conv, old(cache.accessors), ts, pos, typeToConvert);
      && (r.Ok? <==> spec.Ok?)
      && (r.Err? ==> r.error == spec.error)
      && (r.Ok? ==>
            && r.value.1 == spec.value.1
            && (r.value.0 == null <==> spec.value.0.None?)
            && (r.value.0 != null ==>
                  && fresh(r.value.0) && r.value.0.extensionData != null && fresh(r.value.0.extensionData)
                  && r.value.0.Valid() && r.value.0.extensionData.Valid()
                  && StateOf(r.value.0) == spec.value.0.value))
  {
    if ts[pos] == Null {
      return Ok((null, pos));
    }
    if ts[pos] != StartObject {
      return Err(JsonException(ExpectedStartObject));
    }
    if pos + 1 == |ts| {
      return Err(JsonException(PrematureEnd));
    }
    var created, h := CreateAccessorAndInstance(conv, cache, ts, pos + 1, typeToConvert);
    if created.Err? {
      return Err(created.error);
    }
    var (acc, instance, cur, index) := created.value;
    var data := instance.extensionData;
    ReadSpecObject(conv, old(cache.accessors), ts, pos, typeToConvert, h);
    var end := ReadMemberLoop(acc, instance, data, ts, cur, index);
    if end.Err? {
      return Err(end.error);
    }
    r := Ok((instance, end.value));
  }
}
