/**
 * The round trip of the converter: an object read and written again comes back as the same
 * tokens, with its unknown members at their original positions.
 *
 * A payload's members are described by a layout (a sequence of items, as the writer uses): the
 * declared properties, in the order of the accessor's table, and the unknown members between
 * them. Reading the tokens of a layout numbers every member by its position, so the unknown
 * members come out keyed by position; Interleave puts them back where they were.
 */
module ExtensibleJsonConverterRoundTrip {
  import opened Wrappers
  import opened Strings
  import opened JsonTokens
  import opened ClrTypes
  import opened ExtensionMembers
  import opened ExtensibleObjects
  import opened JsonOptions
  import opened TypeDescriptorPolicy
  import opened DefaultTypeMappings
  import opened PropertyWriters
  import opened TypeAccessors
  import opened TypeAccessorCaches
  import opened UnknownValueWriter
  import opened UnknownValueRoundTrip
  import opened ExtensibleJsonConverters
  import opened ExtensibleJsonConverterRead
  import opened ExtensibleJsonConverterWrite
  import opened OrderedKeys

  /** Every declared property of the layout holds one complete value. */
  predicate Spans(items: seq<Item>, values: map<PropertyInfo, seq<Token>>)
  {
    && ItemsReadable(items, values)
    && forall p :: 0 <= p < |items| && items[p].PropertyItem? ==> IsValueSpan(values[items[p].writer.property])
  }

  /**
   * Every unknown member of the layout is unknown to the accessor, carries its own position
   * (counted from index) as its Index, and has a value the reader produces.
   */
  predicate Unknowns(acc: TypeAccessor, items: seq<Item>, index: int)
  {
    forall p :: 0 <= p < |items| && items[p].MemberItem? ==>
      && Lookup(acc.table, items[p].member.name).None?
      && items[p].member.index == index + p
      && WellIndexed(items[p].member.value)
  }

  /** Every declared property of the layout is found in the table under the name it is written with. */
  predicate Known(acc: TypeAccessor, items: seq<Item>)
  {
    forall p :: 0 <= p < |items| && items[p].PropertyItem? ==>
      Lookup(acc.table, items[p].writer.memberName) == Some(items[p].writer.property)
  }

  /** The property values after reading a layout over values0: each declared property gets its value. */
  function Assigned(values0: map<PropertyInfo, seq<Token>>, items: seq<Item>, values: map<PropertyInfo, seq<Token>>)
    : (r: map<PropertyInfo, seq<Token>>)
    requires ItemsReadable(items, values)
    ensures values0.Keys <= r.Keys
    decreases |items|
  {
    if items == [] then values0
    else if items[0].PropertyItem? then
      Assigned(values0[items[0].writer.property := values[items[0].writer.property]], items[1..], values)
    else Assigned(values0, items[1..], values)
  }

  /** After reading a layout, every property it declares holds the value it was read with. */
  lemma {:induction false} AssignedHolds(values0: map<PropertyInfo, seq<Token>>, items: seq<Item>, values: map<PropertyInfo, seq<Token>>)
    requires ItemsReadable(items, values)
    ensures forall p :: 0 <= p < |items| && items[p].PropertyItem? ==>
      var q := items[p].writer.property;
      q in Assigned(values0, items, values) && Assigned(values0, items, values)[q] == values[q]
    decreases |items|
  {
    if items != [] {
      var tail := items[1..];
      var next := if items[0].PropertyItem? then values0[items[0].writer.property := values[items[0].writer.property]] else values0;
      assert ItemsReadable(tail, values) by {
        forall p | 0 <= p < |tail| && tail[p].PropertyItem? ensures tail[p].writer.property in values {
          assert tail[p] == items[p + 1];
        }
      }
      AssignedHolds(next, tail, values);
      forall p | 0 <= p < |items| && items[p].PropertyItem?
        ensures var q := items[p].writer.property;
          q in Assigned(values0, items, values) && Assigned(values0, items, values)[q] == values[q]
      {
        if p > 0 {
          assert items[p] == tail[p - 1];
        } else if items[0].writer.property !in Assigned(values0, items, values)
               || Assigned(values0, items, values)[items[0].writer.property] != values[items[0].writer.property] {
          AssignedKeeps(next, tail, values, items[0].writer.property);
        }
      }
    }
  }

  /** A property no item of the layout declares keeps its value through the read. */
  lemma {:induction false} AssignedKeeps(values0: map<PropertyInfo, seq<Token>>, items: seq<Item>, values: map<PropertyInfo, seq<Token>>, q: PropertyInfo)
    requires ItemsReadable(items, values) && q in values0
    ensures q in Assigned(values0, items, values)
    ensures (forall p :: 0 <= p < |items| && items[p].PropertyItem? ==> items[p].writer.property != q) ==>
      Assigned(values0, items, values)[q] == values0[q]
    ensures q in values && values0[q] == values[q] ==> Assigned(values0, items, values)[q] == values[q]
    decreases |items|
  {
    if items != [] {
      var tail := items[1..];
      var next := if items[0].PropertyItem? then values0[items[0].writer.property := values[items[0].writer.property]] else values0;
      assert ItemsReadable(tail, values) by {
        forall p | 0 <= p < |tail| && tail[p].PropertyItem? ensures tail[p].writer.property in values {
          assert tail[p] == items[p + 1];
        }
      }
      AssignedKeeps(next, tail, values, q);
      if forall p :: 0 <= p < |items| && items[p].PropertyItem? ==> items[p].writer.property != q {
        forall p | 0 <= p < |tail| && tail[p].PropertyItem? ensures tail[p].writer.property != q {
          assert tail[p] == items[p + 1];
        }
        assert items[0].PropertyItem? ==> items[0].writer.property != q;
      }
    }
  }

  /** The tokens of a layout depend only on the values of the properties it declares. */
  lemma {:induction false} ItemsTokensAgree(options: SerializerOptions, v1: map<PropertyInfo, seq<Token>>, v2: map<PropertyInfo, seq<Token>>, items: seq<Item>)
    requires ItemsReadable(items, v1)
    requires forall p :: 0 <= p < |items| && items[p].PropertyItem? ==>
      items[p].writer.property in v2 && v2[items[p].writer.property] == v1[items[p].writer.property]
    ensures ItemsReadable(items, v2) && ItemsTokens(options, v2, items) == ItemsTokens(options, v1, items)
    decreases |items|
  {
    if items != [] {
      var tail := items[1..];
      forall p | 0 <= p < |tail| && tail[p].PropertyItem?
        ensures tail[p].writer.property in v1
        ensures tail[p].writer.property in v2 && v2[tail[p].writer.property] == v1[tail[p].writer.property]
      {
        assert tail[p] == items[p + 1];
      }
      ItemsTokensAgree(options, v1, v2, tail);
    }
  }

  /** Under transparent options a layout that starts with a declared property starts with its name and value. */
  lemma FirstPropertyTokens(options: SerializerOptions, values: map<PropertyInfo, seq<Token>>, items: seq<Item>)
    requires Transparent(options) && ItemsReadable(items, values) && items != [] && items[0].PropertyItem?
    ensures ItemsReadable(items[1..], values)
    ensures ItemsTokens(options, values, items)
         == [PropertyName(items[0].writer.memberName)] + values[items[0].writer.property] + ItemsTokens(options, values, items[1..])
  {
    TailReadable(items, values);
  }

  /** Under transparent options a layout that starts with an unknown member starts with its name and encoded value. */
  lemma FirstMemberTokens(options: SerializerOptions, values: map<PropertyInfo, seq<Token>>, items: seq<Item>)
    requires Transparent(options) && ItemsReadable(items, values) && items != [] && items[0].MemberItem?
    ensures ItemsReadable(items[1..], values)
    ensures ItemsTokens(options, values, items)
         == [PropertyName(items[0].member.name)] + EncodeValue(options, items[0].member.value) + ItemsTokens(options, values, items[1..])
  {
    TailReadable(items, values);
  }

  lemma TailReadable(items: seq<Item>, values: map<PropertyInfo, seq<Token>>)
    requires ItemsReadable(items, values) && items != []
    ensures ItemsReadable(items[1..], values)
  {
    forall p | 0 <= p < |items[1..]| && items[1..][p].PropertyItem? ensures items[1..][p].writer.property in values {
      assert items[1..][p] == items[p + 1];
    }
  }

  /** The tokens from cur: a member name, its value, then the rest of the object. */
  lemma MemberSlices(ts: seq<Token>, cur: nat, name: string, v: seq<Token>, t: seq<Token>, rest: seq<Token>)
    requires cur <= |ts| && ts[cur..] == [PropertyName(name)] + v + t + [EndObject] + rest
    ensures cur + 1 + |v| <= |ts| && ts[cur] == PropertyName(name)
    ensures ts[cur + 1..cur + 1 + |v|] == v
    ensures ts[cur + 1 + |v|..] == t + [EndObject] + rest
  {
    assert ts[cur..][0] == PropertyName(name);
    assert ts[cur..][1..1 + |v|] == v;
    assert ts[cur..][1 + |v|..] == t + [EndObject] + rest;
  }

  /** The conditions of a layout hold for its tail, one position further on. */
  lemma TailFits(acc: TypeAccessor, items: seq<Item>, values: map<PropertyInfo, seq<Token>>, index: int)
    requires items != [] && Spans(items, values) && Unknowns(acc, items, index) && Known(acc, items)
    ensures Spans(items[1..], values) && Unknowns(acc, items[1..], index + 1) && Known(acc, items[1..])
  {
    var tail := items[1..];
    forall p | 0 <= p < |tail| ensures tail[p] == items[p + 1] { }
  }

  /** The unknown members of a layout whose first item is a member: that member at index, then the tail's. */
  lemma StoredStep(members0: map<int, ExtensionMember>, items: seq<Item>, index: int)
    requires items != [] && items[0].MemberItem?
    ensures members0[index := items[0].member] + MembersAt(items[1..], index + 1) == members0 + MembersAt(items, index)
  {
    var tail := MembersAt(items[1..], index + 1);
    assert index !in tail;
    assert MembersAt(items, index) == tail[index := items[0].member];
  }

  /** The reader skips a complete value that follows a member name, and no more. */
  lemma ValueEndSpan(ts: seq<Token>, cur: nat, v: seq<Token>)
    requires cur + 1 + |v| <= |ts| && ts[cur + 1..cur + 1 + |v|] == v && IsValueSpan(v)
    ensures ValueEnd(ts, cur) == Ok(cur + 1 + |v|)
  {
    assert ts == ts[..cur + 1] + v + ts[cur + 1 + |v|..];
    SkipValueEmbedded(ts[..cur + 1], v, ts[cur + 1 + |v|..]);
  }

  /** One declared property: its value is stored and the loop goes on after it at the next position. */
  lemma ReadPropertyStep(acc: TypeAccessor, ts: seq<Token>, cur: nat, index: int,
                         values0: map<PropertyInfo, seq<Token>>, members0: map<int, ExtensionMember>,
                         w: PropertyWriter, v: seq<Token>)
    requires cur < |ts| && ts[cur] == PropertyName(w.memberName) && Lookup(acc.table, w.memberName) == Some(w.property)
    requires cur + 1 + |v| <= |ts| && ts[cur + 1..cur + 1 + |v|] == v && IsValueSpan(v)
    ensures ReadMembers(acc, ts, cur, index, values0, members0)
         == ReadMembers(acc, ts, cur + 1 + |v|, index + 1, values0[w.property := v], members0)
  {
    ValueEndSpan(ts, cur, v);
  }

  /** One unknown member: it is decoded, stored under the position, and the loop goes on after it. */
  lemma ReadUnknownStep(acc: TypeAccessor, ts: seq<Token>, cur: nat, next: nat, index: int,
                        values0: map<PropertyInfo, seq<Token>>, members0: map<int, ExtensionMember>,
                        name: string, v: Value)
    requires Lookup(acc.table, name).None?
    requires cur < next <= |ts| && ts[cur] == PropertyName(name) && DecodeAt(ts, cur + 1) == Ok((v, next))
    ensures ReadMembers(acc, ts, cur, index, values0, members0)
         == ReadMembers(acc, ts, next, index + 1, values0, members0[index := ExtensionMember(index, name, v)])
  {
  }

  /** An encoded value in the tokens decodes to itself and ends where its encoding ends. */
  lemma DecodeAtEncoded(options: SerializerOptions, ts: seq<Token>, pos: nat, next: nat, v: Value)
    requires Transparent(options) && WellIndexed(v)
    requires pos <= next <= |ts| && ts[pos..next] == EncodeValue(options, v)
    ensures DecodeAt(ts, pos) == Ok((v, next))
  {
    assert ts[pos..] == EncodeValue(options, v) + ts[next..];
    EncodeThenDecodeValue(options, v, ts[next..]);
  }

  /**
   * Reading the tokens of a layout, then '}': the loop stops at the '}', every declared
   * property has been set to its value, and the unknown members are stored by position.
   */
  lemma {:induction false} ReadLayout(options: SerializerOptions, acc: TypeAccessor, values: map<PropertyInfo, seq<Token>>,
                                      items: seq<Item>, index: int, ts: seq<Token>, cur: nat, rest: seq<Token>,
                                      values0: map<PropertyInfo, seq<Token>>, members0: map<int, ExtensionMember>)
    requires Transparent(options) && Spans(items, values) && Unknowns(acc, items, index) && Known(acc, items)
    requires cur <= |ts| && ts[cur..] == ItemsTokens(options, values, items) + [EndObject] + rest
    ensures var r := ReadMembers(acc, ts, cur, index, values0, members0);
      && r.Ok?
      && r.value.0 == Assigned(values0, items, values)
      && r.value.1 == members0 + MembersAt(items, index)
      && r.value.2 == cur + |ItemsTokens(options, values, items)|
    decreases |items|, 1
  {
    if items == [] {
      assert ts[cur..] == [EndObject] + rest;
      assert ts[cur] == EndObject;
      assert members0 + MembersAt(items, index) == members0;
    } else if items[0].PropertyItem? {
      ReadLayoutProperty(options, acc, values, items, index, ts, cur, rest, values0, members0);
    } else {
      ReadLayoutUnknown(options, acc, values, items, index, ts, cur, rest, values0, members0);
    }
  }

  /** ReadLayout for a layout that starts with a declared property. */
  lemma {:induction false} ReadLayoutProperty(options: SerializerOptions, acc: TypeAccessor, values: map<PropertyInfo, seq<Token>>,
                                      items: seq<Item>, index: int, ts: seq<Token>, cur: nat, rest: seq<Token>,
                                      values0: map<PropertyInfo, seq<Token>>, members0: map<int, ExtensionMember>)
    requires Transparent(options) && Spans(items, values) && Unknowns(acc, items, index) && Known(acc, items)
    requires cur <= |ts| && ts[cur..] == ItemsTokens(options, values, items) + [EndObject] + rest
    requires items != [] && items[0].PropertyItem?
    ensures var r := ReadMembers(acc, ts, cur, index, values0, members0);
      && r.Ok?
      && r.value.0 == Assigned(values0, items, values)
      && r.value.1 == members0 + MembersAt(items, index)
      && r.value.2 == cur + |ItemsTokens(options, values, items)|
    decreases |items|, 0
  {
    var tail := items[1..];
    TailFits(acc, items, values, index);
    var w := items[0].writer;
    var next := PropertyAdvance(options, acc, values, items, index, ts, cur, rest, values0, members0);
    ReadLayout(options, acc, values, tail, index + 1, ts, next, rest, values0[w.property := values[w.property]], members0);
    PropertyFirst(values0, items, values, index);
  }

  /**
   * The tokens of a layout's first declared property: reading them assigns the property, and
   * the rest of the layout follows them.
   */
  lemma PropertyAdvance(options: SerializerOptions, acc: TypeAccessor, values: map<PropertyInfo, seq<Token>>,
                         items: seq<Item>, index: int, ts: seq<Token>, cur: nat, rest: seq<Token>,
                         values0: map<PropertyInfo, seq<Token>>, members0: map<int, ExtensionMember>) returns (next: nat)
    requires Transparent(options) && Spans(items, values) && Known(acc, items)
    requires cur <= |ts| && ts[cur..] == ItemsTokens(options, values, items) + [EndObject] + rest
    requires items != [] && items[0].PropertyItem?
    ensures ItemsReadable(items[1..], values)
    ensures next <= |ts| && ts[next..] == ItemsTokens(options, values, items[1..]) + [EndObject] + rest
    ensures next + |ItemsTokens(options, values, items[1..])| == cur + |ItemsTokens(options, values, items)|
    ensures var w := items[0].writer;
      ReadMembers(acc, ts, cur, index, values0, members0)
      == ReadMembers(acc, ts, next, index + 1, values0[w.property := values[w.property]], members0)
  {
    var w := items[0].writer;
    var v := values[w.property];
    FirstPropertyTokens(options, values, items);
    MemberSlices(ts, cur, w.memberName, v, ItemsTokens(options, values, items[1..]), rest);
    ReadPropertyStep(acc, ts, cur, index, values0, members0, w, v);
    next := cur + 1 + |v|;
  }

  /**
   * The tokens of a layout's first unknown member: reading them stores the member under the
   * position, and the rest of the layout follows them.
   */
  lemma UnknownAdvance(options: SerializerOptions, acc: TypeAccessor, values: map<PropertyInfo, seq<Token>>,
                        items: seq<Item>, index: int, ts: seq<Token>, cur: nat, rest: seq<Token>,
                        values0: map<PropertyInfo, seq<Token>>, members0: map<int, ExtensionMember>) returns (next: nat)
    requires Transparent(options) && ItemsReadable(items, values) && Unknowns(acc, items, index)
    requires cur <= |ts| && ts[cur..] == ItemsTokens(options, values, items) + [EndObject] + rest
    requires items != [] && items[0].MemberItem?
    ensures ItemsReadable(items[1..], values)
    ensures next <= |ts| && ts[next..] == ItemsTokens(options, values, items[1..]) + [EndObject] + rest
    ensures next + |ItemsTokens(options, values, items[1..])| == cur + |ItemsTokens(options, values, items)|
    ensures ReadMembers(acc, ts, cur, index, values0, members0)
         == ReadMembers(acc, ts, next, index + 1, values0, members0[index := items[0].member])
  {
    var m := items[0].member;
    var v := EncodeValue(options, m.value);
    FirstMemberTokens(options, values, items);
    MemberSlices(ts, cur, m.name, v, ItemsTokens(options, values, items[1..]), rest);
    next := cur + 1 + |v|;
    DecodeAtEncoded(options, ts, cur + 1, next, m.value);
    ReadUnknownStep(acc, ts, cur, next, index, values0, members0, m.name, m.value);
    assert ExtensionMember(index, m.name, m.value) == m;
  }

  /** Reading a declared property assigns it first, and stores no unknown member at its position. */
  lemma PropertyFirst(values0: map<PropertyInfo, seq<Token>>, items: seq<Item>, values: map<PropertyInfo, seq<Token>>, index: int)
    requires ItemsReadable(items, values) && items != [] && items[0].PropertyItem?
    ensures ItemsReadable(items[1..], values)
    ensures Assigned(values0, items, values)
         == Assigned(values0[items[0].writer.property := values[items[0].writer.property]], items[1..], values)
    ensures MembersAt(items, index) == MembersAt(items[1..], index + 1)
  {
    TailReadable(items, values);
  }

  /** ReadLayout for a layout that starts with an unknown member. */
  lemma {:induction false} ReadLayoutUnknown(options: SerializerOptions, acc: TypeAccessor, values: map<PropertyInfo, seq<Token>>,
                                      items: seq<Item>, index: int, ts: seq<Token>, cur: nat, rest: seq<Token>,
                                      values0: map<PropertyInfo, seq<Token>>, members0: map<int, ExtensionMember>)
    requires Transparent(options) && Spans(items, values) && Unknowns(acc, items, index) && Known(acc, items)
    requires cur <= |ts| && ts[cur..] == ItemsTokens(options, values, items) + [EndObject] + rest
    requires items != [] && items[0].MemberItem?
    ensures var r := ReadMembers(acc, ts, cur, index, values0, members0);
      && r.Ok?
      && r.value.0 == Assigned(values0, items, values)
      && r.value.1 == members0 + MembersAt(items, index)
      && r.value.2 == cur + |ItemsTokens(options, values, items)|
    decreases |items|, 0
  {
    var tail := items[1..];
    TailFits(acc, items, values, index);
    var m := items[0].member;
    var next := UnknownAdvance(options, acc, values, items, index, ts, cur, rest, values0, members0);
    ReadLayout(options, acc, values, tail, index + 1, ts, next, rest, values0, members0[index := m]);
    StoredStep(members0, items, index);
    assert Assigned(values0, items, values) == Assigned(values0, tail, values);
  }

  // ---------------------------------------------------------------------------------------
  // The object round trip

  /** The class a payload's descriptor selects: the closest mapped class, else the requested one. */
  function DescribedClass(conv: Converter, d: string, typeToConvert: ClrType): ClrType
    requires Valid(conv.mappings.policy)
  {
    match ClosestType(conv.mappings, d)
    case Some(c) => c
    case None => typeToConvert
  }

  /** The accessor the converter builds for class t: the table under the converter's own filter. */
  function ConverterAccessor(conv: Converter, t: ClrType): TypeAccessor
  {
    Accessor(t, Some(GetPropertyFilter(conv)))
  }

  /** The tokens of an object whose first member is its descriptor d: '{', the descriptor, the layout, '}'. */
  function Payload(conv: Converter, d: string, options: SerializerOptions, values: map<PropertyInfo, seq<Token>>, items: seq<Item>)
    : seq<Token>
    requires ItemsReadable(items, values)
  {
    [StartObject, PropertyName(DescriptorMember(conv)), String(d)] + ItemsTokens(options, values, items) + [EndObject]
  }

  /** The state Read gives an instance of class t read from such a payload. */
  function PayloadState(conv: Converter, t: ClrType, d: string, values: map<PropertyInfo, seq<Token>>, items: seq<Item>)
    : ObjectState
    requires ItemsReadable(items, values)
  {
    var h := Header(t, Some(d), 3);
    ObjectState(t, Assigned(InitialState(conv, h), items, values),
      Some(DataState(StoredDescriptor(conv, h), MembersAt(items, StartIndexAsWritten(conv, Some(d))))))
  }

  /** The first member of the payload is recognised as the descriptor, and selects the described class. */
  lemma PayloadHeader(conv: Converter, d: string, options: SerializerOptions, values: map<PropertyInfo, seq<Token>>,
                      items: seq<Item>, rest: seq<Token>, ts: seq<Token>, typeToConvert: ClrType)
    requires Valid(conv.mappings.policy) && ItemsReadable(items, values)
    requires ts == Payload(conv, d, options, values, items) + rest
    ensures ReadHeader(conv, ts, 1, typeToConvert) == Ok(Header(DescribedClass(conv, d, typeToConvert), Some(d), 3))
  {
    assert ts[1] == PropertyName(DescriptorMember(conv)) && ts[2] == String(d);
  }

  /** The layout's property items are the writers of the layout. */
  lemma {:induction false} WriterOfItem(items: seq<Item>, p: nat)
    requires p < |items| && items[p].PropertyItem?
    ensures exists i :: 0 <= i < |Writers(items)| && Writers(items)[i] == items[p].writer
  {
    var ws := (if items[0].PropertyItem? then [items[0].writer] else []);
    assert Writers(items) == ws + Writers(items[1..]);
    if p > 0 {
      WriterOfItem(items[1..], p - 1);
      var i :| 0 <= i < |Writers(items[1..])| && Writers(items[1..])[i] == items[1..][p - 1].writer;
      assert Writers(items)[|ws| + i] == Writers(items[1..])[i];
    } else {
      assert Writers(items)[0] == items[0].writer;
    }
  }

  /** A layout whose properties are exactly the accessor's writers declares each under a key the table finds. */
  lemma KnownFromWriters(acc: TypeAccessor, items: seq<Item>)
    requires DistinctKeys(acc.table) && Writers(items) == GetPropertyWriters(acc)
    ensures Known(acc, items)
    ensures forall p :: 0 <= p < |items| && items[p].PropertyItem? ==> exists e :: e in acc.table && e.property == items[p].writer.property
  {
    forall p | 0 <= p < |items| && items[p].PropertyItem?
      ensures Lookup(acc.table, items[p].writer.memberName) == Some(items[p].writer.property)
      ensures exists e :: e in acc.table && e.property == items[p].writer.property
    {
      WriterOfItem(items, p);
      var i :| 0 <= i < |Writers(items)| && Writers(items)[i] == items[p].writer;
      FoundSlot(acc.table, acc.table[i].key, i);
      assert acc.table[i] in acc.table;
    }
  }

  /** Read of the payload: the described class, its properties set from the layout, its unknown members by position. */
  lemma ReadPayload(conv: Converter, accessors: map<ClrType, TypeAccessor>, d: string, options: SerializerOptions,
                    values: map<PropertyInfo, seq<Token>>, items: seq<Item>, rest: seq<Token>, ts: seq<Token>, typeToConvert: ClrType)
    requires Valid(conv.mappings.policy) && Transparent(options)
    requires Instantiable(accessors, DescribedClass(conv, d, typeToConvert)) && IsAssignableFrom(conv.root, DescribedClass(conv, d, typeToConvert))
    requires Spans(items, values)
    requires Unknowns(CachedAccessor(accessors, DescribedClass(conv, d, typeToConvert), Some(GetPropertyFilter(conv))), items, StartIndexAsWritten(conv, Some(d)))
    requires Known(CachedAccessor(accessors, DescribedClass(conv, d, typeToConvert), Some(GetPropertyFilter(conv))), items)
    requires ts == Payload(conv, d, options, values, items) + rest
    ensures ReadSpec(conv, accessors, ts, 0, typeToConvert).Ok?
    ensures ReadSpec(conv, accessors, ts, 0, typeToConvert).value.0 == Some(PayloadState(conv, DescribedClass(conv, d, typeToConvert), d, values, items))
    ensures ReadSpec(conv, accessors, ts, 0, typeToConvert).value.1 == 3 + |ItemsTokens(options, values, items)|
  {
    var t := DescribedClass(conv, d, typeToConvert);
    var h := Header(t, Some(d), 3);
    var acc := CachedAccessor(accessors, t, Some(GetPropertyFilter(conv)));
    PayloadHeader(conv, d, options, values, items, rest, ts, typeToConvert);
    PayloadMembers(conv, acc, h, options, values, items, rest, ts);
    ReadSpecObject(conv, accessors, ts, 0, typeToConvert, h);
  }

  /** The member loop over the payload after its descriptor. */
  lemma PayloadMembers(conv: Converter, acc: TypeAccessor, h: Header, options: SerializerOptions,
                       values: map<PropertyInfo, seq<Token>>, items: seq<Item>, rest: seq<Token>, ts: seq<Token>)
    requires Transparent(options) && h.descriptor.Some? && h.next == 3 && Spans(items, values)
    requires Unknowns(acc, items, StartIndexAsWritten(conv, h.descriptor)) && Known(acc, items)
    requires ts == Payload(conv, h.descriptor.value, options, values, items) + rest
    ensures 3 <= |ts|
    ensures ReadMembers(acc, ts, 3, StartIndexAsWritten(conv, h.descriptor), InitialState(conv, h), map[])
         == Ok((Assigned(InitialState(conv, h), items, values), MembersAt(items, StartIndexAsWritten(conv, h.descriptor)),
                3 + |ItemsTokens(options, values, items)|))
  {
    var index := StartIndexAsWritten(conv, h.descriptor);
    PayloadTail(conv, h.descriptor.value, options, values, items, rest, ts);
    ReadLayout(options, acc, values, items, index, ts, 3, rest, InitialState(conv, h), map[]);
    assert map[] + MembersAt(items, index) == MembersAt(items, index);
  }

  /** After the descriptor come the layout's tokens, then '}'. */
  lemma PayloadTail(conv: Converter, d: string, options: SerializerOptions, values: map<PropertyInfo, seq<Token>>,
                    items: seq<Item>, rest: seq<Token>, ts: seq<Token>)
    requires ItemsReadable(items, values)
    requires ts == Payload(conv, d, options, values, items) + rest
    ensures 3 <= |ts| && ts[3..] == ItemsTokens(options, values, items) + [EndObject] + rest
  {
    var head := [StartObject, PropertyName(DescriptorMember(conv)), String(d)];
    assert ts == head + (ItemsTokens(options, values, items) + [EndObject] + rest);
  }

  /** No property of the layout is the descriptor property: the converter's filter keeps it out of the table. */
  lemma DescriptorNotInLayout(conv: Converter, t: ClrType, items: seq<Item>)
    requires conv.descriptorProperty.Some? && Writers(items) == GetPropertyWriters(ConverterAccessor(conv, t))
    ensures forall p :: 0 <= p < |items| && items[p].PropertyItem? ==> items[p].writer.property != conv.descriptorProperty.value
  {
    var acc := ConverterAccessor(conv, t);
    AccessorTable(t, Some(GetPropertyFilter(conv)), "");
    KnownFromWriters(acc, items);
  }

  /** The descriptor Write emits for the read state is the one the payload started with, and the layout starts where Read started. */
  lemma WritePayloadDescriptor(conv: Converter, t: ClrType, d: string, options: SerializerOptions,
                               values: map<PropertyInfo, seq<Token>>, items: seq<Item>)
    requires WellFormed(conv) && Transparent(options) && IsAssignableFrom(conv.root, t) && ItemsReadable(items, values)
    requires Writers(items) == GetPropertyWriters(ConverterAccessor(conv, t))
    ensures conv.descriptorProperty.Some? ==> conv.descriptorProperty.value in PayloadState(conv, t, d, values, items).values
    ensures WriteTypeDescriptor(conv, PayloadState(conv, t, d, values, items), options)
         == Ok(([PropertyName(DescriptorMember(conv)), String(d)], StartIndex(conv, Some(d))))
  {
    var h := Header(t, Some(d), 3);
    var s := PayloadState(conv, t, d, values, items);
    if conv.descriptorProperty.Some? {
      var q := conv.descriptorProperty.value;
      InheritedProperties(conv.root, t);
      assert q in InitialState(conv, h) && InitialState(conv, h)[q] == [String(d)];
      DescriptorNotInLayout(conv, t, items);
      AssignedKeeps(InitialState(conv, h), items, values, q);
      assert s.values[q] == [String(d)];
      assert IsDescriptorValue(s.values[q]);
      assert ConvertPropertyName(options, q.name) == DescriptorMember(conv);
      assert [PropertyName(ConvertPropertyName(options, q.name))] + s.values[q] == [PropertyName(DescriptorMember(conv)), String(d)];
    } else {
      assert s.data.value.typeDescriptor == Some(d);
    }
  }

  /** The read state holds every property the converter's accessor and the descriptor refer to. */
  lemma PayloadReadable(conv: Converter, t: ClrType, d: string, values: map<PropertyInfo, seq<Token>>, items: seq<Item>)
    requires WellFormed(conv) && IsAssignableFrom(conv.root, t) && ItemsReadable(items, values)
    ensures Readable(conv, ConverterAccessor(conv, t), PayloadState(conv, t, d, values, items))
  {
    var acc := ConverterAccessor(conv, t);
    var s := PayloadState(conv, t, d, values, items);
    InheritedProperties(conv.root, t);
    AccessorTable(t, Some(GetPropertyFilter(conv)), "");
    assert forall e :: e in acc.table ==> e.property in s.values;
  }

  /** The layout Write rebuilds for the read state is the payload's layout, and its tokens are the payload's. */
  lemma PayloadLayout(conv: Converter, t: ClrType, d: string, options: SerializerOptions,
                      values: map<PropertyInfo, seq<Token>>, items: seq<Item>)
    requires ItemsReadable(items, values)
    requires Writers(items) == GetPropertyWriters(ConverterAccessor(conv, t))
    ensures Layout(ConverterAccessor(conv, t), PayloadState(conv, t, d, values, items), StartIndex(conv, Some(d))) == items
    ensures ItemsReadable(items, PayloadState(conv, t, d, values, items).values)
    ensures ItemsTokens(options, PayloadState(conv, t, d, values, items).values, items) == ItemsTokens(options, values, items)
  {
    var s := PayloadState(conv, t, d, values, items);
    var index := StartIndex(conv, Some(d));
    assert MembersOf(s) == MembersAt(items, index);
    InterleaveRestoresLayout(items, index);
    AssignedHolds(InitialState(conv, Header(t, Some(d), 3)), items, values);
    ItemsTokensAgree(options, values, s.values, items);
  }

  /** Write of the read state gives the payload again. */
  lemma WritePayload(conv: Converter, t: ClrType, d: string, options: SerializerOptions,
                     values: map<PropertyInfo, seq<Token>>, items: seq<Item>)
    requires WellFormed(conv) && Transparent(options) && IsAssignableFrom(conv.root, t) && ItemsReadable(items, values)
    requires Writers(items) == GetPropertyWriters(ConverterAccessor(conv, t))
    ensures Readable(conv, ConverterAccessor(conv, t), PayloadState(conv, t, d, values, items))
    ensures WriteSpec(conv, ConverterAccessor(conv, t), PayloadState(conv, t, d, values, items), options)
         == Ok(Payload(conv, d, options, values, items))
  {
    var acc := ConverterAccessor(conv, t);
    var s := PayloadState(conv, t, d, values, items);
    var desc := [PropertyName(DescriptorMember(conv)), String(d)];
    PayloadReadable(conv, t, d, values, items);
    WritePayloadDescriptor(conv, t, d, options, values, items);
    PayloadLayout(conv, t, d, options, values, items);
    var body := ItemsTokens(options, values, items);
    assert WriteSpec(conv, acc, s, options) == Ok([StartObject] + desc + body + [EndObject]);
    PayloadParts(conv, d, options, values, items);
  }

  lemma PayloadParts(conv: Converter, d: string, options: SerializerOptions, values: map<PropertyInfo, seq<Token>>, items: seq<Item>)
    requires ItemsReadable(items, values)
    ensures Payload(conv, d, options, values, items)
         == [StartObject] + [PropertyName(DescriptorMember(conv)), String(d)] + ItemsTokens(options, values, items) + [EndObject]
  {
    assert [StartObject] + [PropertyName(DescriptorMember(conv)), String(d)] == [StartObject, PropertyName(DescriptorMember(conv)), String(d)];
  }

  /** Writing the read state succeeds exactly when every unknown member of the layout can be written. */
  lemma WritePayloadSucceeds(conv: Converter, t: ClrType, d: string, options: SerializerOptions,
                             values: map<PropertyInfo, seq<Token>>, items: seq<Item>)
    requires WellFormed(conv) && Transparent(options) && IsAssignableFrom(conv.root, t) && ItemsReadable(items, values)
    requires Writers(items) == GetPropertyWriters(ConverterAccessor(conv, t))
    ensures Readable(conv, ConverterAccessor(conv, t), PayloadState(conv, t, d, values, items))
    ensures WriteSucceeds(conv, ConverterAccessor(conv, t), PayloadState(conv, t, d, values, items), options)
        <==> ItemsWritable(options, items)
  {
    PayloadReadable(conv, t, d, values, items);
    WritePayloadDescriptor(conv, t, d, options, values, items);
    PayloadLayout(conv, t, d, options, values, items);
  }

  /**
   * The round trip of an object whose first member is its descriptor: Read gives the described
   * class with the layout's property values and its unknown members at their positions; Write
   * of that instance, with the accessor Read left in the cache, gives back exactly the tokens
   * Read consumed, and it succeeds exactly when every unknown member can be written.
   */
  lemma ObjectRoundTrip(conv: Converter, accessors: map<ClrType, TypeAccessor>, typeToConvert: ClrType, d: string,
                        options: SerializerOptions, values: map<PropertyInfo, seq<Token>>, items: seq<Item>,
                        rest: seq<Token>, ts: seq<Token>, t: ClrType)
    requires Valid(conv.mappings.policy) && WellFormed(conv) && Transparent(options)
    requires t == DescribedClass(conv, d, typeToConvert) && Instantiable(accessors, t) && IsAssignableFrom(conv.root, t)
    requires t in accessors ==> accessors[t] == ConverterAccessor(conv, t)
    requires Writers(items) == GetPropertyWriters(ConverterAccessor(conv, t))
    requires Spans(items, values) && Unknowns(ConverterAccessor(conv, t), items, StartIndexAsWritten(conv, Some(d)))
    requires ts == Payload(conv, d, options, values, items) + rest
    ensures ReadSpec(conv, accessors, ts, 0, typeToConvert).Ok?
    ensures ReadSpec(conv, accessors, ts, 0, typeToConvert).value.0 == Some(PayloadState(conv, t, d, values, items))
    ensures ReadSpec(conv, accessors, ts, 0, typeToConvert).value.1 + 1 == |Payload(conv, d, options, values, items)|
    ensures CachedAccessor(CacheAfterRead(conv, accessors, ts, 0, typeToConvert), t, Some(GetPropertyFilter(conv)))
         == ConverterAccessor(conv, t)
    ensures Readable(conv, ConverterAccessor(conv, t), PayloadState(conv, t, d, values, items))
    ensures WriteSpec(conv, ConverterAccessor(conv, t), PayloadState(conv, t, d, values, items), options)
         == Ok(ts[..|Payload(conv, d, options, values, items)|])
    ensures WriteSucceeds(conv, ConverterAccessor(conv, t), PayloadState(conv, t, d, values, items), options)
        <==> ItemsWritable(options, items)
  {
    var acc := ConverterAccessor(conv, t);
    AccessorTable(t, Some(GetPropertyFilter(conv)), "");
    KnownFromWriters(acc, items);
    ReadPayload(conv, accessors, d, options, values, items, rest, ts, typeToConvert);
    PayloadCache(conv, accessors, d, options, values, items, rest, ts, typeToConvert);
    WritePayload(conv, t, d, options, values, items);
    WritePayloadSucceeds(conv, t, d, options, values, items);
    var payload := Payload(conv, d, options, values, items);
    assert ts[..|payload|] == payload;
  }

  /** After reading the payload, the cache holds the accessor Read used for the described class. */
  lemma PayloadCache(conv: Converter, accessors: map<ClrType, TypeAccessor>, d: string, options: SerializerOptions,
                     values: map<PropertyInfo, seq<Token>>, items: seq<Item>, rest: seq<Token>, ts: seq<Token>, typeToConvert: ClrType)
    requires Valid(conv.mappings.policy) && ItemsReadable(items, values)
    requires AccessorAvailable(accessors, DescribedClass(conv, d, typeToConvert))
    requires ts == Payload(conv, d, options, values, items) + rest
    ensures CacheAfterRead(conv, accessors, ts, 0, typeToConvert)
         == accessors[DescribedClass(conv, d, typeToConvert) := CachedAccessor(accessors, DescribedClass(conv, d, typeToConvert), Some(GetPropertyFilter(conv)))]
  {
    PayloadHeader(conv, d, options, values, items, rest, ts, typeToConvert);
  }

  // ---------------------------------------------------------------------------------------
  // A payload without its descriptor, in property mode

  /** The payload {"name": "v"}: one member, which is not the descriptor. */
  function UndescribedPayload(name: string, v: string): seq<Token>
  {
    [StartObject, PropertyName(name), String(v), EndObject]
  }

  /** The state Read gives such a payload: the requested class, its initial values, the member stored under key k. */
  function UndescribedState(conv: Converter, t: ClrType, name: string, v: string, k: int): ObjectState
  {
    ObjectState(t, InitialValues(t),
      Some(DataState(StoredDescriptor(conv, Header(t, None, 1)), map[k := ExtensionMember(k, name, StringValue(v))])))
  }

  /**
   * Reading a payload whose only member is neither the descriptor nor a property of the
   * requested class: the member is stored under the first index, counted either way.
   */
  lemma ReadUndescribed(conv: Converter, accessors: map<ClrType, TypeAccessor>, t: ClrType, name: string, v: string, corrected: bool)
    requires Valid(conv.mappings.policy) && Instantiable(accessors, t) && IsAssignableFrom(conv.root, t)
    requires !EqualsIgnoreCase(name, DescriptorMember(conv))
    requires Lookup(CachedAccessor(accessors, t, Some(GetPropertyFilter(conv))).table, name).None?
    ensures ReadSpecFrom(conv, accessors, UndescribedPayload(name, v), 0, t, corrected)
         == Ok((Some(UndescribedState(conv, t, name, v, FirstIndex(conv, None, corrected))), 3))
  {
    var ts := UndescribedPayload(name, v);
    var h := Header(t, None, 1);
    var k := FirstIndex(conv, None, corrected);
    var acc := CachedAccessor(accessors, t, Some(GetPropertyFilter(conv)));
    assert ReadHeader(conv, ts, 1, t) == Ok(h);
    assert ts[2..] == [String(v), EndObject];
    assert DecodeAt(ts, 2) == Ok((StringValue(v), 3));
    assert InitialState(conv, h) == InitialValues(t);
    assert ReadMembers(acc, ts, 1, k, InitialValues(t), map[])
        == ReadMembers(acc, ts, 3, k + 1, InitialValues(t), map[k := ExtensionMember(k, name, StringValue(v))]);
  }

  /**
   * As written, Read numbers the members of a payload that does not start with the descriptor
   * from 0 even when the descriptor is a property: its first unknown member is stored under key
   * 0. Write always writes the descriptor property and resumes at 1, so that member is never
   * written back.
   */
  lemma FirstMemberLostAsWritten(conv: Converter, accessors: map<ClrType, TypeAccessor>, t: ClrType, name: string, v: string,
                                 acc: TypeAccessor, options: SerializerOptions)
    requires Valid(conv.mappings.policy) && WellFormed(conv) && conv.descriptorProperty.Some?
    requires Instantiable(accessors, t) && IsAssignableFrom(conv.root, t)
    requires !EqualsIgnoreCase(name, DescriptorMember(conv))
    requires Lookup(CachedAccessor(accessors, t, Some(GetPropertyFilter(conv))).table, name).None?
    ensures ReadSpec(conv, accessors, UndescribedPayload(name, v), 0, t) == Ok((Some(UndescribedState(conv, t, name, v, 0)), 3))
    ensures var s := UndescribedState(conv, t, name, v, 0);
      && conv.descriptorProperty.value in s.values
      && (WriteTypeDescriptor(conv, s, options).Ok? ==> Members(Layout(acc, s, WriteTypeDescriptor(conv, s, options).value.1)) == [])
  {
    ReadUndescribed(conv, accessors, t, name, v, false);
    InheritedProperties(conv.root, t);
    var members := map[0 := ExtensionMember(0, name, StringValue(v))];
    InterleaveKeepsMembers(GetPropertyWriters(acc), members, 1);
    RestKeysMembers(members, 1);
    assert RestKeys(members, 1) == [];
  }

  /**
   * With positions counted as the writer counts them, the first member of a payload without
   * its descriptor is stored under key 1, and Write puts it back right after the descriptor.
   */
  lemma FirstMemberKept(conv: Converter, accessors: map<ClrType, TypeAccessor>, t: ClrType, name: string, v: string,
                        acc: TypeAccessor, options: SerializerOptions)
    requires Valid(conv.mappings.policy) && WellFormed(conv) && conv.descriptorProperty.Some?
    requires Instantiable(accessors, t) && IsAssignableFrom(conv.root, t)
    requires !EqualsIgnoreCase(name, DescriptorMember(conv))
    requires Lookup(CachedAccessor(accessors, t, Some(GetPropertyFilter(conv))).table, name).None?
    ensures ReadSpecFrom(conv, accessors, UndescribedPayload(name, v), 0, t, true) == Ok((Some(UndescribedState(conv, t, name, v, 1)), 3))
    ensures var s := UndescribedState(conv, t, name, v, 1);
      && conv.descriptorProperty.value in s.values
      && (WriteTypeDescriptor(conv, s, options).Ok? ==>
            var layout := Layout(acc, s, WriteTypeDescriptor(conv, s, options).value.1);
            Members(layout) == [ExtensionMember(1, name, StringValue(v))]
            && layout[0] == MemberItem(ExtensionMember(1, name, StringValue(v))))
  {
    ReadUndescribed(conv, accessors, t, name, v, true);
    InheritedProperties(conv.root, t);
    var m := ExtensionMember(1, name, StringValue(v));
    var members := map[1 := m];
    var writers := GetPropertyWriters(acc);
    InterleaveKeepsMembers(writers, members, 1);
    RestKeysAt(members, 1);
    RestKeysMembers(members, 2);
    assert RestKeys(members, 2) == [];
    if writers != [] {
      assert Interleave(writers, members, 1) == [MemberItem(m)] + Interleave(writers, members, 2);
    }
  }

  /**
   * When the descriptor is a property that the payload did not carry, Write writes the value a
   * new instance of the class holds in that property, first.
   */
  lemma UndescribedDescriptorWritten(conv: Converter, t: ClrType, name: string, v: string, k: int, options: SerializerOptions)
    requires WellFormed(conv) && conv.descriptorProperty.Some? && IsAssignableFrom(conv.root, t)
    ensures conv.descriptorProperty.value in InitialValues(t)
    ensures var initial := InitialValues(t)[conv.descriptorProperty.value];
      WriteTypeDescriptor(conv, UndescribedState(conv, t, name, v, k), options)
      == if IsDescriptorValue(initial)
         then Ok(([PropertyName(ConvertPropertyName(options, conv.descriptorProperty.value.name))] + initial, 1))
         else Err(InvalidCastException)
  {
    InheritedProperties(conv.root, t);
  }
}
