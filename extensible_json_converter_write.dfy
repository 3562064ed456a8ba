/**
 * ExtensibleJsonConverter.Write, WriteTypeDescriptor and WriteProperties.
 *
 * The writer is the token sequence a call returns. The members of an object are written in one
 * layout: the descriptor first, then the declared properties in table order with every unknown
 * member put back at the position it was read from, then the unknown members left over in
 * ascending key order. Interleave states that layout as a sequence of items, and the lemmas
 * below show that it keeps every property once, in order, and every unknown member from the
 * starting position on once, in key order, and that it undoes the split of a member sequence
 * into properties and positioned unknown members.
 */
module ExtensibleJsonConverterWrite {
  import opened Wrappers
  import opened JsonTokens
  import opened ClrTypes
  import opened ExtensionMembers
  import opened ExtensionDataStore
  import opened JsonOptions
  import opened ExtensibleObjects
  import opened TypeDescriptorPolicy
  import opened DefaultTypeMappings
  import opened PropertyWriters
  import opened TypeAccessors
  import opened TypeAccessorCaches
  import opened UnknownValueWriter
  import opened ExtensibleJsonConverters
  import opened OrderedKeys

  /** One item of the layout: a declared property through its writer, or an unknown member. */
  datatype Item = PropertyItem(writer: PropertyWriter) | MemberItem(member: ExtensionMember)

  /** The unknown members under keys, in that order. */
  function MemberItems(members: map<int, ExtensionMember>, keys: seq<int>): (r: seq<Item>)
    requires forall i :: 0 <= i < |keys| ==> keys[i] in members
    ensures |r| == |keys| && forall i :: 0 <= i < |r| ==> r[i] == MemberItem(members[keys[i]])
  {
    seq(|keys|, i requires 0 <= i < |keys| => MemberItem(members[keys[i]]))
  }

  /**
   * The order WriteProperties writes in: before each property, the unknown members found at
   * consecutive positions from index; each property then takes a position; after the last
   * property, every unknown member left from the current position on, by key.
   */
  function Interleave(writers: seq<PropertyWriter>, members: map<int, ExtensionMember>, index: int): seq<Item>
    decreases |writers|, |KeysFrom(members, index)|
  {
    if writers == [] then MemberItems(members, RestKeys(members, index))
    else if index in members then
      assert KeysFrom(members, index + 1) == KeysFrom(members, index) - {index};
      [MemberItem(members[index])] + Interleave(writers, members, index + 1)
    else [PropertyItem(writers[0])] + Interleave(writers[1..], members, index + 1)
  }

  /** The writers of the property items, in order. */
  function Writers(items: seq<Item>): seq<PropertyWriter>
  {
    if items == [] then []
    else (if items[0].PropertyItem? then [items[0].writer] else []) + Writers(items[1..])
  }

  /** The unknown members of the member items, in order. */
  function Members(items: seq<Item>): seq<ExtensionMember>
  {
    if items == [] then []
    else (if items[0].MemberItem? then [items[0].member] else []) + Members(items[1..])
  }

  /** The members under keys, in that order. */
  function MembersUnder(members: map<int, ExtensionMember>, keys: seq<int>): (r: seq<ExtensionMember>)
    requires forall i :: 0 <= i < |keys| ==> keys[i] in members
    ensures |r| == |keys| && forall i :: 0 <= i < |r| ==> r[i] == members[keys[i]]
  {
    seq(|keys|, i requires 0 <= i < |keys| => members[keys[i]])
  }

  lemma {:induction false} WritersOfMemberItems(members: map<int, ExtensionMember>, keys: seq<int>)
    requires forall i :: 0 <= i < |keys| ==> keys[i] in members
    ensures Writers(MemberItems(members, keys)) == []
    ensures Members(MemberItems(members, keys)) == MembersUnder(members, keys)
    decreases |keys|
  {
    if keys != [] {
      WritersOfMemberItems(members, keys[1..]);
      assert MemberItems(members, keys)[1..] == MemberItems(members, keys[1..]);
      assert MembersUnder(members, keys) == [members[keys[0]]] + MembersUnder(members, keys[1..]);
    }
  }

  /** Every property is written exactly once, and in table order, whatever the unknown members. */
  lemma {:induction false} InterleaveKeepsWriters(writers: seq<PropertyWriter>, members: map<int, ExtensionMember>, index: int)
    ensures Writers(Interleave(writers, members, index)) == writers
    decreases |writers|, |KeysFrom(members, index)|
  {
    var items := Interleave(writers, members, index);
    if writers == [] {
      WritersOfMemberItems(members, RestKeys(members, index));
    } else if index in members {
      assert KeysFrom(members, index + 1) == KeysFrom(members, index) - {index};
      InterleaveKeepsWriters(writers, members, index + 1);
      assert items[1..] == Interleave(writers, members, index + 1);
    } else {
      InterleaveKeepsWriters(writers[1..], members, index + 1);
      assert items[1..] == Interleave(writers[1..], members, index + 1);
    }
  }

  /**
   * Every unknown member from the starting position on is written exactly once, in ascending
   * key order, and no member below the starting position is written.
   */
  lemma {:induction false} InterleaveKeepsMembers(writers: seq<PropertyWriter>, members: map<int, ExtensionMember>, index: int)
    ensures Members(Interleave(writers, members, index)) == MembersUnder(members, RestKeys(members, index))
    decreases |writers|, |KeysFrom(members, index)|
  {
    if writers == [] {
      WritersOfMemberItems(members, RestKeys(members, index));
    } else if index in members {
      assert KeysFrom(members, index + 1) == KeysFrom(members, index) - {index};
      InterleaveKeepsMembers(writers, members, index + 1);
      KeepsMembersAt(writers, members, index);
    } else {
      InterleaveKeepsMembers(writers[1..], members, index + 1);
      KeepsMembersSkip(writers, members, index);
    }
  }

  /** InterleaveKeepsMembers when a member sits at the current position: it is written first. */
  lemma KeepsMembersAt(writers: seq<PropertyWriter>, members: map<int, ExtensionMember>, index: int)
    requires writers != [] && index in members
    requires Members(Interleave(writers, members, index + 1)) == MembersUnder(members, RestKeys(members, index + 1))
    ensures Members(Interleave(writers, members, index)) == MembersUnder(members, RestKeys(members, index))
  {
    var items := Interleave(writers, members, index);
    var rest := Interleave(writers, members, index + 1);
    assert items == [MemberItem(members[index])] + rest;
    assert items[1..] == rest;
    assert Members(items) == [members[index]] + Members(rest);
    RestKeysAt(members, index);
    MembersUnderCons(members, index, RestKeys(members, index + 1));
  }

  lemma MembersUnderCons(members: map<int, ExtensionMember>, k: int, keys: seq<int>)
    requires k in members && forall i :: 0 <= i < |keys| ==> keys[i] in members
    ensures MembersUnder(members, [k] + keys) == [members[k]] + MembersUnder(members, keys)
  {
    var lhs := MembersUnder(members, [k] + keys);
    var rhs := [members[k]] + MembersUnder(members, keys);
    forall i | 0 <= i < |lhs| ensures lhs[i] == rhs[i] {
      if i > 0 {
        assert ([k] + keys)[i] == keys[i - 1];
      }
    }
  }

  /** InterleaveKeepsMembers when the current position is free: a property is written, no member. */
  lemma KeepsMembersSkip(writers: seq<PropertyWriter>, members: map<int, ExtensionMember>, index: int)
    requires writers != [] && index !in members
    requires Members(Interleave(writers[1..], members, index + 1)) == MembersUnder(members, RestKeys(members, index + 1))
    ensures Members(Interleave(writers, members, index)) == MembersUnder(members, RestKeys(members, index))
  {
    var items := Interleave(writers, members, index);
    assert items == [PropertyItem(writers[0])] + Interleave(writers[1..], members, index + 1);
    assert items[1..] == Interleave(writers[1..], members, index + 1);
    RestKeysSkip(members, index);
  }

  /** The unknown members of a layout, keyed by their position counted from index. */
  function MembersAt(items: seq<Item>, index: int): (r: map<int, ExtensionMember>)
    ensures forall k :: k in r ==> index <= k < index + |items|
    ensures forall p :: 0 <= p < |items| ==> (index + p in r <==> items[p].MemberItem?)
    ensures forall p :: 0 <= p < |items| && items[p].MemberItem? ==> r[index + p] == items[p].member
  {
    if items == [] then map[]
    else
      var rest := MembersAt(items[1..], index + 1);
      if items[0].MemberItem? then rest[index := items[0].member] else rest
  }

  lemma MemberItemsAgree(m1: map<int, ExtensionMember>, m2: map<int, ExtensionMember>, index: int)
    requires AgreeFrom(m1, m2, index)
    ensures MemberItems(m1, RestKeys(m1, index)) == MemberItems(m2, RestKeys(m2, index))
  {
    RestKeysAgree(m1, m2, index);
  }

  /** The layout only looks at the members from its starting position on. */
  lemma {:induction false} InterleaveAgree(writers: seq<PropertyWriter>, m1: map<int, ExtensionMember>, m2: map<int, ExtensionMember>, index: int)
    requires AgreeFrom(m1, m2, index)
    ensures Interleave(writers, m1, index) == Interleave(writers, m2, index)
    decreases |writers|, |KeysFrom(m1, index)|
  {
    if writers == [] {
      MemberItemsAgree(m1, m2, index);
    } else if index in m1 {
      assert KeysFrom(m1, index + 1) == KeysFrom(m1, index) - {index};
      InterleaveAgree(writers, m1, m2, index + 1);
    } else {
      InterleaveAgree(writers[1..], m1, m2, index + 1);
    }
  }

  /**
   * Interleave undoes the split of a layout into its properties, in order, and its unknown
   * members keyed by position: it puts every item back where it was.
   */
  lemma {:induction false} InterleaveRestoresLayout(items: seq<Item>, index: int)
    ensures Interleave(Writers(items), MembersAt(items, index), index) == items
    decreases |items|
  {
    if items == [] {
      assert RestKeys(MembersAt(items, index), index) == [];
    } else {
      InterleaveRestoresLayout(items[1..], index + 1);
      MembersAtAgree(items, index);
      if items[0].PropertyItem? {
        RestorePropertyFirst(items, index);
      } else if Writers(items) == [] {
        RestoreMembersOnly(items, index);
      } else {
        RestoreMemberFirst(items, index);
      }
    }
  }

  /** Below the first position, a layout and its tail keep the same unknown members. */
  lemma MembersAtAgree(items: seq<Item>, index: int)
    requires items != []
    ensures AgreeFrom(MembersAt(items, index), MembersAt(items[1..], index + 1), index + 1)
  {
  }

  /** InterleaveRestoresLayout for a layout that starts with a property. */
  lemma RestorePropertyFirst(items: seq<Item>, index: int)
    requires items != [] && items[0].PropertyItem?
    requires Interleave(Writers(items[1..]), MembersAt(items[1..], index + 1), index + 1) == items[1..]
    requires AgreeFrom(MembersAt(items, index), MembersAt(items[1..], index + 1), index + 1)
    ensures Interleave(Writers(items), MembersAt(items, index), index) == items
  {
    var tail := items[1..];
    assert Writers(items) == [items[0].writer] + Writers(tail);
    assert Writers(items)[1..] == Writers(tail);
    InterleaveAgree(Writers(tail), MembersAt(items, index), MembersAt(tail, index + 1), index + 1);
  }

  /** InterleaveRestoresLayout for a layout of unknown members only. */
  lemma RestoreMembersOnly(items: seq<Item>, index: int)
    requires items != [] && items[0].MemberItem? && Writers(items) == []
    requires Interleave(Writers(items[1..]), MembersAt(items[1..], index + 1), index + 1) == items[1..]
    requires AgreeFrom(MembersAt(items, index), MembersAt(items[1..], index + 1), index + 1)
    ensures Interleave(Writers(items), MembersAt(items, index), index) == items
  {
    var members := MembersAt(items, index);
    RestKeysAt(members, index);
    MemberItemsAgree(members, MembersAt(items[1..], index + 1), index + 1);
    assert Writers(items[1..]) == [];
    MemberItemsCons(members, index, RestKeys(members, index + 1));
  }

  /** The member items of keys with one key in front. */
  lemma MemberItemsCons(members: map<int, ExtensionMember>, k: int, keys: seq<int>)
    requires k in members && forall i :: 0 <= i < |keys| ==> keys[i] in members
    ensures MemberItems(members, [k] + keys) == [MemberItem(members[k])] + MemberItems(members, keys)
  {
    var ks := [k] + keys;
    var lhs := MemberItems(members, ks);
    var rhs := [MemberItem(members[k])] + MemberItems(members, keys);
    forall i | 0 <= i < |lhs|
      ensures lhs[i] == rhs[i]
    {
      if i > 0 {
        assert ks[i] == keys[i - 1];
      }
    }
    assert lhs == rhs;
  }

  /** InterleaveRestoresLayout for a layout that starts with an unknown member and has a property later. */
  lemma RestoreMemberFirst(items: seq<Item>, index: int)
    requires items != [] && items[0].MemberItem? && Writers(items) != []
    requires Interleave(Writers(items[1..]), MembersAt(items[1..], index + 1), index + 1) == items[1..]
    requires AgreeFrom(MembersAt(items, index), MembersAt(items[1..], index + 1), index + 1)
    ensures Interleave(Writers(items), MembersAt(items, index), index) == items
  {
    assert Writers(items[1..]) == Writers(items);
    InterleaveAgree(Writers(items), MembersAt(items, index), MembersAt(items[1..], index + 1), index + 1);
  }

  /** The tokens of a layout: each property through its writer, each unknown member as WriteExtensionMember writes it. */
  function ItemsTokens(options: SerializerOptions, values: map<PropertyInfo, seq<Token>>, items: seq<Item>): seq<Token>
    requires ItemsReadable(items, values)
  {
    if items == [] then []
    else ItemTokens(options, values, items[0]) + ItemsTokens(options, values, items[1..])
  }

  /** The tokens of one item. */
  function ItemTokens(options: SerializerOptions, values: map<PropertyInfo, seq<Token>>, item: Item): seq<Token>
    requires item.PropertyItem? ==> item.writer.property in values
  {
    if item.PropertyItem? then PropertyTokens(options, item.writer, values[item.writer.property])
    else EncodeMember(options, item.member)
  }

  /** The properties a layout writes are held by the instance. */
  predicate ItemsReadable(items: seq<Item>, values: map<PropertyInfo, seq<Token>>)
  {
    forall i :: 0 <= i < |items| && items[i].PropertyItem? ==> items[i].writer.property in values
  }

  /** A layout whose unknown members WriteExtensionMember writes without an exception. */
  predicate ItemsWritable(options: SerializerOptions, items: seq<Item>)
  {
    forall i :: 0 <= i < |items| && items[i].MemberItem? ==> MemberWritable(options, items[i].member)
  }

  /** The properties the writers read are held by the instance. */
  predicate WritersReadable(writers: seq<PropertyWriter>, values: map<PropertyInfo, seq<Token>>)
  {
    forall i :: 0 <= i < |writers| ==> writers[i].property in values
  }

  lemma {:induction false} InterleaveReadable(writers: seq<PropertyWriter>, members: map<int, ExtensionMember>, index: int,
                                             values: map<PropertyInfo, seq<Token>>)
    requires WritersReadable(writers, values)
    ensures ItemsReadable(Interleave(writers, members, index), values)
    decreases |writers|, |KeysFrom(members, index)|
  {
    if writers != [] {
      if index in members {
        assert KeysFrom(members, index + 1) == KeysFrom(members, index) - {index};
        InterleaveReadable(writers, members, index + 1, values);
      } else {
        InterleaveReadable(writers[1..], members, index + 1, values);
      }
    }
  }

  /**
   * WriteTypeDescriptor: the descriptor member and the position the properties start at. A
   * descriptor property is written under its own name, its value cast to string (null is written
   * as null, anything else fails the cast), and the properties start at 1. Metadata is written
   * under the descriptor member name: the TypeDescriptor kept in the ExtensionData, else the
   * class's mapped descriptor, else nothing; the properties then start at 0.
   */
  function WriteTypeDescriptor(conv: Converter, s: ObjectState, options: SerializerOptions): (r: Result<(seq<Token>, int)>)
    requires conv.descriptorProperty.Some? ==> conv.descriptorProperty.value in s.values
    ensures r.Err? <==> conv.descriptorProperty.Some? && !IsDescriptorValue(s.values[conv.descriptorProperty.value])
    ensures r.Err? ==> r.error == InvalidCastException
    ensures r.Ok? ==> r.value.1 == (if conv.descriptorProperty.Some? then 1 else 0)
    ensures r.Ok? && conv.descriptorProperty.Some? ==>
      r.value.0 == [PropertyName(ConvertPropertyName(options, conv.descriptorProperty.value.name))]
                   + s.values[conv.descriptorProperty.value]
    ensures r.Ok? && conv.descriptorProperty.None? ==>
      var d := if s.data.Some? && s.data.value.typeDescriptor.Some? then s.data.value.typeDescriptor
               else IsHierarchyMapped(conv.mappings, s.runtimeType);
      r.value.0 == if d.Some? then [PropertyName(ConvertPropertyName(options, DescriptorMember(conv))), String(d.value)] else []
  {
    match conv.descriptorProperty
    case Some(p) =>
      var v := s.values[p];
      if IsDescriptorValue(v) then Ok(([PropertyName(ConvertPropertyName(options, p.name))] + v, 1))
      else Err(InvalidCastException)
    case None =>
      var name := PropertyName(ConvertPropertyName(options, DescriptorMember(conv)));
      if s.data.Some? && s.data.value.typeDescriptor.Some? then Ok(([name, String(s.data.value.typeDescriptor.value)], 0))
      else match IsHierarchyMapped(conv.mappings, s.runtimeType)
        case Some(d) => Ok(([name, String(d)], 0))
        case None => Ok(([], 0))
  }

  /** A value the string cast accepts: a string or null. */
  predicate IsDescriptorValue(v: seq<Token>)
  {
    v == [Null] || (|v| == 1 && v[0].String?)
  }

  /** The layout Write produces for an instance, from the position the descriptor leaves. */
  function Layout(acc: TypeAccessor, s: ObjectState, index: int): seq<Item>
  {
    Interleave(GetPropertyWriters(acc), MembersOf(s), index)
  }

  /** The instance holds every property the accessor's table and the descriptor refer to. */
  predicate Readable(conv: Converter, acc: TypeAccessor, s: ObjectState)
  {
    && (conv.descriptorProperty.Some? ==> conv.descriptorProperty.value in s.values)
    && forall e :: e in acc.table ==> e.property in s.values
  }

  /** A property writer per table entry, so the writers read what the table refers to. */
  lemma TableReadable(acc: TypeAccessor, values: map<PropertyInfo, seq<Token>>)
    requires forall e :: e in acc.table ==> e.property in values
    ensures WritersReadable(GetPropertyWriters(acc), values)
  {
    var writers := GetPropertyWriters(acc);
    forall i | 0 <= i < |writers| ensures writers[i].property in values {
      assert acc.table[i] in acc.table;
    }
  }

  /** Write for a non-null instance with accessor acc: '{', the descriptor, the layout, '}'. */
  function WriteSpec(conv: Converter, acc: TypeAccessor, s: ObjectState, options: SerializerOptions): (r: Result<seq<Token>>)
    requires Readable(conv, acc, s)
    ensures r.Err? <==> WriteTypeDescriptor(conv, s, options).Err?
    ensures r.Ok? ==> |r.value| >= 2 && r.value[0] == StartObject && r.value[|r.value| - 1] == EndObject
  {
    match WriteTypeDescriptor(conv, s, options)
    case Err(e) => Err(e)
    case Ok((desc, index)) =>
      TableReadable(acc, s.values);
      InterleaveReadable(GetPropertyWriters(acc), MembersOf(s), index, s.values);
      Ok([StartObject] + desc + ItemsTokens(options, s.values, Layout(acc, s, index)) + [EndObject])
  }

  /** Writing succeeds when the descriptor can be written and every unknown member of the layout can. */
  predicate WriteSucceeds(conv: Converter, acc: TypeAccessor, s: ObjectState, options: SerializerOptions)
    requires Readable(conv, acc, s)
  {
    match WriteTypeDescriptor(conv, s, options)
    case Err(_) => false
    case Ok((_, index)) => ItemsWritable(options, Layout(acc, s, index))
  }

  lemma Assoc<T>(a: seq<T>, b: seq<T>, c: seq<T>)
    ensures a + (b + c) == (a + b) + c
  {
  }

  /** Prepending one item to a layout: its tokens come first, and it must be writable too. */
  lemma ItemsCons(options: SerializerOptions, values: map<PropertyInfo, seq<Token>>, item: Item, items: seq<Item>)
    requires item.PropertyItem? ==> item.writer.property in values
    requires ItemsReadable(items, values)
    ensures ItemsReadable([item] + items, values)
    ensures ItemsTokens(options, values, [item] + items) == ItemTokens(options, values, item) + ItemsTokens(options, values, items)
    ensures ItemsWritable(options, [item] + items)
        <==> (item.MemberItem? ==> MemberWritable(options, item.member)) && ItemsWritable(options, items)
  {
    var all := [item] + items;
    assert all[1..] == items;
    forall i | 0 <= i < |all| && all[i].PropertyItem?
      ensures all[i].writer.property in values
    {
      if i > 0 {
        assert all[i] == items[i - 1];
      }
    }
  }

  /** One unknown member of a layout, then the layout after it. */
  lemma MemberItemStep(options: SerializerOptions, values: map<PropertyInfo, seq<Token>>, items: seq<Item>, j: nat, member: ExtensionMember)
    requires j < |items| && items[j] == MemberItem(member) && ItemsReadable(items[j..], values)
    ensures ItemsReadable(items[j + 1..], values)
    ensures ItemsWritable(options, items[j..]) <==> MemberWritable(options, member) && ItemsWritable(options, items[j + 1..])
    ensures ItemsTokens(options, values, items[j..]) == EncodeMember(options, member) + ItemsTokens(options, values, items[j + 1..])
  {
    var tail := items[j + 1..];
    assert items[j..] == [MemberItem(member)] + tail;
    forall i | 0 <= i < |tail| && tail[i].PropertyItem?
      ensures tail[i].writer.property in values
    {
      assert tail[i] == items[j..][i + 1];
    }
    ItemsCons(options, values, MemberItem(member), tail);
  }

  /** A position holding an unknown member, before a property: the member comes first. */
  lemma MemberStep(options: SerializerOptions, values: map<PropertyInfo, seq<Token>>,
                   writers: seq<PropertyWriter>, members: map<int, ExtensionMember>, index: int)
    requires writers != [] && index in members && WritersReadable(writers, values)
    ensures |KeysFrom(members, index + 1)| < |KeysFrom(members, index)|
    ensures ItemsReadable(Interleave(writers, members, index), values)
    ensures ItemsReadable(Interleave(writers, members, index + 1), values)
    ensures ItemsWritable(options, Interleave(writers, members, index))
        <==> MemberWritable(options, members[index]) && ItemsWritable(options, Interleave(writers, members, index + 1))
    ensures ItemsTokens(options, values, Interleave(writers, members, index))
         == EncodeMember(options, members[index]) + ItemsTokens(options, values, Interleave(writers, members, index + 1))
  {
    assert KeysFrom(members, index + 1) == KeysFrom(members, index) - {index};
    InterleaveReadable(writers, members, index + 1, values);
    ItemsCons(options, values, MemberItem(members[index]), Interleave(writers, members, index + 1));
  }

  /** A free position with a property left: the property takes it. */
  lemma PropertyStep(options: SerializerOptions, values: map<PropertyInfo, seq<Token>>,
                     writers: seq<PropertyWriter>, members: map<int, ExtensionMember>, index: int)
    requires writers != [] && index !in members && WritersReadable(writers, values)
    ensures ItemsReadable(Interleave(writers, members, index), values)
    ensures ItemsReadable(Interleave(writers[1..], members, index + 1), values)
    ensures ItemsWritable(options, Interleave(writers, members, index))
        <==> ItemsWritable(options, Interleave(writers[1..], members, index + 1))
    ensures ItemsTokens(options, values, Interleave(writers, members, index))
         == PropertyTokens(options, writers[0], values[writers[0].property])
            + ItemsTokens(options, values, Interleave(writers[1..], members, index + 1))
  {
    InterleaveReadable(writers[1..], members, index + 1, values);
    ItemsCons(options, values, PropertyItem(writers[0]), Interleave(writers[1..], members, index + 1));
  }

  /**
   * The inner loop of WriteProperties: the unknown members at consecutive positions from index,
   * written before the next property; it stops at the first free position.
   */
  method WriteMembersAt(options: SerializerOptions, data: ExtensionData, index: int,
                        ghost writers: seq<PropertyWriter>, ghost values: map<PropertyInfo, seq<Token>>)
    returns (r: Result<(seq<Token>, int)>)
    requires writers != [] && WritersReadable(writers, values)
    ensures var members := data.extensionMembers;
      var whole := Interleave(writers, members, index);
      && ItemsReadable(whole, values)
      && (r.Err? ==> !ItemsWritable(options, whole))
      && (r.Ok? ==>
            var (out, next) := r.value;
            var remaining := Interleave(writers, members, next);
            && next >= index && next !in members
            && ItemsReadable(remaining, values)
            && (ItemsWritable(options, whole) <==> ItemsWritable(options, remaining))
            && out + ItemsTokens(options, values, remaining) == ItemsTokens(options, values, whole))
  {
    ghost var members := data.extensionMembers;
    InterleaveReadable(writers, members, index, values);
    ghost var whole := Interleave(writers, members, index);
    var out: seq<Token> := [];
    var next := index;
    while next in data.extensionMembers
      invariant next >= index
      invariant ItemsReadable(Interleave(writers, members, next), values)
        && (ItemsWritable(options, whole) <==> ItemsWritable(options, Interleave(writers, members, next)))
        && out + ItemsTokens(options, values, Interleave(writers, members, next)) == ItemsTokens(options, values, whole)
      decreases |KeysFrom(members, next)|
    {
      var member := data.extensionMembers[next];
      MemberStep(options, values, writers, members, next);
      var written := WriteExtensionMember(options, member);
      if written.Err? {
        return Err(written.error);
      }
      Assoc(out, written.value, ItemsTokens(options, values, Interleave(writers, members, next + 1)));
      out := out + written.value;
      next := next + 1;
    }
    r := Ok((out, next));
  }

  /**
   * WriteProperties: before each property writer, the unknown members at consecutive positions
   * from index, then the property; each takes one position. Then the unknown members from the
   * current position on, by ascending key.
   */
  method WriteProperties(obj: ExtensibleObject, options: SerializerOptions, acc: TypeAccessor, index: int)
    returns (r: Result<seq<Token>>)
    requires WritersReadable(GetPropertyWriters(acc), obj.values)
    ensures var items := Interleave(GetPropertyWriters(acc), MembersOf(StateOf(obj)), index);
      && ItemsReadable(items, obj.values)
      && (r.Ok? <==> ItemsWritable(options, items))
      && (r.Ok? ==> r.value == ItemsTokens(options, obj.values, items))
  {
    var writers := GetPropertyWriters(acc);
    ghost var members := MembersOf(StateOf(obj));
    assert obj.extensionData != null ==> members == obj.extensionData.extensionMembers;
    InterleaveReadable(writers, members, index, obj.values);
    ghost var whole := Interleave(writers, members, index);
    var out: seq<Token> := [];
    var index := index;
    for i := 0 to |writers|
      invariant Progress(options, obj.values, whole, Interleave(writers[i..], members, index), out)
    {
      if obj.extensionData != null {
        var flushed := WriteMembersAt(options, obj.extensionData, index, writers[i..], obj.values);
        if flushed.Err? {
          return Err(flushed.error);
        }
        FlushProgress(options, obj.values, whole, Interleave(writers[i..], members, index),
                      Interleave(writers[i..], members, flushed.value.1), out, flushed.value.0);
        out := out + flushed.value.0;
        index := flushed.value.1;
      }
      assert writers[i..][1..] == writers[i + 1..];
      var property := PropertyWriters.Write(writers[i], obj, options);
      PropertyProgress(options, obj.values, whole, writers[i..], members, index, out);
      out := out + property;
      index := index + 1;
    }
    assert writers[|writers|..] == [];
    if obj.extensionData != null {
      var rest := WriteRest(options, obj.extensionData, index, obj.values);
      if rest.Err? {
        return rest;
      }
      out := out + rest.value;
    }
    r := Ok(out);
  }

  /**
   * The loop state of WriteProperties: out holds the tokens of the items written so far, and
   * the items left make up the rest of the layout.
   */
  ghost predicate Progress(options: SerializerOptions, values: map<PropertyInfo, seq<Token>>,
                           whole: seq<Item>, rest: seq<Item>, out: seq<Token>)
  {
    && ItemsReadable(whole, values) && ItemsReadable(rest, values)
    && (ItemsWritable(options, whole) <==> ItemsWritable(options, rest))
    && out + ItemsTokens(options, values, rest) == ItemsTokens(options, values, whole)
  }

  /** Writing the items before after keeps the loop state of WriteProperties. */
  lemma FlushProgress(options: SerializerOptions, values: map<PropertyInfo, seq<Token>>,
                      whole: seq<Item>, before: seq<Item>, after: seq<Item>, out: seq<Token>, flushed: seq<Token>)
    requires Progress(options, values, whole, before, out) && ItemsReadable(after, values)
    requires ItemsWritable(options, before) <==> ItemsWritable(options, after)
    requires flushed + ItemsTokens(options, values, after) == ItemsTokens(options, values, before)
    ensures Progress(options, values, whole, after, out + flushed)
  {
    Assoc(out, flushed, ItemsTokens(options, values, after));
  }

  /** Writing the next property keeps the loop state of WriteProperties. */
  lemma PropertyProgress(options: SerializerOptions, values: map<PropertyInfo, seq<Token>>, whole: seq<Item>,
                         writers: seq<PropertyWriter>, members: map<int, ExtensionMember>, index: int, out: seq<Token>)
    requires writers != [] && index !in members && WritersReadable(writers, values)
    requires Progress(options, values, whole, Interleave(writers, members, index), out)
    ensures Progress(options, values, whole, Interleave(writers[1..], members, index + 1),
                     out + PropertyTokens(options, writers[0], values[writers[0].property]))
  {
    PropertyStep(options, values, writers, members, index);
    Assoc(out, PropertyTokens(options, writers[0], values[writers[0].property]),
          ItemsTokens(options, values, Interleave(writers[1..], members, index + 1)));
  }

  /** The unknown members from index on, by ascending key: the tail of WriteProperties. */
  method WriteRest(options: SerializerOptions, data: ExtensionData, index: int, ghost values: map<PropertyInfo, seq<Token>>)
    returns (r: Result<seq<Token>>)
    ensures var items := MemberItems(data.extensionMembers, RestKeys(data.extensionMembers, index));
      && ItemsReadable(items, values)
      && (r.Ok? <==> ItemsWritable(options, items))
      && (r.Ok? ==> r.value == ItemsTokens(options, values, items))
  {
    var keys := RestKeys(data.extensionMembers, index);
    ghost var whole := MemberItems(data.extensionMembers, keys);
    var out: seq<Token> := [];
    for j := 0 to |keys|
      invariant ItemsReadable(whole[j..], values)
      invariant ItemsWritable(options, whole) <==> ItemsWritable(options, whole[j..])
      invariant out + ItemsTokens(options, values, whole[j..]) == ItemsTokens(options, values, whole)
    {
      var member := data.extensionMembers[keys[j]];
      MemberItemStep(options, values, whole, j, member);
      var written := WriteExtensionMember(options, member);
      if written.Err? {
        return Err(written.error);
      }
      Assoc(out, written.value, ItemsTokens(options, values, whole[j + 1..]));
      out := out + written.value;
    }
    assert whole[|keys|..] == [];
    r := Ok(out);
  }

  /**
   * Write: null is written as null. Otherwise the accessor of the runtime class is fetched from
   * the cache under the converter's filter (stored on a miss, whatever happens next; a class
   * without a parameterless constructor throws ArgumentNullException there), and the
   * instance is written as WriteSpec lays it out; it fails when the descriptor property does not
   * hold a string or an unknown member cannot be written.
   */
  method Write(conv: Converter, cache: TypeAccessorCache, obj: ExtensibleObject?, options: SerializerOptions)
    returns (r: Result<seq<Token>>)
    requires cache.Valid() && WellFormed(conv)
    requires obj != null ==> obj.Valid() && IsAssignableFrom(conv.root, obj.runtimeType)
    modifies cache
    ensures cache.Valid()
    ensures obj == null ==> r == Ok([Null]) && cache.accessors == old(cache.accessors)
    ensures obj != null && !AccessorAvailable(old(cache.accessors), obj.runtimeType) ==>
      r == Err(ArgumentNullException) && cache.accessors == old(cache.accessors)
    ensures obj != null && AccessorAvailable(old(cache.accessors), obj.runtimeType) ==>
      var acc := CachedAccessor(old(cache.accessors), obj.runtimeType, Some(GetPropertyFilter(conv)));
      && cache.accessors == old(cache.accessors)[obj.runtimeType := acc]
      && Readable(conv, acc, StateOf(obj))
      && (r.Ok? <==> WriteSucceeds(conv, acc, StateOf(obj), options))
      && (r.Ok? ==> r.value == WriteSpec(conv, acc, StateOf(obj), options).value)
      && (WriteSpec(conv, acc, StateOf(obj), options).Err? ==> r == WriteSpec(conv, acc, StateOf(obj), options))
  {
    if obj == null {
      return Ok([Null]);
    }
    var t := obj.runtimeType;
    var fetched := cache.GetTypeAccessor(t, Some(GetPropertyFilter(conv)));
    if fetched.Err? {
      return Err(fetched.error);
    }
    var acc := fetched.value;
    CachedAccessorProperties(old(cache.accessors), t, Some(GetPropertyFilter(conv)));
    InheritedProperties(conv.root, t);
    var s := StateOf(obj);
    assert Readable(conv, acc, s);
    var descriptor := WriteTypeDescriptor(conv, s, options);
    if descriptor.Err? {
      return Err(descriptor.error);
    }
    TableReadable(acc, obj.values);
    var body := WriteProperties(obj, options, acc, descriptor.value.1);
    if body.Err? {
      return Err(body.error);
    }
    r := Ok([StartObject] + descriptor.value.0 + body.value + [EndObject]);
  }
}
