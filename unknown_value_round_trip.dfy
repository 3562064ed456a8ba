/**
 * Unknown values survive a round trip: writing a value and reading it back gives the value, and
 * reading a comment-free value and writing it back gives the tokens that were read, as long as
 * names are not converted and null members are not dropped.
 */
module UnknownValueRoundTrip {
  import opened Wrappers
  import opened JsonTokens
  import opened ExtensionMembers
  import opened JsonOptions
  import opened UnknownValueReader
  import opened UnknownValueWriter

  /** Options under which the written form of a value is exactly what the reader consumed. */
  predicate Transparent(options: SerializerOptions)
  {
    KeepsNames(options) && !options.ignoreNullValues
  }

  predicate CommentFree(ts: seq<Token>)
  {
    forall i :: 0 <= i < |ts| ==> !ts[i].Comment?
  }

  /** A written value starts with the token that opens it, never with a closing token or a name. */
  lemma EncodedValueOpens(options: SerializerOptions, v: Value)
    ensures |EncodeValue(options, v)| > 0
    ensures var t := EncodeValue(options, v)[0];
      t != EndArray && t != EndObject && !t.PropertyName? && !t.Comment?
  {
  }

  /** Writing then reading a well-indexed value gives the value back and leaves what follows it. */
  lemma {:induction false} EncodeThenDecodeValue(options: SerializerOptions, v: Value, rest: seq<Token>)
    requires Transparent(options) && WellIndexed(v)
    ensures DecodeValue(EncodeValue(options, v) + rest) == Ok((v, rest))
    decreases v, 1
  {
    var ts := EncodeValue(options, v) + rest;
    match v
    case ObjectValue(ms) =>
      var body := EncodeMembers(options, ms, 0) + [EndObject] + rest;
      assert ts == [StartObject] + body;
      assert ts[1..] == body;
      EncodeThenDecodeMembers(options, ms, 0, rest);
      assert ms[0..] == ms;
      assert DecodeObject(body, 0) == Ok((ms, rest));
    case ListValue(items) =>
      var body := EncodeItems(options, items, 0) + [EndArray] + rest;
      assert ts == [StartArray] + body;
      assert ts[1..] == body;
      EncodeThenDecodeItems(options, items, 0, rest);
      assert items[0..] == items;
      assert DecodeList(body) == Ok((items, rest));
    case _ =>
      assert ts[1..] == rest;
  }

  lemma {:induction false} EncodeThenDecodeItems(options: SerializerOptions, items: seq<Value>, i: nat, rest: seq<Token>)
    requires Transparent(options) && i <= |items|
    requires forall j :: i <= j < |items| ==> WellIndexed(items[j])
    ensures DecodeList(EncodeItems(options, items, i) + [EndArray] + rest) == Ok((items[i..], rest))
    decreases ListValue(items), 0, |items| - i
  {
    if i == |items| {
      assert EncodeItems(options, items, i) + [EndArray] + rest == [EndArray] + rest;
      assert ([EndArray] + rest)[1..] == rest;
      assert items[i..] == [];
    } else {
      var first := EncodeValue(options, items[i]);
      var after := EncodeItems(options, items, i + 1) + [EndArray] + rest;
      assert first != [] && first[0] != EndArray by {
        EncodedValueOpens(options, items[i]);
      }
      assert DecodeValue(first + after) == Ok((items[i], after)) by {
        EncodeThenDecodeValue(options, items[i], after);
      }
      assert DecodeList(after) == Ok((items[i + 1..], rest)) by {
        EncodeThenDecodeItems(options, items, i + 1, rest);
      }
      DecodeListCons(first, after, items[i], items[i + 1..], rest);
      ItemTokens(options, items, i, rest);
      SliceCons(items, i);
    }
  }

  lemma ItemTokens(options: SerializerOptions, items: seq<Value>, i: nat, rest: seq<Token>)
    requires i < |items|
    ensures EncodeItems(options, items, i) + [EndArray] + rest
         == EncodeValue(options, items[i]) + (EncodeItems(options, items, i + 1) + [EndArray] + rest)
  {
  }

  lemma SliceCons<T>(s: seq<T>, i: nat)
    requires i < |s|
    ensures s[i..] == [s[i]] + s[i + 1..]
  {
  }

  /** A list the reader accepts item by item. */
  lemma DecodeListCons(first: seq<Token>, after: seq<Token>, v: Value, vs: seq<Value>, rest: seq<Token>)
    requires first != [] && first[0] != EndArray
    requires DecodeValue(first + after) == Ok((v, after)) && DecodeList(after) == Ok((vs, rest))
    ensures DecodeList(first + after) == Ok(([v] + vs, rest))
  {
    assert (first + after)[0] == first[0];
  }

  lemma {:induction false} EncodeThenDecodeMembers(options: SerializerOptions, ms: seq<ExtensionMember>, i: nat, rest: seq<Token>)
    requires Transparent(options) && i <= |ms|
    requires forall j :: i <= j < |ms| ==> ms[j].index == j && WellIndexed(ms[j].value)
    ensures DecodeObject(EncodeMembers(options, ms, i) + [EndObject] + rest, i) == Ok((ms[i..], rest))
    decreases ObjectValue(ms), 0, |ms| - i
  {
    if i == |ms| {
      assert EncodeMembers(options, ms, i) + [EndObject] + rest == [EndObject] + rest;
      assert ([EndObject] + rest)[1..] == rest;
      assert ms[i..] == [];
    } else {
      var m := ms[i];
      var value := EncodeValue(options, m.value);
      var after := EncodeMembers(options, ms, i + 1) + [EndObject] + rest;
      assert DecodeValue(value + after) == Ok((m.value, after)) by {
        EncodeThenDecodeValue(options, m.value, after);
      }
      assert DecodeObject(after, i + 1) == Ok((ms[i + 1..], rest)) by {
        EncodeThenDecodeMembers(options, ms, i + 1, rest);
      }
      DecodeObjectCons(m.name, value, after, i, m.value, ms[i + 1..], rest);
      MemberFirstTokens(options, ms, i, rest);
      assert ExtensionMember(i, m.name, m.value) == m;
      SliceCons(ms, i);
    }
  }

  lemma MemberFirstTokens(options: SerializerOptions, ms: seq<ExtensionMember>, i: nat, rest: seq<Token>)
    requires Transparent(options) && i < |ms|
    ensures EncodeMembers(options, ms, i) + [EndObject] + rest
         == [PropertyName(ms[i].name)] + (EncodeValue(options, ms[i].value) + (EncodeMembers(options, ms, i + 1) + [EndObject] + rest))
  {
    assert EncodeMember(options, ms[i]) == [PropertyName(ms[i].name)] + EncodeValue(options, ms[i].value);
  }

  /** An object the reader accepts member by member. */
  lemma DecodeObjectCons(name: string, value: seq<Token>, after: seq<Token>, index: int, v: Value,
                         ms: seq<ExtensionMember>, rest: seq<Token>)
    requires DecodeValue(value + after) == Ok((v, after)) && DecodeObject(after, index + 1) == Ok((ms, rest))
    ensures DecodeObject([PropertyName(name)] + (value + after), index) == Ok(([ExtensionMember(index, name, v)] + ms, rest))
  {
    assert ([PropertyName(name)] + (value + after))[1..] == value + after;
  }

  /** Items encoded from a position on do not depend on the items before it. */
  lemma {:induction false} EncodeItemsShift(options: SerializerOptions, v: Value, items: seq<Value>, i: nat)
    requires i <= |items|
    ensures EncodeItems(options, [v] + items, i + 1) == EncodeItems(options, items, i)
    decreases |items| - i
  {
    if i < |items| {
      assert ([v] + items)[i + 1] == items[i];
      EncodeItemsShift(options, v, items, i + 1);
    }
  }

  lemma {:induction false} EncodeMembersShift(options: SerializerOptions, m: ExtensionMember, ms: seq<ExtensionMember>, i: nat)
    requires i <= |ms|
    ensures EncodeMembers(options, [m] + ms, i + 1) == EncodeMembers(options, ms, i)
    decreases |ms| - i
  {
    if i < |ms| {
      assert ([m] + ms)[i + 1] == ms[i];
      EncodeMembersShift(options, m, ms, i + 1);
    }
  }

  lemma CommentFreeSuffix(ts: seq<Token>, k: nat)
    requires CommentFree(ts) && k <= |ts|
    ensures CommentFree(ts[k..])
  {
    forall i | 0 <= i < |ts[k..]| ensures !ts[k..][i].Comment? {
      assert ts[k..][i] == ts[k + i];
    }
  }

  /** What follows a prefix of a comment-free sequence is comment-free. */
  lemma CommentFreeAfter(prefix: seq<Token>, rest: seq<Token>, ts: seq<Token>)
    requires CommentFree(ts) && prefix + rest == ts
    ensures CommentFree(rest)
  {
    CommentFreeSuffix(ts, |prefix|);
    assert ts[|prefix|..] == rest;
  }

  /** Reading a comment-free value and writing it back gives exactly the tokens the reader consumed. */
  lemma {:induction false} DecodeThenEncodeValue(options: SerializerOptions, ts: seq<Token>)
    requires Transparent(options) && CommentFree(ts) && DecodeValue(ts).Ok?
    ensures EncodeValue(options, DecodeValue(ts).value.0) + DecodeValue(ts).value.1 == ts
    decreases |ts|, 1
  {
    CommentFreeSuffix(ts, 1);
    if ts[0].StartObject? {
      DecodeThenEncodeMembers(options, ts[1..], 0);
      ContainerTokens(ts, StartObject, EncodeMembers(options, DecodeObject(ts[1..], 0).value.0, 0), EndObject, DecodeObject(ts[1..], 0).value.1);
    } else if ts[0].StartArray? {
      DecodeThenEncodeItems(options, ts[1..]);
      ContainerTokens(ts, StartArray, EncodeItems(options, DecodeList(ts[1..]).value.0, 0), EndArray, DecodeList(ts[1..]).value.1);
    } else {
      assert ts == [ts[0]] + ts[1..];
    }
  }

  /** A container's tokens: its opening token, its content, its closing token, then what follows. */
  lemma ContainerTokens(ts: seq<Token>, open: Token, content: seq<Token>, close: Token, rest: seq<Token>)
    requires ts != [] && ts[0] == open && content + [close] + rest == ts[1..]
    ensures [open] + content + [close] + rest == ts
  {
    assert ts == [ts[0]] + ts[1..];
  }

  lemma {:induction false} DecodeThenEncodeItems(options: SerializerOptions, ts: seq<Token>)
    requires Transparent(options) && CommentFree(ts) && DecodeList(ts).Ok?
    ensures EncodeItems(options, DecodeList(ts).value.0, 0) + [EndArray] + DecodeList(ts).value.1 == ts
    decreases |ts|, 2
  {
    if ts[0] == EndArray {
      assert ts == [EndArray] + ts[1..];
    } else {
      var v, rest := DecodeListStep(ts);
      var vs, rest' := DecodeList(rest).value.0, DecodeList(rest).value.1;
      DecodeThenEncodeValue(options, ts);
      CommentFreeAfter(EncodeValue(options, v), rest, ts);
      DecodeThenEncodeItems(options, rest);
      ListTokens(options, v, vs, rest', rest, ts);
    }
  }

  /** The tokens of one item followed by the tokens of the items after it and the list's ']'. */
  lemma ListTokens(options: SerializerOptions, v: Value, vs: seq<Value>, rest': seq<Token>, rest: seq<Token>, ts: seq<Token>)
    requires EncodeValue(options, v) + rest == ts
    requires EncodeItems(options, vs, 0) + [EndArray] + rest' == rest
    ensures EncodeItems(options, [v] + vs, 0) + [EndArray] + rest' == ts
  {
    EncodeItemsCons(options, v, vs);
  }

  /** One item of a list the reader accepts: the item and the tokens after it. */
  lemma DecodeListStep(ts: seq<Token>) returns (v: Value, rest: seq<Token>)
    requires ts != [] && ts[0] != EndArray && DecodeList(ts).Ok?
    ensures DecodeValue(ts) == Ok((v, rest)) && DecodeList(rest).Ok?
    ensures DecodeList(ts).value.0 == [v] + DecodeList(rest).value.0
    ensures DecodeList(ts).value.1 == DecodeList(rest).value.1
  {
    v, rest := DecodeValue(ts).value.0, DecodeValue(ts).value.1;
  }

  lemma EncodeItemsCons(options: SerializerOptions, v: Value, vs: seq<Value>)
    ensures EncodeItems(options, [v] + vs, 0) == EncodeValue(options, v) + EncodeItems(options, vs, 0)
  {
    EncodeItemsShift(options, v, vs, 0);
  }

  /** One member of an object the reader accepts: its value and the tokens after it. */
  lemma DecodeObjectStep(ts: seq<Token>, index: int) returns (v: Value, rest: seq<Token>)
    requires ts != [] && ts[0] != EndObject && DecodeObject(ts, index).Ok?
    ensures ts[0].PropertyName? && DecodeValue(ts[1..]) == Ok((v, rest)) && DecodeObject(rest, index + 1).Ok?
    ensures DecodeObject(ts, index).value.0 == [ExtensionMember(index, ts[0].name, v)] + DecodeObject(rest, index + 1).value.0
    ensures DecodeObject(ts, index).value.1 == DecodeObject(rest, index + 1).value.1
  {
    v, rest := DecodeValue(ts[1..]).value.0, DecodeValue(ts[1..]).value.1;
  }

  lemma EncodeMembersCons(options: SerializerOptions, m: ExtensionMember, ms: seq<ExtensionMember>)
    ensures EncodeMembers(options, [m] + ms, 0) == EncodeMember(options, m) + EncodeMembers(options, ms, 0)
  {
    EncodeMembersShift(options, m, ms, 0);
  }

  lemma {:induction false} DecodeThenEncodeMembers(options: SerializerOptions, ts: seq<Token>, index: int)
    requires Transparent(options) && CommentFree(ts) && DecodeObject(ts, index).Ok?
    ensures EncodeMembers(options, DecodeObject(ts, index).value.0, 0) + [EndObject] + DecodeObject(ts, index).value.1 == ts
    decreases |ts|, 2
  {
    if ts[0] == EndObject {
      assert ts == [EndObject] + ts[1..];
    } else {
      var v, rest := DecodeObjectStep(ts, index);
      var ms, rest' := MembersTail(options, ts, index, v, rest);
      MemberTokens(options, index, ts[0], v, ms, rest', rest, ts[1..], ts);
    }
  }

  /** The first member's value, then the members after it, each written back as read. */
  lemma {:induction false} MembersTail(options: SerializerOptions, ts: seq<Token>, index: int, v: Value, rest: seq<Token>)
    returns (ms: seq<ExtensionMember>, rest': seq<Token>)
    requires Transparent(options) && CommentFree(ts) && ts != []
    requires DecodeValue(ts[1..]) == Ok((v, rest)) && DecodeObject(rest, index + 1).Ok?
    ensures ms == DecodeObject(rest, index + 1).value.0 && rest' == DecodeObject(rest, index + 1).value.1
    ensures EncodeValue(options, v) + rest == ts[1..]
    ensures EncodeMembers(options, ms, 0) + [EndObject] + rest' == rest
    decreases |ts|, 1
  {
    var tail := ts[1..];
    CommentFreeSuffix(ts, 1);
    DecodeThenEncodeValue(options, tail);
    CommentFreeAfter(EncodeValue(options, v), rest, tail);
    ms, rest' := DecodeObject(rest, index + 1).value.0, DecodeObject(rest, index + 1).value.1;
    DecodeThenEncodeMembers(options, rest, index + 1);
  }

  /** The tokens of one member followed by the tokens of the members after it. */
  lemma MemberTokens(options: SerializerOptions, index: int, name: Token, v: Value, ms: seq<ExtensionMember>,
                     rest': seq<Token>, rest: seq<Token>, tail: seq<Token>, ts: seq<Token>)
    requires Transparent(options) && name.PropertyName?
    requires ts == [name] + tail && EncodeValue(options, v) + rest == tail
    requires EncodeMembers(options, ms, 0) + [EndObject] + rest' == rest
    ensures EncodeMembers(options, [ExtensionMember(index, name.name, v)] + ms, 0) + [EndObject] + rest' == ts
  {
    var m := ExtensionMember(index, name.name, v);
    EncodeMembersCons(options, m, ms);
    assert EncodeMember(options, m) == [name] + EncodeValue(options, v);
  }

  /**
   * The reader accepts a list holding null, but WriteExtensionMember cannot write it back: the
   * null item reaches item.GetType().
   */
  lemma NullItemIsNotWritable(options: SerializerOptions, name: string)
    ensures DecodeValue([StartArray, Null, EndArray]) == Ok((ListValue([NullValue]), []))
    ensures !MemberWritable(options, ExtensionMember(0, name, ListValue([NullValue])))
  {
    assert [StartArray, Null, EndArray][1..] == [Null, EndArray];
    assert [Null, EndArray][1..] == [EndArray];
    assert [EndArray][1..] == [];
    assert [Null] + [EndArray] == [Null, EndArray];
    assert DecodeValue([Null, EndArray]) == Ok((NullValue, [EndArray]));
    assert DecodeList([EndArray]) == Ok(([], []));
    DecodeListCons([Null], [EndArray], NullValue, [], []);
    assert [NullValue] + [] == [NullValue];
    var items := [NullValue];
    assert items[0] == NullValue && !ItemWritable(options, items[0]);
  }

  /**
   * The reader accepts an object inside a list inside a list, but the outer list hands the inner
   * one to the framework serializer, which does not write the nested ExtensionData as an object.
   */
  lemma NestedObjectInNestedListIsNotWritable(options: SerializerOptions, name: string)
    ensures DecodeValue([StartArray, StartArray, StartObject, EndObject, EndArray, EndArray])
         == Ok((ListValue([ListValue([ObjectValue([])])]), []))
    ensures !MemberWritable(options, ExtensionMember(0, name, ListValue([ListValue([ObjectValue([])])])))
  {
    NestedListOfEmptyObject();
    NestedListIsNotWritable(options, name);
  }

  /** The outer list of the example above decodes to one inner list holding one empty object. */
  lemma NestedListOfEmptyObject()
    ensures DecodeValue([StartArray, StartArray, StartObject, EndObject, EndArray, EndArray])
         == Ok((ListValue([ListValue([ObjectValue([])])]), []))
  {
    var ts := [StartArray, StartArray, StartObject, EndObject, EndArray, EndArray];
    InnerListOfEmptyObject();
    assert DecodeList([EndArray]) == Ok(([], []));
    assert [StartArray, StartObject, EndObject, EndArray] + [EndArray] == ts[1..];
    DecodeListCons([StartArray, StartObject, EndObject, EndArray], [EndArray], ListValue([ObjectValue([])]), [], []);
    assert [ListValue([ObjectValue([])])] + [] == [ListValue([ObjectValue([])])];
  }

  /** The member holding the example's nested list is not writable. */
  lemma NestedListIsNotWritable(options: SerializerOptions, name: string)
    ensures !MemberWritable(options, ExtensionMember(0, name, ListValue([ListValue([ObjectValue([])])])))
  {
    assert !ItemWritable(options, ListValue([ObjectValue([])])) by {
      var inner := [ObjectValue([])];
      assert inner[0] == ObjectValue([]) && !FrameworkWritable(inner[0]);
    }
    var outer := [ListValue([ObjectValue([])])];
    assert outer[0] == ListValue([ObjectValue([])]);
  }

  /** The inner list of the example above: one empty object, then the outer list's ']'. */
  lemma InnerListOfEmptyObject()
    ensures DecodeValue([StartArray, StartObject, EndObject, EndArray, EndArray]) == Ok((ListValue([ObjectValue([])]), [EndArray]))
  {
    var ts := [StartArray, StartObject, EndObject, EndArray, EndArray];
    assert ts[1..] == [StartObject, EndObject, EndArray, EndArray];
    assert ts[1..][1..] == [EndObject, EndArray, EndArray];
    assert [EndObject, EndArray, EndArray][1..] == [EndArray, EndArray];
    assert [EndArray, EndArray][1..] == [EndArray];
    assert DecodeObject([EndObject, EndArray, EndArray], 0) == Ok(([], [EndArray, EndArray]));
    assert DecodeValue(ts[1..]) == Ok((ObjectValue([]), [EndArray, EndArray]));
    assert DecodeList([EndArray, EndArray]) == Ok(([], [EndArray]));
    assert [StartObject, EndObject] + [EndArray, EndArray] == ts[1..];
    DecodeListCons([StartObject, EndObject], [EndArray, EndArray], ObjectValue([]), [], [EndArray]);
    assert [ObjectValue([])] + [] == [ObjectValue([])];
  }

  /**
   * The corrected writer has no such hole: every well-indexed value, including the two above,
   * is written so that the reader gets it back.
   */
  lemma CorrectedWriterRoundTrips(options: SerializerOptions, m: ExtensionMember, rest: seq<Token>)
    requires Transparent(options) && WellIndexed(m.value)
    ensures EncodeMember(options, m) == [PropertyName(m.name)] + EncodeValue(options, m.value)
    ensures DecodeValue(EncodeValue(options, m.value) + rest) == Ok((m.value, rest))
  {
    EncodeThenDecodeValue(options, m.value, rest);
  }
}
