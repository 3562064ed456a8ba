/**
 * Decoding the value of an unknown member (GetExtensionMemberValue, CreateList and
 * CreateExtensionData). The specification functions read a token sequence from its start and
 * return the decoded value with the tokens left after it; the methods walk a reader position.
 */
module UnknownValueReader {
  import opened Wrappers
  import opened JsonTokens
  import opened ExtensionMembers

  /** A decoded part consumes at least one token. */
  predicate ConsumedSome<T>(ts: seq<Token>, r: Result<(T, seq<Token>)>)
  {
    r.Ok? ==> |r.value.1| < |ts|
  }

  /** rest is what is left of ts once a prefix has been read. */
  predicate IsSuffix(rest: seq<Token>, ts: seq<Token>)
  {
    |rest| <= |ts| && rest == ts[|ts| - |rest|..]
  }

  /**
   * The loop state of CreateList and CreateExtensionData: decoding the whole sequence gives what
   * was collected so far followed by what decoding the rest gives, or the same exception.
   */
  ghost predicate Continues<T>(whole: Result<(seq<T>, seq<Token>)>, done: seq<T>, part: Result<(seq<T>, seq<Token>)>)
  {
    && (whole.Ok? <==> part.Ok?)
    && (part.Err? ==> whole.error == part.error)
    && (part.Ok? ==> whole.value == (done + part.value.0, part.value.1))
  }

  /**
   * GetExtensionMemberValue: comments are skipped; an object, a list, a string, a number (as a
   * decimal), a boolean or null is decoded; any other token is a JsonException.
   */
  function DecodeValue(ts: seq<Token>): (r: Result<(Value, seq<Token>)>)
    ensures ConsumedSome(ts, r)
    decreases |ts|, 1
  {
    if ts == [] then Err(JsonException(PrematureEnd))
    else match ts[0]
      case Comment(_) =>
        DecodeValue(ts[1..])
      case StartObject =>
        (match DecodeObject(ts[1..], 0)
         case Err(e) => Err(e)
         case Ok((members, rest)) => Ok((ObjectValue(members), rest)))
      case StartArray =>
        (match DecodeList(ts[1..])
         case Err(e) => Err(e)
         case Ok((items, rest)) => Ok((ListValue(items), rest)))
      case String(s) => Ok((StringValue(s), ts[1..]))
      case Number(n) => Ok((NumberValue(n), ts[1..]))
      case True => Ok((BoolValue(true), ts[1..]))
      case False => Ok((BoolValue(false), ts[1..]))
      case Null => Ok((NullValue, ts[1..]))
      case _ => Err(JsonException(ExpectedValue))
  }

  /** CreateList after its opening '[': values up to the closing ']', which is consumed. */
  function DecodeList(ts: seq<Token>): (r: Result<(seq<Value>, seq<Token>)>)
    ensures ConsumedSome(ts, r)
    decreases |ts|, 2
  {
    if ts == [] then Err(JsonException(PrematureEnd))
    else if ts[0] == EndArray then Ok(([], ts[1..]))
    else match DecodeValue(ts)
      case Err(e) => Err(e)
      case Ok((v, rest)) =>
        match DecodeList(rest)
        case Err(e) => Err(e)
        case Ok((vs, rest')) => Ok(([v] + vs, rest'))
  }

  /**
   * CreateExtensionData after its opening '{': each member is stored under the running position,
   * starting at index, with that position as its Index; the closing '}' is consumed.
   */
  function DecodeObject(ts: seq<Token>, index: int): (r: Result<(seq<ExtensionMember>, seq<Token>)>)
    ensures ConsumedSome(ts, r)
    ensures r.Ok? ==> forall i :: 0 <= i < |r.value.0| ==> r.value.0[i].index == index + i
    decreases |ts|, 2
  {
    if ts == [] then Err(JsonException(PrematureEnd))
    else if ts[0] == EndObject then Ok(([], ts[1..]))
    else if !ts[0].PropertyName? then Err(JsonException(ExpectedPropertyName))
    else match DecodeValue(ts[1..])
      case Err(e) => Err(e)
      case Ok((v, rest)) =>
        match DecodeObject(rest, index + 1)
        case Err(e) => Err(e)
        case Ok((ms, rest')) => Ok(([ExtensionMember(index, ts[0].name, v)] + ms, rest'))
  }

  /** Every value the codec decodes keeps each nested member under a key equal to its Index. */
  lemma {:induction false} DecodedValueWellIndexed(ts: seq<Token>)
    requires DecodeValue(ts).Ok?
    ensures WellIndexed(DecodeValue(ts).value.0)
    decreases |ts|, 1
  {
    match ts[0]
    case Comment(_) => DecodedValueWellIndexed(ts[1..]);
    case StartObject => DecodedMembersWellIndexed(ts[1..], 0);
    case StartArray => DecodedItemsWellIndexed(ts[1..]);
    case _ =>
  }

  lemma {:induction false} DecodedItemsWellIndexed(ts: seq<Token>)
    requires DecodeList(ts).Ok?
    ensures forall i :: 0 <= i < |DecodeList(ts).value.0| ==> WellIndexed(DecodeList(ts).value.0[i])
    decreases |ts|, 2
  {
    if ts[0] != EndArray {
      DecodedValueWellIndexed(ts);
      DecodedItemsWellIndexed(DecodeValue(ts).value.1);
    }
  }

  lemma {:induction false} DecodedMembersWellIndexed(ts: seq<Token>, index: int)
    requires DecodeObject(ts, index).Ok?
    ensures forall i :: 0 <= i < |DecodeObject(ts, index).value.0| ==> WellIndexed(DecodeObject(ts, index).value.0[i].value)
    decreases |ts|, 2
  {
    if ts[0] != EndObject {
      DecodedValueWellIndexed(ts[1..]);
      DecodedMembersWellIndexed(DecodeValue(ts[1..]).value.1, index + 1);
    }
  }

  lemma SuffixTrans(a: seq<Token>, b: seq<Token>, c: seq<Token>)
    requires IsSuffix(a, b) && IsSuffix(b, c)
    ensures IsSuffix(a, c)
  {
    assert c[|c| - |b|..][|b| - |a|..] == c[|c| - |a|..];
  }

  lemma DropOne(ts: seq<Token>)
    requires ts != []
    ensures IsSuffix(ts[1..], ts)
  {
  }

  /** The tokens left after a decoded value are what follows it in the input. */
  lemma {:induction false} ValueSuffix(ts: seq<Token>)
    requires DecodeValue(ts).Ok?
    ensures IsSuffix(DecodeValue(ts).value.1, ts)
    decreases |ts|, 1
  {
    DropOne(ts);
    match ts[0]
    case Comment(_) =>
      ValueSuffix(ts[1..]);
      SuffixTrans(DecodeValue(ts).value.1, ts[1..], ts);
    case StartObject =>
      ObjectSuffix(ts[1..], 0);
      SuffixTrans(DecodeValue(ts).value.1, ts[1..], ts);
    case StartArray =>
      ListSuffix(ts[1..]);
      SuffixTrans(DecodeValue(ts).value.1, ts[1..], ts);
    case _ =>
  }

  lemma {:induction false} ListSuffix(ts: seq<Token>)
    requires DecodeList(ts).Ok?
    ensures IsSuffix(DecodeList(ts).value.1, ts)
    decreases |ts|, 2
  {
    if ts[0] == EndArray {
      DropOne(ts);
    } else {
      var rest := DecodeValue(ts).value.1;
      ValueSuffix(ts);
      ListSuffix(rest);
      SuffixTrans(DecodeList(ts).value.1, rest, ts);
    }
  }

  lemma {:induction false} ObjectSuffix(ts: seq<Token>, index: int)
    requires DecodeObject(ts, index).Ok?
    ensures IsSuffix(DecodeObject(ts, index).value.1, ts)
    decreases |ts|, 2
  {
    DropOne(ts);
    if ts[0] != EndObject {
      var rest := DecodeValue(ts[1..]).value.1;
      ValueSuffix(ts[1..]);
      SuffixTrans(rest, ts[1..], ts);
      ObjectSuffix(rest, index + 1);
      SuffixTrans(DecodeObject(ts, index).value.1, rest, ts);
    }
  }

  /** GetExtensionMemberValue on the reader at pos: the decoded value and the position after it. */
  method GetExtensionMemberValue(ts: seq<Token>, pos: nat) returns (r: Result<(Value, nat)>)
    requires pos <= |ts|
    ensures r.Ok? <==> DecodeValue(ts[pos..]).Ok?
    ensures r.Err? ==> r.error == DecodeValue(ts[pos..]).error
    ensures r.Ok? ==> pos < r.value.1 <= |ts| && DecodeValue(ts[pos..]).value == (r.value.0, ts[r.value.1..])
    decreases |ts| - pos, 1
  {
    var cur := pos;
    while cur < |ts| && ts[cur].Comment?
      invariant pos <= cur <= |ts|
      invariant DecodeValue(ts[cur..]) == DecodeValue(ts[pos..])
    {
      assert ts[cur..][1..] == ts[cur + 1..];
      cur := cur + 1;
    }
    if cur == |ts| {
      return Err(JsonException(PrematureEnd));
    }
    assert ts[cur..][1..] == ts[cur + 1..];
    match ts[cur]
    case StartObject =>
      var members := CreateExtensionData(ts, cur);
      if members.Err? {
        return Err(members.error);
      }
      r := Ok((ObjectValue(members.value.0), members.value.1));
    case StartArray =>
      var items := CreateList(ts, cur);
      if items.Err? {
        return Err(items.error);
      }
      r := Ok((ListValue(items.value.0), items.value.1));
    case String(s) => r := Ok((StringValue(s), cur + 1));
    case Number(n) => r := Ok((NumberValue(n), cur + 1));
    case True => r := Ok((BoolValue(true), cur + 1));
    case False => r := Ok((BoolValue(false), cur + 1));
    case Null => r := Ok((NullValue, cur + 1));
    case _ => r := Err(JsonException(ExpectedValue));
  }

  /** One more item keeps the loop state of CreateList. */
  lemma ListStep(whole: Result<(seq<Value>, seq<Token>)>, done: seq<Value>, ts: seq<Token>)
    requires ts != [] && ts[0] != EndArray && DecodeValue(ts).Ok?
    requires Continues(whole, done, DecodeList(ts))
    ensures Continues(whole, done + [DecodeValue(ts).value.0], DecodeList(DecodeValue(ts).value.1))
  {
    var (v, rest) := DecodeValue(ts).value;
    if DecodeList(rest).Ok? {
      assert done + ([v] + DecodeList(rest).value.0) == (done + [v]) + DecodeList(rest).value.0;
    }
  }

  /** One more member keeps the loop state of CreateExtensionData. */
  lemma ObjectStep(whole: Result<(seq<ExtensionMember>, seq<Token>)>, done: seq<ExtensionMember>, ts: seq<Token>, index: int)
    requires ts != [] && ts[0].PropertyName? && DecodeValue(ts[1..]).Ok?
    requires Continues(whole, done, DecodeObject(ts, index))
    ensures Continues(whole, done + [ExtensionMember(index, ts[0].name, DecodeValue(ts[1..]).value.0)],
                      DecodeObject(DecodeValue(ts[1..]).value.1, index + 1))
  {
    var (v, rest) := DecodeValue(ts[1..]).value;
    var m := ExtensionMember(index, ts[0].name, v);
    if DecodeObject(rest, index + 1).Ok? {
      assert done + ([m] + DecodeObject(rest, index + 1).value.0) == (done + [m]) + DecodeObject(rest, index + 1).value.0;
    }
  }

  /** CreateList on the reader at its '[': the items and the position after the ']'. */
  method CreateList(ts: seq<Token>, pos: nat) returns (r: Result<(seq<Value>, nat)>)
    requires pos < |ts| && ts[pos] == StartArray
    ensures r.Ok? <==> DecodeList(ts[pos + 1..]).Ok?
    ensures r.Err? ==> r.error == DecodeList(ts[pos + 1..]).error
    ensures r.Ok? ==> pos < r.value.1 <= |ts| && DecodeList(ts[pos + 1..]).value == (r.value.0, ts[r.value.1..])
    decreases |ts| - pos, 0
  {
    var cur := pos + 1;
    var items: seq<Value> := [];
    ghost var whole := DecodeList(ts[pos + 1..]);
    if whole.Ok? {
      assert items + whole.value.0 == whole.value.0;
    }
    while cur == |ts| || ts[cur] != EndArray
      invariant pos < cur <= |ts|
      invariant Continues(whole, items, DecodeList(ts[cur..]))
      decreases |ts| - cur
    {
      var item := GetExtensionMemberValue(ts, cur);
      if item.Err? {
        return Err(item.error);
      }
      ListStep(whole, items, ts[cur..]);
      items := items + [item.value.0];
      cur := item.value.1;
    }
    assert ts[cur..][1..] == ts[cur + 1..];
    assert items + [] == items;
    r := Ok((items, cur + 1));
  }

  /** CreateExtensionData on the reader at its '{': the members by position and the position after the '}'. */
  method CreateExtensionData(ts: seq<Token>, pos: nat) returns (r: Result<(seq<ExtensionMember>, nat)>)
    requires pos < |ts| && ts[pos] == StartObject
    ensures r.Ok? <==> DecodeObject(ts[pos + 1..], 0).Ok?
    ensures r.Err? ==> r.error == DecodeObject(ts[pos + 1..], 0).error
    ensures r.Ok? ==> pos < r.value.1 <= |ts| && DecodeObject(ts[pos + 1..], 0).value.0 == r.value.0
    ensures r.Ok? ==> DecodeObject(ts[pos + 1..], 0).value.1 == ts[r.value.1..]
    decreases |ts| - pos, 0
  {
    var cur := pos + 1;
    var members: seq<ExtensionMember> := [];
    var index := 0;
    ghost var whole := DecodeObject(ts[pos + 1..], 0);
    if whole.Ok? {
      assert members + whole.value.0 == whole.value.0;
    }
    while cur == |ts| || ts[cur] != EndObject
      invariant pos < cur <= |ts|
      invariant Continues(whole, members, DecodeObject(ts[cur..], index))
      decreases |ts| - cur
    {
      ObjectStops(whole, members, ts, cur, index);
      if cur == |ts| {
        return Err(JsonException(PrematureEnd));
      }
      if !ts[cur].PropertyName? {
        return Err(JsonException(ExpectedPropertyName));
      }
      var memberName := ts[cur].name;
      var value := GetExtensionMemberValue(ts, cur + 1);
      if value.Err? {
        return Err(value.error);
      }
      ObjectMemberRead(whole, members, ts, cur, index, value.value.0, value.value.1);
      members := members + [ExtensionMember(index, memberName, value.value.0)];
      index := index + 1;
      cur := value.value.1;
    }
    ObjectStops(whole, members, ts, cur, index);
    r := Ok((members, cur + 1));
  }

  /** Where the loop of CreateExtensionData leaves, the whole object decodes to what it returns. */
  lemma ObjectStops(whole: Result<(seq<ExtensionMember>, seq<Token>)>, done: seq<ExtensionMember>, ts: seq<Token>, cur: nat, index: int)
    requires cur <= |ts| && Continues(whole, done, DecodeObject(ts[cur..], index))
    ensures cur == |ts| ==> whole == Err(JsonException(PrematureEnd))
    ensures cur < |ts| && ts[cur] != EndObject && !ts[cur].PropertyName? ==> whole == Err(JsonException(ExpectedPropertyName))
    ensures cur < |ts| && ts[cur].PropertyName? && DecodeValue(ts[cur + 1..]).Err? ==> whole == Err(DecodeValue(ts[cur + 1..]).error)
    ensures cur < |ts| && ts[cur] == EndObject ==> whole.Ok? && whole.value.0 == done && whole.value.1 == ts[cur + 1..]
  {
    if cur < |ts| {
      var sub := ts[cur..];
      assert sub[0] == ts[cur] && sub[1..] == ts[cur + 1..];
      if ts[cur] == EndObject {
        assert done + [] == done;
      }
    }
  }

  /** One member read at cur keeps the loop state of CreateExtensionData. */
  lemma ObjectMemberRead(whole: Result<(seq<ExtensionMember>, seq<Token>)>, done: seq<ExtensionMember>, ts: seq<Token>,
                         cur: nat, index: int, v: Value, next: nat)
    requires cur < next <= |ts| && ts[cur].PropertyName?
    requires DecodeValue(ts[cur + 1..]).Ok? && DecodeValue(ts[cur + 1..]).value == (v, ts[next..])
    requires Continues(whole, done, DecodeObject(ts[cur..], index))
    ensures Continues(whole, done + [ExtensionMember(index, ts[cur].name, v)], DecodeObject(ts[next..], index + 1))
  {
    var sub := ts[cur..];
    assert sub[0] == ts[cur] && sub[1..] == ts[cur + 1..];
    ObjectStep(whole, done, sub, index);
  }
}
