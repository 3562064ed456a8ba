/**
 * The topic tables of the events example: each event class below the root Event has a
 * dotted topic made of the [Topic] tokens of its ancestry, root-most first.
 */
module TopicMappings {
  import opened Wrappers
  import opened Strings
  import opened ClrTypes
  import opened Dictionaries

  /**
   * The two tables the static constructor fills. topicToType is case-insensitive, so it is
   * keyed here by the case-folded topic; typeToTopic is keyed by the type.
   */
  datatype Topics = Topics(root: ClrType, topicToType: map<string, ClrType>, typeToTopic: map<ClrType, string>)

  /** The topic tokens of t and its ancestors, root-most first; classes without [Topic] give none. */
  function TopicTokens(t: ClrType): seq<string>
  {
    TokensAbove(t.baseType) + (if t.topic.Some? then [t.topic.value] else [])
  }

  function TokensAbove(current: Option<ClrType>): seq<string>
  {
    match current
    case None => []
    case Some(c) => TopicTokens(c)
  }

  /** The full topic: the tokens joined with '.'. */
  function FullTopic(t: ClrType): string
  {
    Join(".", TopicTokens(t))
  }

  /** GetFullTopic: walks up from t, inserting each token it finds at the front of the list. */
  method GetFullTopic(t: ClrType) returns (r: string)
    ensures r == Join(".", TopicTokens(t))
  {
    var tokens: seq<string> := [];
    var current := Some(t);
    while current.Some?
      invariant TopicTokens(t) == TokensAbove(current) + tokens
      decreases current
    {
      var c := current.value;
      if c.topic.None? {
        assert TopicTokens(c) == TokensAbove(c.baseType) + [];
        current := c.baseType;
        continue;
      }
      tokens := [c.topic.value] + tokens;
      current := c.baseType;
    }
    assert [] + tokens == tokens;
    r := Join(".", tokens);
  }

  /** The classes the tables describe: those assignable to the root, the root itself excluded. */
  predicate Admitted(root: ClrType, t: ClrType)
  {
    t != root && IsAssignableFrom(root, t)
  }

  /** The assignments to topicToType, in scan order. */
  function TopicPairs(root: ClrType, types: seq<ClrType>): seq<(string, ClrType)>
  {
    if types == [] then []
    else
      var last := types[|types| - 1];
      TopicPairs(root, types[..|types| - 1]) + if Admitted(root, last) then [(Fold(FullTopic(last)), last)] else []
  }

  /** The assignments to typeToTopic, in scan order. */
  function TypePairs(root: ClrType, types: seq<ClrType>): seq<(ClrType, string)>
  {
    if types == [] then []
    else
      var last := types[|types| - 1];
      TypePairs(root, types[..|types| - 1]) + if Admitted(root, last) then [(last, FullTopic(last))] else []
  }

  /** The tables left by the static constructor's loop. */
  function Mappings(root: ClrType, types: seq<ClrType>): Topics
  {
    Topics(root, Assigned(TopicPairs(root, types)), Assigned(TypePairs(root, types)))
  }

  /** The static constructor: scans the types and fills both tables. */
  method Build(root: ClrType, types: seq<ClrType>) returns (m: Topics)
    ensures m == Mappings(root, types)
  {
    var topicToType: map<string, ClrType> := map[];
    var typeToTopic: map<ClrType, string> := map[];
    var i := 0;
    while i < |types|
      invariant i <= |types|
      invariant topicToType == Assigned(TopicPairs(root, types[..i]))
      invariant typeToTopic == Assigned(TypePairs(root, types[..i]))
    {
      var t := types[i];
      assert types[..i + 1][..i] == types[..i];
      AssignedStep(TopicPairs(root, types[..i]), if Admitted(root, t) then [(Fold(FullTopic(t)), t)] else []);
      AssignedStep(TypePairs(root, types[..i]), if Admitted(root, t) then [(t, FullTopic(t))] else []);
      if Admitted(root, t) {
        var fullTopic := GetFullTopic(t);
        topicToType := topicToType[Fold(fullTopic) := t];
        typeToTopic := typeToTopic[t := fullTopic];
      }
      i := i + 1;
    }
    assert types[..i] == types;
    m := Topics(root, topicToType, typeToTopic);
  }

  /** GetTopic: the type's full topic, or None (null) for a type not in the table. */
  function GetTopic(m: Topics, t: ClrType): (r: Option<string>)
    ensures r.Some? <==> t in m.typeToTopic
  {
    if t in m.typeToTopic then Some(m.typeToTopic[t]) else None
  }

  /**
   * After the scan, exactly the admitted types have a topic, and it is their full topic;
   * the root Event and every unscanned type have none.
   */
  lemma {:induction false} TopicOfScannedType(root: ClrType, types: seq<ClrType>, t: ClrType)
    ensures GetTopic(Mappings(root, types), t) == if t in types && Admitted(root, t) then Some(FullTopic(t)) else None
  {
    if types != [] {
      var init := types[..|types| - 1];
      var last := types[|types| - 1];
      TopicOfScannedType(root, init, t);
      assert types == init + [last];
      AssignedStep(TypePairs(root, init), if Admitted(root, last) then [(last, FullTopic(last))] else []);
    }
  }

  /**
   * The case-insensitive topic lookup: with topicToType filled by the scan, the folded full
   * topic of an admitted type leads back to it, unless a later type has the same folded topic.
   */
  lemma {:induction false} TopicPairsMembers(root: ClrType, types: seq<ClrType>, i: nat)
    requires i < |types| && Admitted(root, types[i])
    requires forall j :: i < j < |types| && Admitted(root, types[j]) ==> Fold(FullTopic(types[j])) != Fold(FullTopic(types[i]))
    ensures Fold(FullTopic(types[i])) in Assigned(TopicPairs(root, types))
    ensures Assigned(TopicPairs(root, types))[Fold(FullTopic(types[i]))] == types[i]
    decreases |types|
  {
    var init := types[..|types| - 1];
    var key := Fold(FullTopic(types[i]));
    var last := types[|types| - 1];
    AssignedStep(TopicPairs(root, init), if Admitted(root, last) then [(Fold(FullTopic(last)), last)] else []);
    if i < |types| - 1 {
      forall j | i < j < |init| && Admitted(root, init[j]) ensures Fold(FullTopic(init[j])) != key {
        assert init[j] == types[j];
      }
      TopicPairsMembers(root, init, i);
    }
  }

  /** The position of the last admitted type whose folded full topic is key, if any. */
  function LastAdmitted(root: ClrType, types: seq<ClrType>, key: string): (r: Option<nat>)
    ensures r.Some? ==> r.value < |types| && Admitted(root, types[r.value]) && Fold(FullTopic(types[r.value])) == key
    ensures r.Some? ==> forall j :: r.value < j < |types| && Admitted(root, types[j]) ==> Fold(FullTopic(types[j])) != key
    ensures r.None? ==> forall j :: 0 <= j < |types| && Admitted(root, types[j]) ==> Fold(FullTopic(types[j])) != key
    decreases |types|
  {
    if types == [] then None
    else
      var n := |types| - 1;
      if Admitted(root, types[n]) && Fold(FullTopic(types[n])) == key then Some(n)
      else
        var r := LastAdmitted(root, types[..n], key);
        assert forall j :: 0 <= j < n ==> types[..n][j] == types[j];
        r
  }

  /**
   * The case-insensitive topic table holds exactly the folded full topics of admitted types,
   * each leading to the last admitted type that has it.
   */
  lemma {:induction false} TopicTable(root: ClrType, types: seq<ClrType>, key: string)
    ensures var table := Assigned(TopicPairs(root, types));
      && (key in table <==> LastAdmitted(root, types, key).Some?)
      && (key in table ==> table[key] == types[LastAdmitted(root, types, key).value])
    decreases |types|
  {
    if types != [] {
      var n := |types| - 1;
      var init := types[..n];
      var last := types[n];
      TopicTable(root, init, key);
      AssignedStep(TopicPairs(root, init), if Admitted(root, last) then [(Fold(FullTopic(last)), last)] else []);
      forall j | 0 <= j < n ensures init[j] == types[j] {
      }
    }
  }

  /** The folded topic to look up when the code asks the case-insensitive table about topic. */
  function ClosestTopicType(m: Topics, topic: string): ClrType
    decreases |topic|
  {
    if Fold(topic) in m.topicToType then m.topicToType[Fold(topic)]
    else match LastIndexOf(topic, ".")
      case None => m.root
      case Some(i) => ClosestTopicType(m, topic[..i])
  }

  /**
   * GetClosestType: an ArgumentException for a null, empty or blank topic; otherwise the type
   * of the topic or of the longest '.'-prefix of it that is mapped, and the root once no '.' remains.
   */
  method GetClosestType(m: Topics, topic: Option<string>) returns (r: Result<ClrType>)
    ensures IsNullOrWhiteSpace(topic) ==> r == Err(ArgumentException)
    ensures !IsNullOrWhiteSpace(topic) ==> r == Ok(ClosestTopicType(m, topic.value))
  {
    if IsNullOrWhiteSpace(topic) {
      return Err(ArgumentException);
    }
    var current := topic.value;
    while Fold(current) !in m.topicToType
      invariant ClosestTopicType(m, current) == ClosestTopicType(m, topic.value)
      decreases |current|
    {
      var separatorIndex := LastIndexOf(current, ".");
      if separatorIndex.None? {
        return Ok(m.root);
      }
      current := current[..separatorIndex.value];
    }
    r := Ok(m.topicToType[Fold(current)]);
  }

  /**
   * Forward compatibility: a known type's topic extended by any number of unknown sub-topic
   * tokens (none containing '.', none of the intermediate topics mapped) resolves to that type.
   */
  lemma {:induction false} ClosestTypeOfSubTopic(m: Topics, t: ClrType, tokens: seq<string>)
    requires Fold(FullTopic(t)) in m.topicToType && m.topicToType[Fold(FullTopic(t))] == t
    requires forall i :: 0 <= i < |tokens| ==> SharesNoChar(tokens[i], ".")
    requires forall k :: 0 < k <= |tokens| ==> Fold(Join(".", [FullTopic(t)] + tokens[..k])) !in m.topicToType
    ensures ClosestTopicType(m, Join(".", [FullTopic(t)] + tokens)) == t
    decreases |tokens|
  {
    if tokens == [] {
      assert [FullTopic(t)] + tokens == [FullTopic(t)];
    } else {
      var n := |tokens| - 1;
      var init := tokens[..n];
      var prefix := Join(".", [FullTopic(t)] + init);
      assert [FullTopic(t)] + tokens == ([FullTopic(t)] + init) + [tokens[n]];
      assert tokens[..n + 1] == tokens;
      JoinSnoc(".", [FullTopic(t)] + init, tokens[n]);
      LastIndexOfBeforeLast(prefix, ".", tokens[n]);
      assert (prefix + "." + tokens[n])[..|prefix|] == prefix;
      forall k | 0 < k <= |init| ensures Fold(Join(".", [FullTopic(t)] + init[..k])) !in m.topicToType {
        assert init[..k] == tokens[..k];
      }
      ClosestTypeOfSubTopic(m, t, init);
    }
  }

  /** A token-bearing class's full topic is its nearest tokened ancestry's topic, a '.', and its token. */
  lemma FullTopicOfDerived(t: ClrType)
    requires t.topic.Some? && t.baseType.Some? && |TopicTokens(t.baseType.value)| > 0
    ensures FullTopic(t) == FullTopic(t.baseType.value) + "." + t.topic.value
  {
    assert TopicTokens(t) == TopicTokens(t.baseType.value) + [t.topic.value];
    JoinSnoc(".", TopicTokens(t.baseType.value), t.topic.value);
  }
}
