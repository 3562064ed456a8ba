/**
 * The topic policy of the events example: an event's descriptor is its dotted topic, carried
 * by the Topic property, and a topic's parent is what precedes its last '.'.
 */
module EvenTypeDescriptorPolicy {
  import opened Wrappers
  import opened Strings
  import opened ClrTypes
  import opened TopicMappings

  const Separator := "."

  /** GetTypeDescriptor: the type's topic from the topic tables, None for the root and unscanned types. */
  function GetTypeDescriptor(topics: Topics, t: ClrType): (r: Option<string>)
    ensures r.Some? <==> t in topics.typeToTopic
  {
    GetTopic(topics, t)
  }

  /**
   * TryGetParentDescriptor: the text before the last '.', or None (false) when the topic has no '.'.
   * The parent is a proper prefix that ends right where a '.' starts, and no '.' follows it.
   */
  function TryGetParentDescriptor(d: string): (r: Option<string>)
    ensures r.None? <==> forall j :: !OccursAt(d, Separator, j)
    ensures r.Some? ==> |r.value| < |d| && d[..|r.value|] == r.value && d[|r.value|] == '.'
    ensures r.Some? ==> forall j :: |r.value| < j ==> !OccursAt(d, Separator, j)
  {
    match LastIndexOf(d, Separator)
    case None => None
    case Some(i) => Some(d[..i])
  }

  /** Appending a '.' and a token without '.' to a topic is undone by one parent step. */
  lemma ParentOfSubTopic(topic: string, token: string)
    requires SharesNoChar(token, Separator)
    ensures TryGetParentDescriptor(topic + Separator + token) == Some(topic)
  {
    LastIndexOfBeforeLast(topic, Separator, token);
    assert (topic + Separator + token)[..|topic|] == topic;
  }

  /**
   * The descriptors of the scanned event classes: each admitted class is described by its full
   * topic, and the parent of that topic is the full topic of its base class.
   */
  lemma ParentOfEventDescriptor(root: ClrType, types: seq<ClrType>, t: ClrType)
    requires t in types && Admitted(root, t)
    requires t.topic.Some? && SharesNoChar(t.topic.value, Separator)
    requires t.baseType.Some? && |TopicTokens(t.baseType.value)| > 0
    ensures GetTypeDescriptor(Mappings(root, types), t) == Some(FullTopic(t))
    ensures TryGetParentDescriptor(FullTopic(t)) == Some(FullTopic(t.baseType.value))
  {
    TopicOfScannedType(root, types, t);
    FullTopicOfDerived(t);
    ParentOfSubTopic(FullTopic(t.baseType.value), t.topic.value);
  }
}
