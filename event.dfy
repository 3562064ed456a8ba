/**
 * The root event of the events example. Its Topic property is computed on first read from the
 * topic tables and cached in a field; the setter overwrites the cache.
 */
module Events {
  import opened Wrappers
  import opened ClrTypes
  import opened TopicMappings

  /** AppendTopic as the root class defines it: the base topic unchanged. */
  function AppendTopic(baseTopic: Option<string>): (r: Option<string>)
    ensures r.Some? <==> baseTopic.Some?
    ensures r.Some? ==> r.value == baseTopic.value
  {
    baseTopic
  }

  class Event {
    /** The event's runtime class (GetType()). */
    const runtimeType: ClrType
    /** The topic tables of TopicMappings, filled once by its static constructor. */
    const topics: Topics
    /** The backing field _topic; None is null. */
    var topic: Option<string>

    constructor (runtimeType: ClrType, topics: Topics)
      ensures this.runtimeType == runtimeType && this.topics == topics && topic == None
    {
      this.runtimeType := runtimeType;
      this.topics := topics;
      topic := None;
    }

    /**
     * The Topic getter: the cached value when there is one; otherwise the computed topic,
     * which is stored (the ??= assignment) and returned.
     */
    method GetTopicValue() returns (r: Option<string>)
      modifies this
      ensures old(topic).Some? ==> r == old(topic)
      ensures old(topic).None? ==> r == AppendTopic(GetTopic(topics, runtimeType))
      ensures topic == r
    {
      if topic.None? {
        topic := AppendTopic(GetTopic(topics, runtimeType));
      }
      r := topic;
    }

    /** The Topic setter; setting None (null) clears the cache so the next read recomputes. */
    method SetTopicValue(value: Option<string>)
      modifies this
      ensures topic == value
    {
      topic := value;
    }
  }

  /** A value set through the setter is what the getter returns, and reading again changes nothing. */
  method SetThenGet(e: Event, value: string) returns (first: Option<string>, second: Option<string>)
    modifies e
    ensures first == Some(value) && second == Some(value) && e.topic == Some(value)
  {
    e.SetTopicValue(Some(value));
    first := e.GetTopicValue();
    second := e.GetTopicValue();
  }

  /** A fresh event of a scanned class reads its full topic, and keeps it cached. */
  method FreshEventTopic(root: ClrType, types: seq<ClrType>, t: ClrType) returns (r: Option<string>)
    requires t in types && Admitted(root, t)
    ensures r == Some(FullTopic(t))
  {
    var e := new Event(t, Mappings(root, types));
    TopicOfScannedType(root, types, t);
    r := e.GetTopicValue();
    var again := e.GetTopicValue();
    assert again == r;
  }
}
