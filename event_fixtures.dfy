/**
 * The event classes of the serialization tests: Event, then UserEvent [Topic("User")],
 * UserSessionEvent [Topic("Session")] and UserSessionTimeoutEvent [Topic("Timeout")]. Event
 * declares ExtensionData and Topic (its Timestamp plays no part here and is left out). Topic's
 * getter gives a new instance of each user event its own full topic, which each class records
 * as the value it initializes Topic to; a new Event reads null.
 */
module EventFixtures {
  import opened Wrappers
  import opened Strings
  import opened JsonTokens
  import opened ClrTypes
  import opened Dictionaries
  import opened TopicMappings
  import opened ExtensibleObjects
  import Events
  import TypeDescriptorPolicy
  import DefaultTypeMappings
  import TypeAccessors
  import TypeAccessorCaches
  import JsonOptions
  import ExtensibleJsonConverters
  import ExtensibleJsonConverterRead
  import ExtensibleJsonConverterWrite
  import ExtensibleJsonConverterRoundTrip

  /** Event.ExtensionData, which makes Event the root of the converter. */
  const ExtensionDataProperty := PropertyInfo("ExtensionData", ExtensionDataTypeName, false, false, [Null])
  /** Event.Topic: a string, null in a new Event, whose getter computes it from the topic tables. */
  const TopicProperty := PropertyInfo("Topic", "System.String", false, false, [Null])

  const EventType := ClrType("Event", "Pinja.Examples.Events", "Pinja.Examples.Events.Event", [],
                             Some(ObjectType), None, [ExtensionDataProperty, TopicProperty], true, true, false, map[])
  const UserEvent := ClrType("UserEvent", "Pinja.Examples.Events", "Pinja.Examples.Events.UserEvent", [],
                             Some(EventType), Some("User"), [], false, true, false,
                             map["Topic" := [String("User")]])
  const UserSessionEvent := ClrType("UserSessionEvent", "Pinja.Examples.Events", "Pinja.Examples.Events.UserSessionEvent", [],
                                    Some(UserEvent), Some("Session"), [], false, true, false,
                                    map["Topic" := [String("User.Session")]])
  const UserSessionTimeoutEvent := ClrType("UserSessionTimeoutEvent", "Pinja.Examples.Events",
                                           "Pinja.Examples.Events.UserSessionTimeoutEvent", [],
                                           Some(UserSessionEvent), Some("Timeout"), [], false, true, false,
                                           map["Topic" := [String("User.Session.Timeout")]])

  /** The classes the topic tables are built from, in scan order. */
  const Scanned := [UserEvent, UserSessionEvent, UserSessionTimeoutEvent]

  /** The timeout event's topic is its ancestry's tokens joined root first: "User.Session.Timeout". */
  lemma TimeoutEventTopic()
    ensures FullTopic(UserEvent) == "User"
    ensures FullTopic(UserSessionEvent) == "User.Session"
    ensures FullTopic(UserSessionTimeoutEvent) == "User.Session.Timeout"
  {
    assert TopicTokens(ObjectType) == [];
    assert TopicTokens(EventType) == [];
    assert TopicTokens(UserEvent) == ["User"];
    FullTopicOfDerived(UserSessionEvent);
    assert TopicTokens(UserSessionEvent) == ["User", "Session"];
    FullTopicOfDerived(UserSessionTimeoutEvent);
  }

  /** Every scanned class derives from Event, so the scan admits all three. */
  lemma ScannedAdmitted()
    ensures Admitted(EventType, UserEvent) && Admitted(EventType, UserSessionEvent)
    ensures Admitted(EventType, UserSessionTimeoutEvent)
  {
    assert Bases(UserEvent)[0] == EventType;
    assert Bases(UserSessionEvent) == [UserEvent] + Bases(UserEvent);
    assert Bases(UserSessionTimeoutEvent) == [UserSessionEvent] + Bases(UserSessionEvent);
  }

  /** The assignments the scan makes to the topic table, in scan order. */
  lemma ScannedTopicPairs()
    ensures TopicPairs(EventType, Scanned)
         == [(Fold("User"), UserEvent), (Fold("User.Session"), UserSessionEvent),
             (Fold("User.Session.Timeout"), UserSessionTimeoutEvent)]
  {
    TimeoutEventTopic();
    ScannedAdmitted();
    assert [UserEvent][..0] == [];
    assert TopicPairs(EventType, [UserEvent]) == [(Fold("User"), UserEvent)];
    assert Scanned[..2] == [UserEvent, UserSessionEvent] && [UserEvent, UserSessionEvent][..1] == [UserEvent];
    assert TopicPairs(EventType, Scanned[..2]) == [(Fold("User"), UserEvent), (Fold("User.Session"), UserSessionEvent)];
  }

  /** The topic table the scan builds, keyed by the case-folded topics. */
  lemma ScannedTopicTable()
    ensures Mappings(EventType, Scanned).topicToType
         == map[Fold("User") := UserEvent, Fold("User.Session") := UserSessionEvent,
                Fold("User.Session.Timeout") := UserSessionTimeoutEvent]
  {
    ScannedTopicPairs();
    var p1 := [(Fold("User"), UserEvent)];
    var p2 := p1 + [(Fold("User.Session"), UserSessionEvent)];
    var p3 := p2 + [(Fold("User.Session.Timeout"), UserSessionTimeoutEvent)];
    assert TopicPairs(EventType, Scanned) == p3;
    AssignedStep([], p1);
    AssignedStep(p1, [(Fold("User.Session"), UserSessionEvent)]);
    AssignedStep(p2, [(Fold("User.Session.Timeout"), UserSessionTimeoutEvent)]);
    assert [] + p1 == p1;
  }

  /** The monitored sub-topic is not itself a key of the scanned table (its length differs from all three). */
  lemma MonitoredTopicUnmapped()
    ensures Fold("User.Session.Timeout.Monitored") !in Mappings(EventType, Scanned).topicToType
  {
    ScannedTopicTable();
    assert |Fold("User.Session.Timeout.Monitored")| == 30;
    assert |Fold("User")| == 4 && |Fold("User.Session")| == 12 && |Fold("User.Session.Timeout")| == 20;
  }

  /** Joining the timeout event's topic with the token "Monitored". */
  lemma MonitoredTopicJoined(tokens: seq<string>)
    requires tokens == ["Monitored"]
    ensures Join(".", [FullTopic(UserSessionTimeoutEvent)] + tokens[..1]) == "User.Session.Timeout.Monitored"
    ensures Join(".", [FullTopic(UserSessionTimeoutEvent)] + tokens) == "User.Session.Timeout.Monitored"
  {
    TimeoutEventTopic();
    JoinCons(".", "User.Session.Timeout", tokens);
    assert tokens[..1] == tokens;
    assert [FullTopic(UserSessionTimeoutEvent)] + tokens == ["User.Session.Timeout", "Monitored"];
    assert Join(".", ["User.Session.Timeout", "Monitored"]) == "User.Session.Timeout.Monitored";
  }

  /**
   * TopicMappings.GetClosestType on the scanned tables: the unknown sub-topic
   * "User.Session.Timeout.Monitored" falls back to the timeout event, the deepest known class.
   */
  lemma MonitoredTopicClosestTopicType()
    ensures ClosestTopicType(Mappings(EventType, Scanned), "User.Session.Timeout.Monitored") == UserSessionTimeoutEvent
    ensures GetTopic(Mappings(EventType, Scanned), EventType) == None
  {
    var m := Mappings(EventType, Scanned);
    TimeoutEventTopic();
    ScannedTopicTable();
    assert Fold(FullTopic(UserSessionTimeoutEvent)) in m.topicToType;
    var tokens := ["Monitored"];
    MonitoredTopicJoined(tokens);
    MonitoredTopicUnmapped();
    ClosestTypeOfSubTopic(m, UserSessionTimeoutEvent, tokens);
    TopicOfScannedType(EventType, Scanned, EventType);
  }

  /**
   * The classes of the Event assembly that the converter's registry scans: the root and the
   * three user events. The topic tables only admit strict descendants of Event, so Event
   * itself adds nothing to them.
   */
  const EventAssembly := [EventType] + Scanned

  /** The policy the tests register: topics as descriptors, over the scanned topic tables. */
  const EventPolicy := TypeDescriptorPolicy.EventTopics(Mappings(EventType, Scanned))

  /**
   * DefaultTypeMappings<Event> under the topic policy: Event has no topic and is let through
   * by the root fallback; each user event is registered under its full topic.
   */
  lemma EventRegistry()
    ensures DefaultTypeMappings.Scan(EventType, EventPolicy, EventAssembly)
         == Ok(DefaultTypeMappings.Registry(EventType, EventPolicy,
                 map["User" := UserEvent, "User.Session" := UserSessionEvent,
                     "User.Session.Timeout" := UserSessionTimeoutEvent],
                 map[UserEvent := "User", UserSessionEvent := "User.Session",
                     UserSessionTimeoutEvent := "User.Session.Timeout"]))
  {
    var p := EventPolicy;
    TimeoutEventTopic();
    ScannedAdmitted();
    TopicOfScannedType(EventType, Scanned, EventType);
    TopicOfScannedType(EventType, Scanned, UserEvent);
    TopicOfScannedType(EventType, Scanned, UserSessionEvent);
    TopicOfScannedType(EventType, Scanned, UserSessionTimeoutEvent);
    assert TypeDescriptorPolicy.GetTypeDescriptor(p, EventType) == None;
    assert TypeDescriptorPolicy.GetTypeDescriptor(p, UserEvent) == Some("User");
    assert TypeDescriptorPolicy.GetTypeDescriptor(p, UserSessionEvent) == Some("User.Session");
    assert TypeDescriptorPolicy.GetTypeDescriptor(p, UserSessionTimeoutEvent) == Some("User.Session.Timeout");
    var types := EventAssembly;
    assert types[..3] == [EventType, UserEvent, UserSessionEvent];
    assert types[..3][..2] == [EventType, UserEvent];
    assert [EventType, UserEvent][..1] == [EventType];
    assert [EventType][..0] == [];
    assert DefaultTypeMappings.Scan(EventType, p, [EventType])
        == Ok(DefaultTypeMappings.Registry(EventType, p, map[], map[]));
    assert DefaultTypeMappings.Scan(EventType, p, [EventType, UserEvent])
        == Ok(DefaultTypeMappings.Registry(EventType, p, map["User" := UserEvent], map[UserEvent := "User"]));
    assert DefaultTypeMappings.Scan(EventType, p, types[..3])
        == Ok(DefaultTypeMappings.Registry(EventType, p,
                map["User" := UserEvent, "User.Session" := UserSessionEvent],
                map[UserEvent := "User", UserSessionEvent := "User.Session"]));
  }

  /**
   * The payload of the round-trip test names the unknown sub-topic "User.Session.Timeout.Monitored".
   * The converter's registry, DefaultTypeMappings<Event> under the topic policy, resolves it by
   * TryGetClosestType to the timeout event, the deepest known class; Event itself is not mapped
   * to any descriptor.
   */
  lemma MonitoredTopicResolvesToTimeoutEvent()
    ensures DefaultTypeMappings.Scan(EventType, EventPolicy, EventAssembly).Ok?
    ensures var reg := DefaultTypeMappings.Scan(EventType, EventPolicy, EventAssembly).value;
      DefaultTypeMappings.ClosestType(reg, "User.Session.Timeout.Monitored") == Some(UserSessionTimeoutEvent)
      && DefaultTypeMappings.IsHierarchyMapped(reg, EventType) == None
  {
    EventRegistry();
    var reg := DefaultTypeMappings.Scan(EventType, EventPolicy, EventAssembly).value;
    TimeoutEventTopic();
    var tokens := ["Monitored"];
    MonitoredTopicJoined(tokens);
    assert TypeDescriptorPolicy.TypeSeparator(reg.policy) == ".";
    assert SharesNoChar(tokens[0], ".");
    assert |"User.Session.Timeout.Monitored"| == 30;
    assert "User.Session.Timeout.Monitored" !in reg.descriptorToType;
    DefaultTypeMappings.ClosestTypeOfExtendedDescriptor(reg, "User.Session.Timeout", tokens);
  }

  /** Every user event, and Event itself, has Event's two properties and nothing else. */
  lemma EventProperties()
    ensures AllProperties(EventType) == [ExtensionDataProperty, TopicProperty]
    ensures AllProperties(UserEvent) == [ExtensionDataProperty, TopicProperty]
    ensures AllProperties(UserSessionEvent) == [ExtensionDataProperty, TopicProperty]
    ensures AllProperties(UserSessionTimeoutEvent) == [ExtensionDataProperty, TopicProperty]
  {
    assert AllProperties(ObjectType) == [];
  }

  /**
   * A new instance of each class holds in Topic what the Topic getter of a fresh event of that
   * class returns: the full topic of a user event, null for Event.
   */
  lemma InitialTopicIsGetterTopic(t: ClrType)
    requires t in [EventType] + Scanned
    ensures TopicProperty in InitialValues(t)
    ensures InitialValues(t)[TopicProperty]
         == match Events.AppendTopic(GetTopic(Mappings(EventType, Scanned), t))
            case Some(topic) => [String(topic)]
            case None => [Null]
  {
    EventProperties();
    TimeoutEventTopic();
    ScannedAdmitted();
    TopicOfScannedType(EventType, Scanned, t);
    if t == EventType {
      assert Bases(EventType) == [ObjectType];
      assert forall c :: c in [t] + Bases(t) ==> TopicProperty.name !in c.initializes;
    }
  }

  /** A converter whose descriptor property is Topic gives the user events an empty property table. */
  lemma TimeoutEventTableEmpty(conv: ExtensibleJsonConverters.Converter)
    requires conv.descriptorProperty == Some(TopicProperty)
    ensures ExtensibleJsonConverterRoundTrip.ConverterAccessor(conv, UserSessionTimeoutEvent).table == []
  {
    var filter := Some(ExtensibleJsonConverters.GetPropertyFilter(conv));
    EventProperties();
    assert !TypeAccessors.Passes(filter, ExtensionDataProperty) && !TypeAccessors.Passes(filter, TopicProperty);
    var ps := [ExtensionDataProperty, TopicProperty];
    assert ps[1..] == [TopicProperty] && [TopicProperty][1..] == [];
    assert TypeAccessors.Candidates([TopicProperty], filter) == [];
    assert TypeAccessors.Candidates(ps, filter) == [];
  }

  /** The timeout event derives from Event, and its Topic starts as its own full topic. */
  lemma TimeoutEventInstance()
    ensures IsAssignableFrom(EventType, UserSessionTimeoutEvent)
    ensures TopicProperty in InitialValues(UserSessionTimeoutEvent)
    ensures InitialValues(UserSessionTimeoutEvent)[TopicProperty] == [String("User.Session.Timeout")]
  {
    EventProperties();
    ScannedAdmitted();
  }

  /** Write of an event that kept the topic its class gives Topic writes that topic first. */
  lemma InitialTopicWritten(conv: ExtensibleJsonConverters.Converter, t: ClrType, topic: string, options: JsonOptions.SerializerOptions)
    requires ExtensibleJsonConverters.WellFormed(conv) && conv.descriptorProperty == Some(TopicProperty)
    requires IsAssignableFrom(conv.root, t) && TopicProperty in InitialValues(t)
    requires InitialValues(t)[TopicProperty] == [String(topic)]
    ensures ExtensibleJsonConverterWrite.WriteTypeDescriptor(
              conv, ExtensibleJsonConverterRoundTrip.UndescribedState(conv, t, "Monitor", "x", 0), options)
         == Ok(([PropertyName(JsonOptions.ConvertPropertyName(options, "Topic")), String(topic)], 1))
  {
    ExtensibleJsonConverterRoundTrip.UndescribedDescriptorWritten(conv, t, "Monitor", "x", 0, options);
    var s := ExtensibleJsonConverterRoundTrip.UndescribedState(conv, t, "Monitor", "x", 0);
    var initial := InitialValues(t)[TopicProperty];
    assert ExtensibleJsonConverterWrite.IsDescriptorValue(initial);
    var name := PropertyName(JsonOptions.ConvertPropertyName(options, "Topic"));
    assert [name] + initial == [name, String(topic)];
    assert ExtensibleJsonConverterWrite.WriteTypeDescriptor(conv, s, options) == Ok(([name] + initial, 1));
  }

  /**
   * The payload {"Monitor":"x"} read as UserSessionTimeoutEvent when Topic is the descriptor
   * property: the member is unknown and Topic was not in the payload, so the instance keeps the
   * topic its class gives it, and Write writes "Topic":"User.Session.Timeout" first.
   */
  lemma UndescribedTimeoutEventKeepsTopic(conv: ExtensibleJsonConverters.Converter,
                                          accessors: map<ClrType, TypeAccessors.TypeAccessor>,
                                          options: JsonOptions.SerializerOptions)
    requires TypeDescriptorPolicy.Valid(conv.mappings.policy) && ExtensibleJsonConverters.WellFormed(conv)
    requires conv.root == EventType && conv.descriptorProperty == Some(TopicProperty)
    requires UserSessionTimeoutEvent in accessors ==>
      accessors[UserSessionTimeoutEvent] == ExtensibleJsonConverterRoundTrip.ConverterAccessor(conv, UserSessionTimeoutEvent)
    ensures ExtensibleJsonConverterRead.ReadSpec(conv, accessors, ExtensibleJsonConverterRoundTrip.UndescribedPayload("Monitor", "x"),
                                                 0, UserSessionTimeoutEvent)
         == Ok((Some(ExtensibleJsonConverterRoundTrip.UndescribedState(conv, UserSessionTimeoutEvent, "Monitor", "x", 0)), 3))
    ensures ExtensibleJsonConverterWrite.WriteTypeDescriptor(
              conv, ExtensibleJsonConverterRoundTrip.UndescribedState(conv, UserSessionTimeoutEvent, "Monitor", "x", 0), options)
         == Ok(([PropertyName(JsonOptions.ConvertPropertyName(options, "Topic")), String("User.Session.Timeout")], 1))
  {
    var t := UserSessionTimeoutEvent;
    var acc := TypeAccessorCaches.CachedAccessor(accessors, t, Some(ExtensibleJsonConverters.GetPropertyFilter(conv)));
    TimeoutEventTableEmpty(conv);
    assert TypeAccessors.Lookup(acc.table, "Monitor").None?;
    TimeoutEventInstance();
    assert ExtensibleJsonConverters.DescriptorMember(conv) == "Topic";
    assert !EqualsIgnoreCase("Monitor", "Topic") by { assert |Fold("Monitor")| != |Fold("Topic")|; }
    ExtensibleJsonConverterRoundTrip.ReadUndescribed(conv, accessors, t, "Monitor", "x", false);
    InitialTopicWritten(conv, t, "User.Session.Timeout", options);
  }
}
