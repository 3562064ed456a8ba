# Pinja extensible JSON codec — a Dafny model

Pinja is a set of C# examples built around one idea: polymorphic, forward-compatible JSON for
class hierarchies. A class that implements `IExtensible` gets an `ExtensionData` property, and
`ExtensibleJsonConverter<T>` reads and writes it through System.Text.Json:

- A *type descriptor* member names the runtime class. By default it is the metadata member
  `__type__`, built from class names (`ClassNameBasedTypeDescriptorPolicy`). The event example
  uses a `Topic` property built from `[Topic]` attributes (`EvenTypeDescriptorPolicy`,
  `TopicMappings`).
- On read, a descriptor that no scanned class owns resolves to the *closest known* class: its
  parent descriptor is tried, then that one's parent, and so on (`DefaultTypeMappings`).
- Members the class does not declare are kept in `ExtensionData` under their position in the
  payload. A reader that knows less than the writer therefore loses nothing.
- On write, the unknown members are put back at their positions between the declared
  properties. The descriptor the reader did not understand is written back as it was read.

The model covers the descriptor policies and mappings and the converter's read and write paths,
with its unknown-value decoder and encoder. It also covers the converter factory, the type
accessor and its cache, the event topic machinery and the handler-mapping helper of the
convention-based factories.

JSON is modelled as a sequence of reader tokens (`JsonTokens.Token`). A CLR class is a
`ClrTypes.ClrType` record: name, namespace, full name, generic arguments, base class, `[Topic]`
token and declared properties. It also says whether the class is abstract, whether it has a
parameterless constructor, and which property values its own constructor or getters give a new
instance (`initializes`). The stateful .NET objects are
Dafny classes:

- an event and its cached topic (`Events.Event`);
- an extensible instance (`ExtensibleObjects.ExtensibleObject`);
- its `ExtensionData` (`ExtensionDataStore.ExtensionData`);
- the accessor cache (`TypeAccessorCaches.TypeAccessorCache`);
- the factory and its two caches (`ExtensibleJsonConverterFactories.ExtensibleJsonConverterFactory`).

Immutable registries and policies are datatypes. Loops of the source are methods with loop
invariants, each proved against a function that states what it computes. The properties the code
promises are lemmas about those functions. The main ones:

- the parent of a class's descriptor is its base class's descriptor;
- a descriptor extended by any number of unknown tokens resolves to the deepest known class;
- the decoder and the encoder of unknown values are inverse to each other, in both directions;
- an object read from a payload whose first member is its descriptor is written back as exactly
  the tokens that were read (`ExtensibleJsonConverterRoundTrip.ObjectRoundTrip`, the
  round-trip test of `EventSerializationUnitTests`).

## Model

| member | source | states |
|---|---|---|
| ClassNameBasedTypeDescriptorPolicy.GetTypeName | Pinja.Examples.Extensibility/ClassNameBasedTypeDescriptorPolicy.cs:35-46 | a non-generic class is named by its full name or its short name as configured; a generic one starts with its (namespace-qualified) name and "<" and ends with ">" |
| ClassNameBasedTypeDescriptorPolicy.DerivedFirstNames | Pinja.Examples.Extensibility/ClassNameBasedTypeDescriptorPolicy.cs:86-100 | one name per class of the chain from the class up to, not including, System.Object; the class's own name first |
| ClassNameBasedTypeDescriptorPolicy.GetTypeDescriptorDerivedFirst | Pinja.Examples.Extensibility/ClassNameBasedTypeDescriptorPolicy.cs:86-100 | the builder loop yields the chain's names joined by the separator, leaf first |
| ClassNameBasedTypeDescriptorPolicy.GetTypeDescriptorRootFirst | Pinja.Examples.Extensibility/ClassNameBasedTypeDescriptorPolicy.cs:102-116 | the insert-at-front loop yields the same names reversed (root first), joined by the separator |
| ClassNameBasedTypeDescriptorPolicy.DerivedFirstDescriptorOfDerived | Pinja.Examples.Extensibility/ClassNameBasedTypeDescriptorPolicy.cs:86-100 | derived first: a class's descriptor is its name, the separator, then its base class's descriptor |
| ClassNameBasedTypeDescriptorPolicy.AbstractFirstDescriptorOfDerived | Pinja.Examples.Extensibility/ClassNameBasedTypeDescriptorPolicy.cs:102-116 | root first: a class's descriptor is its base class's descriptor, the separator, then its name |
| ClassNameBasedTypeDescriptorPolicy.DescriptorOfRoot | Pinja.Examples.Extensibility/ClassNameBasedTypeDescriptorPolicy.cs:86-116 | a class directly under System.Object is described by its name alone, in both modes |
| ClassNameBasedTypeDescriptorPolicy.TryGetParentDescriptor | Pinja.Examples.Extensibility/ClassNameBasedTypeDescriptorPolicy.cs:57-84 | the corrected parent (the whole separator removed): no parent exactly when the separator does not occur; otherwise a strictly shorter suffix (derived first) or prefix (root first) of the descriptor |
| ClassNameBasedTypeDescriptorPolicy.TryGetParentDescriptorAsWritten | Pinja.Examples.Extensibility/ClassNameBasedTypeDescriptorPolicy.cs:57-84 | the code as written, which the mappings use: no parent exactly when the separator does not occur; otherwise a strictly shorter suffix (derived first) or prefix (root first) of the descriptor |
| ClassNameBasedTypeDescriptorPolicy.AsWrittenAgreesForOneCharSeparator | Pinja.Examples.Extensibility/ClassNameBasedTypeDescriptorPolicy.cs:68-69 | with a one-character separator (such as the default ":") the code as written and the corrected parent agree on every descriptor |
| ClassNameBasedTypeDescriptorPolicy.AsWrittenKeepsSeparatorTail | Pinja.Examples.Extensibility/ClassNameBasedTypeDescriptorPolicy.cs:68-69 | with separator "::", derived first, the code as written gives ":A" as the parent of "B::A", where "A" is meant |
| ClassNameBasedTypeDescriptorPolicy.ParentOfDescriptorIsBaseDescriptor | Pinja.Examples.Extensibility/ClassNameBasedTypeDescriptorPolicy.cs:57-116 | when class names do not contain the separator, the parent of a class's descriptor is its base class's descriptor, in both modes |
| ClassNameBasedTypeDescriptorPolicy.RootDescriptorHasNoParent | Pinja.Examples.Extensibility/ClassNameBasedTypeDescriptorPolicy.cs:57-116 | the descriptor of a class directly under System.Object has no parent |
| ClrTypes.GetProperty | Pinja.Examples.Extensibility/ExtensibleJsonConverter.cs:31 | Type.GetProperty by name: a property of the class or its ancestors with that name, or none exactly when no such property exists |
| ClrTypes.ExtensionDataDeclarer | Pinja.Examples.Extensibility/ExtensibleJsonConverterFactory.cs:52 | the declaring class of the ExtensionData property: a class the converted class is assignable to and that declares it; none exactly when neither the class nor any ancestor declares it |
| ClrTypes.DeclarerIsNearest | Pinja.Examples.Extensibility/ExtensibleJsonConverterFactory.cs:52 | the declarer is the first of the class and its ancestors, nearest first, that declares the ExtensionData property |
| ClrTypes.InheritedProperties | Pinja.Examples.Extensibility/ExtensibleJsonConverter.cs:31 | every property of a class is also a property of each class assignable to it |
| ClrTypes.AssignedValue | Pinja.Examples.Messages/Vote.cs:16-20 | the value a new instance reads for a property is set by the nearest class in its lineage that initializes it (the base constructor runs first, so the derived assignment remains); none exactly when no class in the lineage initializes it |
| DefaultTypeMappings.Scan | Pinja.Examples.Extensibility/DefaultTypeMappings.cs:30-57 | the constructor keeps the root and the policy, and fails only with ArgumentException |
| DefaultTypeMappings.Build | Pinja.Examples.Extensibility/DefaultTypeMappings.cs:30-57 | the constructor's loop computes Scan |
| DefaultTypeMappings.ScanFailureSticks | Pinja.Examples.Extensibility/DefaultTypeMappings.cs:39-50 | once a prefix of the scan throws, the whole scan throws the same way, whatever follows |
| DefaultTypeMappings.NullDescriptorRejected | Pinja.Examples.Extensibility/DefaultTypeMappings.cs:41-50 | a scanned class without a descriptor throws ArgumentException, unless it is the root with fallback enabled |
| DefaultTypeMappings.IsHierarchyMapped | Pinja.Examples.Extensibility/DefaultTypeMappings.cs:60-69 | a descriptor is returned exactly when the class is in the class-to-descriptor table |
| DefaultTypeMappings.HierarchyMappedIffScanned | Pinja.Examples.Extensibility/DefaultTypeMappings.cs:37-53 | after a successful scan a class is mapped exactly when it was scanned and is assignable to the root, and then to its policy descriptor |
| DefaultTypeMappings.DescriptorLastWins | Pinja.Examples.Extensibility/DefaultTypeMappings.cs:51-52 | a descriptor maps to the last scanned class that has it |
| DefaultTypeMappings.LastDescribed | Pinja.Examples.Extensibility/DefaultTypeMappings.cs:37-53 | reference definition: the last scanned class assignable to the root with a given descriptor, none exactly when no such class was scanned |
| DefaultTypeMappings.DescriptorTable | Pinja.Examples.Extensibility/DefaultTypeMappings.cs:37-53 | after a successful scan a descriptor is a key exactly when some scanned class assignable to the root has it, and it maps to the last such class |
| DefaultTypeMappings.DuplicateDescriptorOverwrites | Pinja.Examples.Extensibility/DefaultTypeMappings.cs:51-52 | two classes with one descriptor: the scan succeeds, the second owns the descriptor, and both keep their class-to-descriptor entries |
| DefaultTypeMappings.ScanSingle | Pinja.Examples.Extensibility/DefaultTypeMappings.cs:39-53 | scanning one described class yields exactly its two table entries |
| DefaultTypeMappings.ClosestType | Pinja.Examples.Extensibility/DefaultTypeMappings.cs:72-97 | the walk up the parent descriptors, as the code computes them, ends on one of the table's classes or on nothing |
| DefaultTypeMappings.TryGetClosestType | Pinja.Examples.Extensibility/DefaultTypeMappings.cs:72-97 | the parent-walking loop computes ClosestType |
| DefaultTypeMappings.ClosestTypeOfScannedType | Pinja.Examples.Extensibility/DefaultTypeMappings.cs:72-88 | a scanned class's own descriptor resolves to that class (the last one scanned with it) |
| DefaultTypeMappings.ClosestTypeOfExtendedDescriptor | Pinja.Examples.Extensibility/DefaultTypeMappings.cs:72-88 | root first: a known descriptor extended by any number of unknown tokens (none containing a separator character, no intermediate descriptor mapped) resolves to the known descriptor's class |
| DefaultTypeMappings.ClosestTypeOfPrependedDescriptor | Pinja.Examples.Extensibility/DefaultTypeMappings.cs:72-88 | derived first, with a one-character separator: any number of unknown leaf tokens in front of a known descriptor resolve to its class |
| DefaultTypeMappings.ExtendedDescriptorMissedAsWritten | Pinja.Examples.Extensibility/ClassNameBasedTypeDescriptorPolicy.cs:68-69 | with separator "::" derived first and only "A" mapped, the code's walk from "B::A" finds nothing (its parent is ":A") |
| DefaultTypeMappings.NoRootFallback | Pinja.Examples.Extensibility/DefaultTypeMappings.cs:77-80 | an unknown descriptor without a separator finds no class |
| EvenTypeDescriptorPolicy.GetTypeDescriptor | Pinja.Examples.Events/EvenTypeDescriptorPolicy.cs:19-22 | a class has a descriptor exactly when TopicMappings has a topic for it |
| EvenTypeDescriptorPolicy.TryGetParentDescriptor | Pinja.Examples.Events/EvenTypeDescriptorPolicy.cs:25-36 | no parent exactly when the topic has no '.'; otherwise the part before the last '.' |
| EvenTypeDescriptorPolicy.ParentOfSubTopic | Pinja.Examples.Events/EvenTypeDescriptorPolicy.cs:25-36 | the parent of topic + "." + token is topic, for a token without '.' |
| EvenTypeDescriptorPolicy.ParentOfEventDescriptor | Pinja.Examples.Events/EvenTypeDescriptorPolicy.cs:19-36 | a scanned event's descriptor is its full topic, and its parent is the base event's full topic |
| Events.AppendTopic | Pinja.Examples.Events/Event.cs:37-40 | the default hook returns the base topic unchanged, null included |
| Events.Event.constructor | Pinja.Examples.Events/Event.cs:12 | a new event has no cached topic |
| Events.Event.GetTopicValue | Pinja.Examples.Events/Event.cs:22 | the cached topic when set; otherwise the mapped topic of the runtime class, which is then cached |
| Events.Event.SetTopicValue | Pinja.Examples.Events/Event.cs:23 | the setter replaces the cached topic |
| Events.SetThenGet | Pinja.Examples.Events/Event.cs:20-24 | a topic that was set is what every later read returns |
| Events.FreshEventTopic | Pinja.Examples.Events/Event.cs:22 | a fresh event of a scanned class reads its full topic |
| EventFixtures.TimeoutEventTopic | Pinja.Examples.Extensibility.UnitTests/EventSerializationUnitTests.cs:53 | the timeout event's topic is "User.Session.Timeout", its ancestors' "User.Session" and "User" |
| EventFixtures.ScannedAdmitted | Pinja.Examples.Events/TopicMappings.cs:24-26 | the scan admits all three user events, each deriving from Event |
| EventFixtures.ScannedTopicPairs | Pinja.Examples.Events/TopicMappings.cs:26-33 | the scan assigns the three folded topics to their classes, in scan order |
| EventFixtures.ScannedTopicTable | Pinja.Examples.Events/TopicMappings.cs:22-38 | the scan of the three user events yields exactly their three case-folded topics |
| EventFixtures.EventRegistry | Pinja.Examples.Extensibility/DefaultTypeMappings.cs:30-57 | the registry of the Event assembly under the topic policy: Event passes by the root fallback, each user event is registered under its full topic, in both directions |
| EventFixtures.MonitoredTopicResolvesToTimeoutEvent | Pinja.Examples.Extensibility.UnitTests/EventSerializationUnitTests.cs:70-75 | in that registry, TryGetClosestType resolves "User.Session.Timeout.Monitored" to the timeout event, and Event itself is mapped to no descriptor |
| EventFixtures.MonitoredTopicClosestTopicType | Pinja.Examples.Events/TopicMappings.cs:46-66 | TopicMappings.GetClosestType resolves the same sub-topic to the timeout event over the scanned topic tables |
| EventFixtures.EventProperties | Pinja.Examples.Events/Event.cs:15-24 | Event and the three user events have exactly the properties ExtensionData and Topic, declared by Event |
| EventFixtures.InitialTopicIsGetterTopic | Pinja.Examples.Events/Event.cs:20-24 | a new Event or user event reads as Topic what the getter computes from its runtime class: its mapped topic with the leaf appended, or null when it has none |
| EventFixtures.TimeoutEventInstance | Pinja.Examples.Events/Event.cs:22 | the timeout event derives from Event and a new one reads Topic "User.Session.Timeout" |
| EventFixtures.InitialTopicWritten | Pinja.Examples.Extensibility/ExtensibleJsonConverter.cs:142-148 | with Topic as the descriptor property, writing an instance whose Topic was never set writes the class's own topic and counts one member |
| EventFixtures.UndescribedTimeoutEventKeepsTopic | Pinja.Examples.Extensibility/ExtensibleJsonConverter.cs:142-148 | `{"Monitor":"x"}` read as the timeout event keeps Monitor as an unknown member, and writing it back writes "Topic":"User.Session.Timeout" |
| ExtensibleJsonConverters.NewConverter | Pinja.Examples.Extensibility/ExtensibleJsonConverter.cs:26-33 | in property mode the descriptor property is looked up by name on the root; the constructor fails (NullReferenceException) exactly when no such property exists |
| ExtensibleJsonConverters.GetPropertyFilter | Pinja.Examples.Extensibility/ExtensibleJsonConverter.cs:251-259 | a property passes exactly when it is not ExtensionData of type ExtensionData and, in property mode, not the descriptor property |
| ExtensibleJsonConverterFactories.Registrations | Pinja.Examples.Extensibility/ExtensibleJsonConverterFactory.cs:35-38 | every registered registry is stored under its own root |
| ExtensibleJsonConverterFactories.RegisteredRoots | Pinja.Examples.Extensibility/ExtensibleJsonConverterFactory.cs:35-38 | a root is registered exactly when some given registry has it |
| ExtensibleJsonConverterFactories.LastRegistrationWins | Pinja.Examples.Extensibility/ExtensibleJsonConverterFactory.cs:35-38 | the last registry given for a root is the one kept |
| ExtensibleJsonConverterFactories.CanConvertInherited | Pinja.Examples.Extensibility/ExtensibleJsonConverterFactory.cs:42-45 | a class assignable to a convertible class is convertible |
| ExtensibleJsonConverterFactories.CreatedConverterUsesDeclarer | Pinja.Examples.Extensibility/ExtensibleJsonConverterFactory.cs:48-69 | a class that does not implement IExtensible, or has no ExtensionData declarer, gives ArgumentException; a created converter converts the class with the registry of its declarer, and uses a registered one when there is one |
| ExtensibleJsonConverterFactories.RegistryCachedAfterCreate | Pinja.Examples.Extensibility/ExtensibleJsonConverterFactory.cs:58-66 | after one creation, a later class with the same declarer reuses the registry, whatever a second scan finds |
| ExtensibleJsonConverterFactories.ExtensibleJsonConverterFactory.constructor | Pinja.Examples.Extensibility/ExtensibleJsonConverterFactory.cs:31-39 | the factory starts with the given registries by root and no cached constructors |
| ExtensibleJsonConverterFactories.ExtensibleJsonConverterFactory.GetConstructor | Pinja.Examples.Extensibility/ExtensibleJsonConverterFactory.cs:71-79 | a cached constructor is reused; a new one is cached; the registries are untouched |
| ExtensibleJsonConverterFactories.ExtensibleJsonConverterFactory.CreateConverter | Pinja.Examples.Extensibility/ExtensibleJsonConverterFactory.cs:48-69 | a class that does not implement IExtensible fails with ArgumentException in MakeGenericType, with nothing cached; otherwise the result is CreatedConverter, the registries become RegistrationsAfter, and the class's constructor is cached |
| ExtensibleJsonConverterFactories.SecondCallReusesRegistry | Pinja.Examples.Extensibility/ExtensibleJsonConverterFactory.cs:58-68 | a second CreateConverter for a class with the same declarer builds its converter on the first call's registry |
| ExtensibleJsonConverterRead.StartIndex | Pinja.Examples.Extensibility/ExtensibleJsonConverter.cs:229-237 | corrected half of Findings row 4: the first member's position is 1 in property mode, else 0, as the writer counts; it agrees with the code whenever a descriptor was read |
| ExtensibleJsonConverterRead.ReadMembers | Pinja.Examples.Extensibility/ExtensibleJsonConverter.cs:61-81 | a successful member loop stops at an EndObject token at or after where it started |
| ExtensibleJsonConverterRead.DecodeAt | Pinja.Examples.Extensibility/ExtensibleJsonConverter.cs:261-293 | decoding at a position agrees with the unknown-value decoder on the remaining tokens, errors included |
| ExtensibleJsonConverterRead.ReadSpec | Pinja.Examples.Extensibility/ExtensibleJsonConverter.cs:42-84 | a successful read ends on a token inside the input, at or after its start; members are numbered as the code does, from 1 only when a descriptor property was read |
| ExtensibleJsonConverterRead.ReadTypeDescriptor | Pinja.Examples.Extensibility/ExtensibleJsonConverter.cs:189-218 | the header steps compute ReadHeader, whose class is the closest mapped class by the code's parent walk, else the requested one |
| ExtensibleJsonConverterRead.CreateAccessorAndInstance | Pinja.Examples.Extensibility/ExtensibleJsonConverter.cs:187-245 | header errors pass through untouched; a closest class without a parameterless constructor is ArgumentNullException with the cache unchanged; otherwise its accessor is cached, an abstract class fails, a class not assignable to the root is InvalidCastException, and a fresh instance with fresh ExtensionData holds the descriptor in its property or in ExtensionData; the start index is 1 only when a descriptor property was read |
| ExtensibleJsonConverterRead.AttachExtensionData | Pinja.Examples.Extensibility/ExtensibleJsonConverter.cs:222-242 | a fresh empty ExtensionData; the descriptor goes in the descriptor property in property mode, else in ExtensionData.TypeDescriptor |
| ExtensibleJsonConverterRead.ReadMember | Pinja.Examples.Extensibility/ExtensibleJsonConverter.cs:61-81 | one iteration of the member loop advances and agrees with ReadMembers |
| ExtensibleJsonConverterRead.ReadMemberLoop | Pinja.Examples.Extensibility/ExtensibleJsonConverter.cs:61-81 | the member loop computes ReadMembers: the property values and the unknown members it leaves, and where it stops |
| ExtensibleJsonConverterRead.ReadSpecObject | Pinja.Examples.Extensibility/ExtensibleJsonConverter.cs:54-83 | reading an object is its header followed by the member loop from StartIndexAsWritten |
| ExtensibleJsonConverterRead.Read | Pinja.Examples.Extensibility/ExtensibleJsonConverter.cs:42-84 | Read computes ReadSpec: null for null, the same error, or a fresh instance whose state is the spec's; the cache gains the accessor used |
| ExtensibleJsonConverterRoundTrip.ReadPropertyStep | Pinja.Examples.Extensibility/ExtensibleJsonConverter.cs:63-69 | a known member followed by its value is assigned and the loop moves past it to the next position |
| ExtensibleJsonConverterRoundTrip.ReadUnknownStep | Pinja.Examples.Extensibility/ExtensibleJsonConverter.cs:69-80 | an unknown member is stored under the current position, with that index and its name, and the loop moves on |
| ExtensibleJsonConverterRoundTrip.ReadLayout | Pinja.Examples.Extensibility/ExtensibleJsonConverter.cs:61-81 | reading the tokens of a layout assigns every property its value and stores every unknown member at its position, then stops at the closing brace |
| ExtensibleJsonConverterRoundTrip.DescriptorNotInLayout | Pinja.Examples.Extensibility/ExtensibleJsonConverter.cs:251-257 | the descriptor property is filtered out of the accessor, so no property writer writes it twice |
| ExtensibleJsonConverterRoundTrip.ReadPayload | Pinja.Examples.Extensibility/ExtensibleJsonConverter.cs:42-84 | a payload that starts with the descriptor reads as the described class with the layout's values and unknown members, consuming exactly the payload |
| ExtensibleJsonConverterRoundTrip.PayloadCache | Pinja.Examples.Extensibility/ExtensibleJsonConverter.cs:220 | after reading the payload the cache holds the described class's accessor |
| ExtensibleJsonConverterRoundTrip.WritePayloadDescriptor | Pinja.Examples.Extensibility/ExtensibleJsonConverter.cs:136-166 | the instance read from a payload writes back the same descriptor member and resumes at the same position |
| ExtensibleJsonConverterRoundTrip.WritePayload | Pinja.Examples.Extensibility/ExtensibleJsonConverter.cs:87-134 | the instance read from a payload is laid out and written back as the payload's tokens |
| ExtensibleJsonConverterRoundTrip.WritePayloadSucceeds | Pinja.Examples.Extensibility/ExtensibleJsonConverter.cs:107-134 | writing that instance succeeds exactly when every unknown member of the layout is writable |
| ExtensibleJsonConverterRoundTrip.ObjectRoundTrip | Pinja.Examples.Extensibility.UnitTests/EventSerializationUnitTests.cs:64-103 | read then write reproduces the tokens read: the described class, its values and unknown members at their positions, the same tokens back, and the accessor left in the cache |
| ExtensibleJsonConverterRoundTrip.ReadUndescribed | Pinja.Examples.Extensibility/ExtensibleJsonConverter.cs:54-84 | a payload whose only member is neither the descriptor nor a known property reads as the requested class, its initial values and that member under the first index |
| ExtensibleJsonConverterRoundTrip.UndescribedDescriptorWritten | Pinja.Examples.Extensibility/ExtensibleJsonConverter.cs:142-148 | in property mode, an instance read without a descriptor writes its descriptor property with the class's initial value, or fails with InvalidCastException when that value is not a string or null |
| ExtensibleJsonConverterRoundTrip.FirstMemberLostAsWritten | Pinja.Examples.Extensibility/ExtensibleJsonConverter.cs:229-237 | as written, in property mode, Read stores the only member of a payload without the descriptor under 0, and the layout Write emits for that state holds no unknown member |
| ExtensibleJsonConverterRoundTrip.FirstMemberKept | Pinja.Examples.Extensibility/ExtensibleJsonConverter.cs:229-237 | read with positions counted as the writer counts them, that member is stored under 1, and Write emits it first after the descriptor |
| ExtensibleJsonConverterWrite.MembersAt | Pinja.Examples.Extensibility/ExtensibleJsonConverter.cs:72-74 | the unknown members of a layout keyed by their positions: a position is a key exactly when an unknown member is there |
| ExtensibleJsonConverterWrite.InterleaveKeepsWriters | Pinja.Examples.Extensibility/ExtensibleJsonConverter.cs:107-124 | the written layout holds every property writer once, in accessor order |
| ExtensibleJsonConverterWrite.InterleaveKeepsMembers | Pinja.Examples.Extensibility/ExtensibleJsonConverter.cs:107-133 | the written layout holds exactly the unknown members whose keys are at or after the start position, by ascending key |
| ExtensibleJsonConverterWrite.InterleaveAgree | Pinja.Examples.Extensibility/ExtensibleJsonConverter.cs:107-133 | members under keys before the start position play no part in the layout |
| ExtensibleJsonConverterWrite.InterleaveRestoresLayout | Pinja.Examples.Extensibility/ExtensibleJsonConverter.cs:107-133 | interleaving a layout's writers with its members at their positions rebuilds the layout |
| ExtensibleJsonConverterWrite.WriteTypeDescriptor | Pinja.Examples.Extensibility/ExtensibleJsonConverter.cs:136-166 | property mode writes the property's string and resumes at 1, failing with InvalidCastException when it holds no string; metadata mode writes the stored descriptor, else the mapped one, else nothing, and resumes at 0 |
| ExtensibleJsonConverterWrite.WriteSpec | Pinja.Examples.Extensibility/ExtensibleJsonConverter.cs:87-105 | an object is written between StartObject and EndObject, and fails exactly when its descriptor does |
| ExtensibleJsonConverterWrite.WriteMembersAt | Pinja.Examples.Extensibility/ExtensibleJsonConverter.cs:112-119 | the inner loop writes the members at consecutive positions, stops at a free one and leaves the rest of the layout |
| ExtensibleJsonConverterWrite.WriteProperties | Pinja.Examples.Extensibility/ExtensibleJsonConverter.cs:107-134 | the tokens of the interleaved layout, succeeding exactly when all its unknown members are writable |
| ExtensibleJsonConverterWrite.WriteRest | Pinja.Examples.Extensibility/ExtensibleJsonConverter.cs:126-133 | the members from the current position on, by ascending key |
| ExtensibleJsonConverterWrite.Write | Pinja.Examples.Extensibility/ExtensibleJsonConverter.cs:87-105 | null is written as null; a runtime class with no cached accessor and no parameterless constructor is ArgumentNullException with the cache unchanged; otherwise the cached accessor of the runtime class is used and the output is WriteSpec's, with the same failures |
| ExtensibleObjects.InitialValues | Pinja.Examples.Messages/NewPlayerGameEvent.cs:18-21 | a new instance holds every property of its class: the value the class itself initializes, otherwise its base class's initial value, otherwise the property type's default when no class in the lineage sets it |
| ExtensibleObjects.ExtensibleObject.constructor | Pinja.Examples.Extensibility/TypeAccessor.cs:108-125 | only a concrete class with a parameterless constructor can be instantiated; the new instance has its class's initial values and no ExtensionData |
| ExtensionDataStore.ExtensionData.constructor | Pinja.Examples.Extensibility/ExtensionData.cs:23-26 | no descriptor and no members |
| ExtensionDataStore.ExtensionData.SetTypeDescriptor | Pinja.Examples.Extensibility/ExtensionData.cs:13 | sets the descriptor and leaves the members |
| ExtensionDataStore.ExtensionData.Store | Pinja.Examples.Extensibility/ExtensibleJsonConverter.cs:72-77 | the member is stored under its index, replacing any member there, and nothing else changes |
| HandlerMappingHelper.AttributedEntriesMembers | Pinja.Examples.ConventionBasedFactories/HandlerMappingHelper.cs:45-55 | an implementation is mapped exactly when it carries the attribute, and then to its first attribute's discriminator |
| HandlerMappingHelper.CreateMappings | Pinja.Examples.ConventionBasedFactories/HandlerMappingHelper.cs:38-64 | the scan loop computes Mappings: the attributed implementations, or InvalidOperationException for a type added twice |
| HandlerMappingHelper.ImplementationEntriesMembers | Pinja.Examples.ConventionBasedFactories/HandlerMappingHelper.cs:95-103 | every implementation is mapped, with or without attributes, to the discriminators of all its attributes |
| HandlerMappingHelper.Discriminators | Pinja.Examples.ConventionBasedFactories/HandlerMappingHelper.cs:101 | one discriminator per attribute, in order |
| HandlerMappingHelper.CreateMultiAttributeMappings | Pinja.Examples.ConventionBasedFactories/HandlerMappingHelper.cs:89-106 | the scan loop computes MultiAttributeMappings, with ArgumentException for a type added twice |
| HandlerMappingHelper.CreateActivator | Pinja.Examples.ConventionBasedFactories/HandlerMappingHelper.cs:115-146 | ArgumentException exactly when no constructor matches the delegate's parameters; otherwise an activator of that constructor |
| HandlerMappingHelper.ActivatorsOfSpec | Pinja.Examples.ConventionBasedFactories/HandlerMappingHelper.cs:164-173 | the activators succeed exactly when every type has a matching constructor and the discriminators are distinct; then each discriminator maps to its type's activator and type |
| HandlerMappingHelper.CreateActivators | Pinja.Examples.ConventionBasedFactories/HandlerMappingHelper.cs:158-174 | the loop computes Activators |
| HandlerMappingHelper.ActivatorFailureSticks | Pinja.Examples.ConventionBasedFactories/HandlerMappingHelper.cs:165-171 | once a prefix of the mappings throws, the whole loop throws the same way |
| HandlerMappingHelper.RepeatedKeyPersists | Pinja.Examples.ConventionBasedFactories/HandlerMappingHelper.cs:57-60 | a key repeated in a prefix stays repeated in the whole sequence, so TryAdd's failure is final |
| OrderedKeys.RestKeysMembers | Pinja.Examples.Extensibility/ExtensibleJsonConverter.cs:129 | the remaining keys are exactly the member keys at or after the position |
| OrderedKeys.RestKeysAscending | Pinja.Examples.Extensibility/ExtensibleJsonConverter.cs:129 | the remaining keys are strictly ascending |
| OrderedKeys.MinKey | Pinja.Examples.Extensibility/ExtensibleJsonConverter.cs:129 | the least key of a non-empty key set |
| PropertyWriters.Write | Pinja.Examples.Extensibility/PropertyWriter.cs:36-47 | nothing for a null value under IgnoreNullValues; otherwise the member name through the naming policy, then the value |
| Strings.IndexOf | Pinja.Examples.Extensibility/ClassNameBasedTypeDescriptorPolicy.cs:61 | the first ordinal occurrence of the separator, or none exactly when it does not occur |
| Strings.LastIndexOf | Pinja.Examples.Extensibility/ClassNameBasedTypeDescriptorPolicy.cs:74 | the last ordinal occurrence of the separator, or none exactly when it does not occur |
| TopicMappings.GetFullTopic | Pinja.Examples.Events/TopicMappings.cs:83-100 | the loop joins the [Topic] tokens of the class and its ancestors with '.', root first |
| TopicMappings.FullTopicOfDerived | Pinja.Examples.Events/TopicMappings.cs:83-100 | a class with a topic token under a class with a topic has the base's full topic, '.', then its token |
| TopicMappings.Build | Pinja.Examples.Events/TopicMappings.cs:22-38 | the static constructor's loop computes the topic tables |
| TopicMappings.TopicOfScannedType | Pinja.Examples.Events/TopicMappings.cs:24-33 | a class has a topic exactly when it was scanned and derives from Event without being Event, and then it is its full topic |
| TopicMappings.TopicPairsMembers | Pinja.Examples.Events/TopicMappings.cs:26-33 | a scanned class's topic, case-insensitively, maps to the last scanned class with that topic |
| TopicMappings.LastAdmitted | Pinja.Examples.Events/TopicMappings.cs:24-33 | reference definition: the last admitted class with a given folded topic, none exactly when no admitted class has it |
| TopicMappings.TopicTable | Pinja.Examples.Events/TopicMappings.cs:24-33 | the case-insensitive topic table has a key exactly when some admitted class has that folded topic, and maps it to the last such class |
| TopicMappings.GetTopic | Pinja.Examples.Events/TopicMappings.cs:73-81 | a topic exactly when the class is in the class-to-topic table |
| TopicMappings.GetClosestType | Pinja.Examples.Events/TopicMappings.cs:46-66 | ArgumentException for a null or blank topic; otherwise the class of the longest known '.'-prefix, or Event |
| TopicMappings.ClosestTypeOfSubTopic | Pinja.Examples.Events/TopicMappings.cs:53-65 | a known class's topic extended by any number of unknown sub-topic tokens (no intermediate topic mapped) resolves to that class |
| TypeAccessors.Candidates | Pinja.Examples.Extensibility/TypeAccessor.cs:87-93 | exactly the class's properties that are not ignored and pass the filter |
| TypeAccessors.LastNamed | Pinja.Examples.Extensibility/TypeAccessor.cs:95-98 | the property a case-insensitive name ends up bound to: the last candidate with that name, or none exactly when there is none |
| TypeAccessors.TableDescribed | Pinja.Examples.Extensibility/TypeAccessor.cs:84-101 | the accessor table's keys are distinct ignoring case, and every lookup returns the last candidate of that name |
| TypeAccessors.CreatePropertyAccessors | Pinja.Examples.Extensibility/TypeAccessor.cs:84-101 | the loop builds the accessor table |
| TypeAccessors.NewTypeAccessor | Pinja.Examples.Extensibility/TypeAccessor.cs:31-36 | fails with ArgumentNullException exactly when the class has no parameterless constructor (CreateConstructor, lines 108-121); otherwise it is the accessor of the class under the filter |
| TypeAccessors.AccessorTable | Pinja.Examples.Extensibility/TypeAccessor.cs:84-101 | the table has distinct keys, one per case-insensitive candidate name, each naming a candidate, and lookups agree with LastNamed |
| TypeAccessors.EveryCandidateFound | Pinja.Examples.Extensibility/TypeAccessor.cs:95-98 | every candidate's name finds an entry |
| TypeAccessors.FindKey | Pinja.Examples.Extensibility/TypeAccessor.cs:57 | the first table slot whose key equals the name ignoring case, or none exactly when no slot matches |
| TypeAccessors.CreateInstance | Pinja.Examples.Extensibility/TypeAccessor.cs:42-45 | fails exactly for an abstract class; otherwise a fresh instance of the accessor's class with its initial values and no ExtensionData |
| TypeAccessors.ValueEnd | Pinja.Examples.Extensibility/TypeAccessor.cs:62-65 | the end of the value after a member name, a whole JSON value, or the reader's error |
| TypeAccessors.TrySetMember | Pinja.Examples.Extensibility/TypeAccessor.cs:55-67 | an unknown name changes nothing and returns false; a known one stores its value's tokens in its property and moves past it |
| TypeAccessors.GetPropertyWriters | Pinja.Examples.Extensibility/TypeAccessor.cs:76-82 | one writer per table entry, in table order, with that entry's key and property |
| TypeAccessorCaches.TypeAccessorCache.constructor | Pinja.Examples.Extensibility/TypeAccessorCache.cs:12 | the cache starts empty |
| TypeAccessorCaches.TypeAccessorCache.GetTypeAccessor | Pinja.Examples.Extensibility/TypeAccessorCache.cs:20-28 | a cached accessor is returned as is; on a miss a new one is stored; a class without a parameterless constructor fails with ArgumentNullException and nothing is stored; other entries are unchanged |
| TypeAccessorCaches.FirstAccessorWins | Pinja.Examples.Extensibility/TypeAccessorCache.cs:20-28 | the filter of the first successful request for a class decides its accessor for every later request; both requests fail exactly when the class has no parameterless constructor |
| TypeAccessorCaches.CachedAccessorProperties | Pinja.Examples.Extensibility/TypeAccessorCache.cs:20-28 | a cached accessor is for the requested class, with distinct keys naming its properties |
| TypeDescriptorPolicy.GetTypeDescriptor | Pinja.Examples.Extensibility/TypeDescriptorPolicy.cs:47 | a class-name policy describes every class |
| TypeDescriptorPolicy.TryGetParentDescriptor | Pinja.Examples.Extensibility/TypeDescriptorPolicy.cs:55 | dispatches to the policies' code as written: no parent exactly when the separator does not occur; otherwise a strictly shorter one |
| TypeDescriptorPolicy.ParentOfExtended | Pinja.Examples.Extensibility/TypeDescriptorPolicy.cs:55 | root first: the parent of d + separator + token is d |
| TypeDescriptorPolicy.ParentOfPrepended | Pinja.Examples.Extensibility/ClassNameBasedTypeDescriptorPolicy.cs:57-70 | derived first with a one-character separator: the parent of token + separator + d is d |
| TypeDescriptorPolicy.DefaultConfiguration | Pinja.Examples.Extensibility/TypeDescriptorPolicy.cs:14-40 | the default policy: separator ":", root first, metadata member "__type__", no root fallback |
| TypeDescriptorPolicy.EventConfiguration | Pinja.Examples.Events/EvenTypeDescriptorPolicy.cs:8-16 | the event policy: separator ".", root first, descriptor property "Topic", root fallback |
| UnknownValueReader.DecodeValue | Pinja.Examples.Extensibility/ExtensibleJsonConverter.cs:261-293 | a decoded value consumes at least one token and leaves a suffix |
| UnknownValueReader.DecodeObject | Pinja.Examples.Extensibility/ExtensibleJsonConverter.cs:322-339 | the members of a nested object are numbered from its start index in order |
| UnknownValueReader.DecodedValueWellIndexed | Pinja.Examples.Extensibility/ExtensibleJsonConverter.cs:319-338 | every nested object of a decoded value numbers its members 0, 1, 2, … |
| UnknownValueReader.GetExtensionMemberValue | Pinja.Examples.Extensibility/ExtensibleJsonConverter.cs:261-294 | the reader steps compute DecodeValue, errors included |
| UnknownValueReader.CreateList | Pinja.Examples.Extensibility/ExtensibleJsonConverter.cs:296-308 | the list loop computes DecodeList |
| UnknownValueReader.CreateExtensionData | Pinja.Examples.Extensibility/ExtensibleJsonConverter.cs:310-343 | the member loop computes DecodeObject from index 0 |
| UnknownValueRoundTrip.EncodeThenDecodeValue | Pinja.Examples.Extensibility/ExtensibleJsonConverter.cs:345-398 | every well-indexed value written under transparent options reads back as itself, leaving the rest |
| UnknownValueRoundTrip.EncodeThenDecodeMembers | Pinja.Examples.Extensibility/ExtensibleJsonConverter.cs:388-398 | a nested object's members written in order read back as themselves |
| UnknownValueRoundTrip.DecodeThenEncodeValue | Pinja.Examples.Extensibility/ExtensibleJsonConverter.cs:261-293 | comment-free tokens that decode are written back as exactly those tokens |
| UnknownValueRoundTrip.DecodeThenEncodeMembers | Pinja.Examples.Extensibility/ExtensibleJsonConverter.cs:310-343 | the same for the members of a nested object up to its closing brace |
| UnknownValueRoundTrip.NullItemIsNotWritable | Pinja.Examples.Extensibility/ExtensibleJsonConverter.cs:361-370 | [null] is read, but a member holding it cannot be written back |
| UnknownValueRoundTrip.NestedObjectInNestedListIsNotWritable | Pinja.Examples.Extensibility/ExtensibleJsonConverter.cs:361-370 | [[{}]] is read, but a member holding it cannot be written back |
| UnknownValueRoundTrip.CorrectedWriterRoundTrips | Pinja.Examples.Extensibility/ExtensibleJsonConverter.cs:345-398 | the corrected member encoding writes every well-indexed value so that it reads back, those two included |
| UnknownValueWriter.FrameworkSerialize | Pinja.Examples.Extensibility/ExtensibleJsonConverter.cs:383 | the framework writes a scalar or a list of such as its tokens, and NotSupportedException for a nested ExtensionData (System.Text.Json before version 5) |
| UnknownValueWriter.WriteExtensionMember | Pinja.Examples.Extensibility/ExtensibleJsonConverter.cs:345-386 | succeeds exactly when the member is writable, and then writes its encoding |
| UnknownValueWriter.WriteExtensionData | Pinja.Examples.Extensibility/ExtensibleJsonConverter.cs:388-398 | succeeds exactly when every member is writable, and then writes the object's encoding |

## Left out

- Reflection and IL generation are not modelled. This covers `GetTypes`, `GetCustomAttributes`,
  `DynamicMethod` and `MakeGenericType`. A class is a record that lists its base class, `[Topic]`
  token, properties, abstractness, whether it has a parameterless constructor, and the property values its constructor gives. The assemblies a scan visits are a parameter
  (`scanned`, `types`), as are the parameter types of an activator delegate. A discriminator
  selector is a function parameter.
- System.Text.Json's own serialization of declared property values is not modelled. A property
  value is the span of tokens the reader consumed for it. Writing the value puts that span back.
- `Utf8JsonReader.GetDecimal` is a real number. Number formatting is not modelled.
- The naming policy is an optional function on names. `IgnoreNullValues` is a flag.
- Case-insensitive dictionaries (`InvariantCultureIgnoreCase`) compare ASCII letters without
  case. Culture-specific folding is not modelled.
- `ConcurrentDictionary` is modelled as a sequential map. Concurrent callers racing on
  `GetOrAdd` are not modelled.
- ClassNameBasedTypeDescriptorPolicy.TryGetParentDescriptor: requires a non-empty separator. With an empty one, .NET's ordinal `IndexOf` and `LastIndexOf` find a match in every string, so the source never reports a missing parent. Its results then depend on how .NET places an empty match, which the model does not follow.
- TypeDescriptorPolicy.TryGetParentDescriptor: requires a non-empty separator, for the same reason.
- DefaultTypeMappings.ClosestType: requires a non-empty separator. With an empty one, the source's parent walk never runs out of parents: it either repeats a descriptor forever or ends in an out-of-range substring.
- DefaultTypeMappings.TryGetClosestType: requires a non-empty separator, for the same reason.
- UnknownValueWriter.FrameworkSerialize: follows System.Text.Json before version 5 (.NET Core
  3.x), which rejects the `Dictionary<int, ExtensionMember>` inside a nested ExtensionData with
  NotSupportedException. Version 5 and later write its `TypeDescriptor` and `ExtensionMembers`
  properties instead. Neither writes back the `{}` that was read, so Findings row 3 holds on both.
- `TypeDescriptorPolicy.Default`'s doc comment says the default hierarchy mode is derived first.
  The code builds it root first (`AbstractFirst`), with ":" and full names. The model follows the
  code (`TypeDescriptorPolicy.DefaultConfiguration`).
- ExtensibleJsonConverterRoundTrip.ObjectRoundTrip: weaker than the unit test. It assumes:
  - the payload's first member is the descriptor;
  - the options are transparent (no naming policy, no null skipping);
  - the payload is laid out as the writer lays it out, so it carries no comment tokens;
  - the declared values are stored spans that the framework writes back unchanged.
- The handler layer is not part of this model. This covers `MessageHandlerFactory`,
  `GameEventHandlerFactory`, the handlers and DI wiring (`ServiceCollectionExtensions`).
- `ConstantInvariantTimeSpanJsonConverter` and `VersionConverter` are not part of this model.
- UnknownValueWriter.WriteExtensionData: a nested ExtensionData is modelled as a sequence of
  members in position order, as the reader numbers them. The source sorts the nested dictionary
  by key when writing it. The two agree on every value the reader produces. Nested dictionaries
  that a caller edits, with keys out of order or missing, are not modelled.
- `PropertyAccessor` and `SerializationHelpers.CreateConstructor` build getters, setters and
  constructors by IL. A property is modelled by its stored value. A constructor is modelled by
  the values it gives (`ClrType.initializes`, nearest class first) and by whether it exists.
  Constructor bodies with other effects, such as `Vote`'s new `VoteEntries` list, are not modelled.
- TypeAccessors.CreateInstance: the failure for an abstract class is labelled
  InvalidOperationException. The model does not follow which exception type the runtime raises
  when the delegate's `newobj` names an abstract class; it only says that the call fails and
  nothing is returned.
- A getter that computes a value on first read (`Event.Topic`) is modelled as the value a new
  instance reads. Its later caching in `_topic` is modelled separately (`Events.Event`).
- `UserEvent.cs` is not part of this model. `UserEvent` is taken to derive from `Event` with
  `[Topic("User")]`, as the unit test's expected topic "User.Session.Timeout" requires.
- The `Timestamp`, `UserId`, `SessionId` and `Timeout` properties of the events are left out of
  `EventFixtures`. They play no part in topics.

## Findings

| source | as written | input that shows it | evidently intended | confidence | as-written member | corrected member |
|---|---|---|---|---|---|---|
| Pinja.Examples.Extensibility/ClassNameBasedTypeDescriptorPolicy.cs:68-69 | derived first, the parent starts one character after the separator's first index | separator "::", descriptor "B::A": parent ":A" | the parent starts after the whole separator ("A"), so it is the base class's descriptor | not executed | ClassNameBasedTypeDescriptorPolicy.AsWrittenKeepsSeparatorTail | ClassNameBasedTypeDescriptorPolicy.ParentOfDescriptorIsBaseDescriptor |
| Pinja.Examples.Extensibility/ExtensibleJsonConverter.cs:361-370 | a list item that is not ExtensionData goes to `JsonSerializer.Serialize(item, item.GetType())` | an unknown member `"m":[null]` is read as a list holding null; writing it calls GetType on null | a null item is written as null, so what was read is written back | not executed | UnknownValueRoundTrip.NullItemIsNotWritable | UnknownValueRoundTrip.CorrectedWriterRoundTrips |
| Pinja.Examples.Extensibility/ExtensibleJsonConverter.cs:363-370 | only direct list items are checked for ExtensionData; an inner list goes to the framework serializer whole | an unknown member `"m":[[{}]]`: the inner object is ExtensionData, which the framework does not write back as `{}` | nested lists are written item by item as the reader built them | not executed | UnknownValueRoundTrip.NestedObjectInNestedListIsNotWritable | UnknownValueRoundTrip.CorrectedWriterRoundTrips |
| Pinja.Examples.Extensibility/ExtensibleJsonConverter.cs:229-237 | in property mode, members are numbered from 1 only when the payload carried the descriptor, but Write always writes the descriptor first and resumes at 1 | an event payload `{"Monitor":"x"}` without "Topic": "Monitor" is stored under 0 and is never written back | members are numbered from 1 in property mode, as the writer counts them | not executed | ExtensibleJsonConverterRoundTrip.FirstMemberLostAsWritten | ExtensibleJsonConverterRoundTrip.FirstMemberKept |

The descriptor mappings and the converter's Read follow the code as written for rows 1 and 4
(`TypeDescriptorPolicy.TryGetParentDescriptor` dispatches to `TryGetParentDescriptorAsWritten`;
`ReadSpec` numbers members from `StartIndexAsWritten`). The corrected definitions
(`ClassNameBasedTypeDescriptorPolicy.TryGetParentDescriptor`, `StartIndex` through
`ReadSpecFrom`) stand beside them with the intended properties proved.
