/**
 * ExtensibleJsonConverter<TExtensible>: its configuration (the class it converts, the type
 * mappings, and the descriptor property when the descriptor is not metadata), the property
 * filter it hands to the accessor cache, and the state of an instance as the codec sees it.
 */
module ExtensibleJsonConverters {
  import opened Wrappers
  import opened JsonTokens
  import opened ClrTypes
  import opened ExtensionMembers
  import opened ExtensionDataStore
  import opened ExtensibleObjects
  import opened TypeDescriptorPolicy
  import opened DefaultTypeMappings
  import opened TypeAccessors

  /**
   * A converter: root is TExtensible, the class the converter was made for; descriptorProperty
   * is the property the constructor looked up when the policy's descriptor is not metadata.
   */
  datatype Converter = Converter(root: ClrType, mappings: Registry, descriptorProperty: Option<PropertyInfo>)

  /**
   * The constructor. When the descriptor is a property, it looks the property up on TExtensible
   * by its exact name; a class without it makes the property accessor dereference null.
   */
  function NewConverter(root: ClrType, mappings: Registry): (r: Result<Converter>)
    ensures r.Err? <==> !IsTypeDescriptorMetaData(mappings.policy)
                        && forall p :: p in AllProperties(root) ==> p.name != TypeDescriptorPropertyName(mappings.policy)
    ensures r.Err? ==> r.error == NullReferenceException
    ensures r.Ok? ==> r.value.root == root && r.value.mappings == mappings
    ensures r.Ok? ==> (r.value.descriptorProperty.None? <==> IsTypeDescriptorMetaData(mappings.policy))
    ensures r.Ok? && r.value.descriptorProperty.Some? ==>
      r.value.descriptorProperty.value in AllProperties(root)
      && r.value.descriptorProperty.value.name == TypeDescriptorPropertyName(mappings.policy)
    ensures r.Ok? ==> WellFormed(r.value)
  {
    if IsTypeDescriptorMetaData(mappings.policy) then Ok(Converter(root, mappings, None))
    else match GetProperty(root, TypeDescriptorPropertyName(mappings.policy))
      case None => Err(NullReferenceException)
      case Some(p) => Ok(Converter(root, mappings, Some(p)))
  }

  /**
   * Converter state every constructed converter has: the descriptor property belongs to
   * TExtensible and carries the policy's descriptor member name.
   */
  predicate WellFormed(conv: Converter)
  {
    conv.descriptorProperty.Some? ==>
      && conv.descriptorProperty.value in AllProperties(conv.root)
      && conv.descriptorProperty.value.name == DescriptorMember(conv)
  }

  /** CanConvert: the class is TExtensible or derives from it. */
  predicate CanConvert(conv: Converter, t: ClrType)
  {
    IsAssignableFrom(conv.root, t)
  }

  /** GetTypeDescriptorMember: the policy's descriptor member name. */
  function DescriptorMember(conv: Converter): string
  {
    TypeDescriptorPropertyName(conv.mappings.policy)
  }

  /** The ExtensionData property every extensible class has: (name, property type). */
  const ExtensionDataPair := ("ExtensionData", ExtensionDataTypeName)

  /**
   * GetPropertyFilter: a property takes part in the table unless it is the ExtensionData
   * property or, when the descriptor is a property, a property with the descriptor property's
   * name and type.
   */
  function GetPropertyFilter(conv: Converter): (r: PropertyFilter)
    ensures forall p :: Passes(Some(r), p) <==>
      && !(p.name == "ExtensionData" && p.propertyType == ExtensionDataTypeName)
      && (conv.descriptorProperty.Some? ==>
            !(p.name == conv.descriptorProperty.value.name
              && p.propertyType == conv.descriptorProperty.value.propertyType))
  {
    match conv.descriptorProperty
    case None => PropertyFilter([ExtensionDataPair])
    case Some(d) => PropertyFilter([ExtensionDataPair, (d.name, d.propertyType)])
  }

  /** The unknown-member store of an instance: its TypeDescriptor and its members by key. */
  datatype DataState = DataState(typeDescriptor: Option<string>, members: map<int, ExtensionMember>)

  /** An instance as the codec reads and writes it; data is None when ExtensionData is null. */
  datatype ObjectState = ObjectState(runtimeType: ClrType, values: map<PropertyInfo, seq<Token>>, data: Option<DataState>)

  function StateOf(obj: ExtensibleObject): ObjectState
    reads obj, obj.extensionData
  {
    ObjectState(obj.runtimeType, obj.values,
      if obj.extensionData == null then None
      else Some(DataState(obj.extensionData.typeDescriptor, obj.extensionData.extensionMembers)))
  }

  /** The members the writer consults: none when ExtensionData is null. */
  function MembersOf(s: ObjectState): map<int, ExtensionMember>
  {
    if s.data.Some? then s.data.value.members else map[]
  }
}
