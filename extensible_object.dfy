/**
 * An instance of an extensible class (IExtensible): its runtime class, the values of its
 * public properties, and the ExtensionData reference the converter attaches on read.
 *
 * A declared property's value is kept as the tokens the framework serializer reads and writes
 * for it; the codec copies those tokens and never looks inside them.
 */
module ExtensibleObjects {
  import opened Wrappers
  import opened JsonTokens
  import opened ClrTypes
  import opened ExtensionMembers
  import opened ExtensionDataStore

  /**
   * The value a property has in a new instance of t: the nearest assignment along t and its
   * ancestors, else the property's own default.
   */
  function InitialValue(t: ClrType, p: PropertyInfo): seq<Token>
  {
    match AssignedValue([t] + Bases(t), p.name)
    case Some(v) => v
    case None => p.initial
  }

  /**
   * The property values of a new instance of t. Every property has one. A property t's own
   * constructor sets has that value; any other one keeps the value the base class's
   * constructor leaves it with, and a property nobody sets keeps its default.
   */
  function InitialValues(t: ClrType): (r: map<PropertyInfo, seq<Token>>)
    ensures forall p :: p in r <==> p in AllProperties(t)
    ensures forall p :: p in r && p.name in t.initializes ==> r[p] == t.initializes[p.name]
    ensures t.baseType.Some? ==>
      forall p :: p in r && p.name !in t.initializes && p in AllProperties(t.baseType.value) ==>
        r[p] == InitialValues(t.baseType.value)[p]
    ensures forall p :: p in r && (forall c :: c in [t] + Bases(t) ==> p.name !in c.initializes) ==> r[p] == p.initial
  {
    assert t.baseType.Some? ==> ([t] + Bases(t))[1..] == [t.baseType.value] + Bases(t.baseType.value);
    map p | p in AllProperties(t) :: InitialValue(t, p)
  }

  class ExtensibleObject {
    /** GetType(): the class the instance was created as. */
    const runtimeType: ClrType
    /** The value of every public property, by property. */
    var values: map<PropertyInfo, seq<Token>>
    /** The ExtensionData property; null until the converter attaches one. */
    var extensionData: ExtensionData?

    /** Every property of the runtime class has a value. */
    ghost predicate Valid()
      reads this
    {
      forall p :: p in AllProperties(runtimeType) ==> p in values
    }

    /** The parameterless constructor that TypeAccessor.CreateInstance calls. */
    constructor (t: ClrType)
      requires t.parameterless && !t.isAbstract
      ensures runtimeType == t && values == InitialValues(t) && extensionData == null
      ensures Valid()
    {
      runtimeType := t;
      values := InitialValues(t);
      extensionData := null;
    }
  }
}
