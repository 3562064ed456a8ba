/**
 * Runtime types as explicit records: what the modelled code learns from reflection
 * (names, base type, [Topic] token, public instance properties and their ignore attributes)
 * is carried by the record instead of being looked up.
 */
module ClrTypes {
  import opened Wrappers
  import opened JsonTokens

  /** Full name of the ExtensionData class, the type of IExtensible.ExtensionData. */
  const ExtensionDataTypeName := "Pinja.Examples.Extensibility.ExtensionData"

  /** A public instance property. */
  datatype PropertyInfo = PropertyInfo(
    name: string,
    propertyType: string,     // full name of the property's type
    nonSerialized: bool,      // carries [NonSerialized]
    jsonIgnore: bool,         // carries [JsonIgnore]
    initial: seq<Token>)      // the value a new instance holds, as the serializer writes it

  /** A class. Its base is None only for System.Object itself (and interfaces). */
  datatype ClrType = ClrType(
    name: string,
    ns: string,
    fullName: string,
    genericArgs: seq<ClrType>,          // non-empty exactly for a constructed generic type
    baseType: Option<ClrType>,
    topic: Option<string>,              // [Topic(token)] declared on this class itself
    declaredProperties: seq<PropertyInfo>,
    declaresExtensible: bool,           // lists IExtensible among its own interfaces
    parameterless: bool,                // has an instance constructor without parameters, of any visibility
    isAbstract: bool,
    initializes: map<string, seq<Token>>)  // what a new instance of this very class reads for these properties

  const ObjectType := ClrType("Object", "System", "System.Object", [], None, None, [], false, true, false, map[])

  predicate IsGenericType(t: ClrType)
  {
    |t.genericArgs| > 0
  }

  /** Every strict ancestor of t, nearest first (System.Object included when it is reached). */
  function Bases(t: ClrType): (r: seq<ClrType>)
    ensures t.baseType.None? <==> r == []
    ensures t.baseType.Some? ==> r[0] == t.baseType.value
  {
    match t.baseType
    case None => []
    case Some(b) => [b] + Bases(b)
  }

  /**
   * The ancestors a descriptor builder visits: t's base, its base, and so on, stopping at
   * System.Object or at the end of the chain.
   */
  function ChainAbove(t: ClrType): (r: seq<ClrType>)
    ensures ObjectType !in r
    ensures |r| <= |Bases(t)| && r == Bases(t)[..|r|]
  {
    match t.baseType
    case None => []
    case Some(b) => if b == ObjectType then [] else [b] + ChainAbove(b)
  }

  /** Type.IsAssignableFrom for classes: target is t or one of its ancestors. */
  predicate IsAssignableFrom(target: ClrType, t: ClrType)
  {
    t == target || target in Bases(t)
  }

  /** typeof(IExtensible).IsAssignableFrom(t): t or an ancestor implements IExtensible. */
  predicate ImplementsExtensible(t: ClrType)
  {
    t.declaresExtensible || exists b :: b in Bases(t) && b.declaresExtensible
  }

  /**
   * The value a property named name has in a new instance, looked up along a class and its
   * ancestors, nearest first: the first class that assigns it decides. A base constructor runs
   * before the derived one, so the most derived assignment is the one that remains; a getter
   * that computes its value from GetType() (Event.Topic) gives each class its own value too.
   */
  function AssignedValue(lineage: seq<ClrType>, name: string): (r: Option<seq<Token>>)
    ensures r.None? <==> forall i :: 0 <= i < |lineage| ==> name !in lineage[i].initializes
    ensures r.Some? ==> exists i :: 0 <= i < |lineage| && name in lineage[i].initializes && r.value == lineage[i].initializes[name]
                          && forall j :: 0 <= j < i ==> name !in lineage[j].initializes
  {
    if lineage == [] then None
    else if name in lineage[0].initializes then Some(lineage[0].initializes[name])
    else
      var r := AssignedValue(lineage[1..], name);
      assert forall i :: 1 <= i < |lineage| ==> lineage[1..][i - 1] == lineage[i];
      r
  }

  /** Type.GetProperties: the declared properties of t, then those of its ancestors. */
  function AllProperties(t: ClrType): (r: seq<PropertyInfo>)
    ensures forall p :: p in t.declaredProperties ==> p in r
    ensures t.baseType.Some? ==> forall p :: p in AllProperties(t.baseType.value) ==> p in r
  {
    t.declaredProperties + match t.baseType case None => [] case Some(b) => AllProperties(b)
  }

  /** A class has every public property of each class it is assignable to: GetProperties includes inherited ones. */
  lemma {:induction false} InheritedProperties(target: ClrType, t: ClrType)
    requires IsAssignableFrom(target, t)
    ensures forall p :: p in AllProperties(target) ==> p in AllProperties(t)
    decreases t
  {
    if t != target {
      var b := t.baseType.value;
      assert Bases(t) == [b] + Bases(b);
      InheritedProperties(target, b);
    }
  }

  /** Type.GetProperty(name): the first public property of that exact name. */
  function GetProperty(t: ClrType, name: string): (r: Option<PropertyInfo>)
    ensures r.Some? ==> r.value in AllProperties(t) && r.value.name == name
    ensures r.None? ==> forall p :: p in AllProperties(t) ==> p.name != name
  {
    FirstNamed(AllProperties(t), name)
  }

  function FirstNamed(ps: seq<PropertyInfo>, name: string): (r: Option<PropertyInfo>)
    ensures r.Some? ==> r.value in ps && r.value.name == name
    ensures r.None? ==> forall p :: p in ps ==> p.name != name
  {
    if ps == [] then None
    else if ps[0].name == name then Some(ps[0])
    else FirstNamed(ps[1..], name)
  }

  /** The declared ExtensionData property of type ExtensionData, if t declares one itself. */
  predicate DeclaresExtensionData(t: ClrType)
  {
    exists p :: p in t.declaredProperties && p.name == "ExtensionData" && p.propertyType == ExtensionDataTypeName
  }

  /**
   * Type.GetProperty("ExtensionData", typeof(ExtensionData))?.DeclaringType: the nearest of
   * t and its ancestors that declares that property.
   */
  function ExtensionDataDeclarer(t: ClrType): (r: Option<ClrType>)
    ensures r.Some? ==> IsAssignableFrom(r.value, t) && DeclaresExtensionData(r.value)
    ensures r.None? ==> !DeclaresExtensionData(t) && forall b :: b in Bases(t) ==> !DeclaresExtensionData(b)
  {
    if DeclaresExtensionData(t) then Some(t)
    else match t.baseType
      case None => None
      case Some(b) => ExtensionDataDeclarer(b)
  }

  /**
   * The declarer is the nearest: of t and its ancestors, nearest first, it is the first one
   * that declares the ExtensionData property.
   */
  lemma {:induction false} DeclarerIsNearest(t: ClrType)
    ensures ExtensionDataDeclarer(t).Some? ==>
      exists i :: 0 <= i < |[t] + Bases(t)| && ([t] + Bases(t))[i] == ExtensionDataDeclarer(t).value
        && forall j :: 0 <= j < i ==> !DeclaresExtensionData(([t] + Bases(t))[j])
    decreases t
  {
    var lineage := [t] + Bases(t);
    if DeclaresExtensionData(t) {
      assert lineage[0] == t;
    } else if t.baseType.Some? {
      var b := t.baseType.value;
      DeclarerIsNearest(b);
      if ExtensionDataDeclarer(b).Some? {
        var above := [b] + Bases(b);
        var i :| 0 <= i < |above| && above[i] == ExtensionDataDeclarer(b).value
                 && forall j :: 0 <= j < i ==> !DeclaresExtensionData(above[j]);
        assert lineage == [t] + above;
        forall j | 0 <= j < i + 1 ensures !DeclaresExtensionData(lineage[j]) {
          if j > 0 {
            assert lineage[j] == above[j - 1];
          }
        }
        assert lineage[i + 1] == above[i];
      }
    }
  }
}
