/**
 * ExtensibleJsonConverterFactory: the registry of type mappings by root class, filled from
 * the mappings it is given and on demand with the default policy, and the cache of converter
 * constructors by converted class. Concurrent callers are not modelled: calls happen one
 * after another.
 */
module ExtensibleJsonConverterFactories {
  import opened Wrappers
  import opened ClrTypes
  import opened TypeDescriptorPolicy
  import opened DefaultTypeMappings
  import opened ExtensibleJsonConverters

  /**
   * The compiled constructor of ExtensibleJsonConverter<T> for one T; calling it with a
   * registry runs the converter's constructor.
   */
  datatype ConverterConstructor = ConverterConstructor(converts: ClrType)

  function Invoke(ctor: ConverterConstructor, mappings: Registry): Result<Converter>
  {
    NewConverter(ctor.converts, mappings)
  }

  /** The constructor's loop: each mapping stored under its root class, a later one replacing an earlier one. */
  function Registrations(ms: seq<Registry>): (r: map<ClrType, Registry>)
    ensures forall k :: k in r ==> r[k].root == k
  {
    if ms == [] then map[]
    else Registrations(ms[..|ms| - 1])[ms[|ms| - 1].root := ms[|ms| - 1]]
  }

  /** A root class is registered exactly when one of the mappings is for it. */
  lemma {:induction false} RegisteredRoots(ms: seq<Registry>, k: ClrType)
    ensures k in Registrations(ms) <==> exists i :: 0 <= i < |ms| && ms[i].root == k
  {
    if ms != [] {
      var init := ms[..|ms| - 1];
      RegisteredRoots(init, k);
      if k in Registrations(init) {
        var i :| 0 <= i < |init| && init[i].root == k;
        assert ms[i] == init[i];
      }
      forall i | 0 <= i < |ms| - 1 && ms[i].root == k
        ensures k in Registrations(init)
      {
        assert init[i] == ms[i];
      }
    }
  }

  /** The mapping registered for a root is the last one given for it. */
  lemma {:induction false} LastRegistrationWins(ms: seq<Registry>, i: nat)
    requires i < |ms|
    requires forall j :: i < j < |ms| ==> ms[j].root != ms[i].root
    ensures ms[i].root in Registrations(ms) && Registrations(ms)[ms[i].root] == ms[i]
  {
    if i < |ms| - 1 {
      var init := ms[..|ms| - 1];
      forall j | i < j < |init|
        ensures init[j].root != init[i].root
      {
        assert init[j] == ms[j];
      }
      LastRegistrationWins(init, i);
      assert init[i] == ms[i];
    }
  }

  /** CanConvert: the class implements IExtensible, itself or through an ancestor. */
  predicate CanConvert(t: ClrType)
  {
    ImplementsExtensible(t)
  }

  /** Every class derived from a convertible class is convertible too. */
  lemma {:induction false} CanConvertInherited(b: ClrType, t: ClrType)
    requires IsAssignableFrom(b, t) && CanConvert(b)
    ensures CanConvert(t)
    decreases t
  {
    if t != b {
      var p := t.baseType.value;
      assert Bases(t) == [p] + Bases(p);
      CanConvertInherited(b, p);
    }
  }

  /**
   * The registry CreateConverter hands to the converter for the root class: the registered
   * one, or the one the default policy builds from the scanned types.
   */
  function RegistryFor(registered: map<ClrType, Registry>, defaultPolicy: Policy, root: ClrType, scanned: seq<ClrType>): Result<Registry>
  {
    if root in registered then Ok(registered[root]) else Scan(root, defaultPolicy, scanned)
  }

  /**
   * What CreateConverter returns or throws for typeToConvert, given the registrations before the
   * call. MakeGenericType rejects a class that breaks the converter's IExtensible constraint
   * with ArgumentException before anything else happens.
   */
  function CreatedConverter(registered: map<ClrType, Registry>, defaultPolicy: Policy, t: ClrType, scanned: seq<ClrType>): Result<Converter>
  {
    if !CanConvert(t) then Err(ArgumentException)
    else match ExtensionDataDeclarer(t)
    case None => Err(ArgumentException)
    case Some(root) =>
      match RegistryFor(registered, defaultPolicy, root, scanned)
      case Err(e) => Err(e)
      case Ok(mappings) => NewConverter(t, mappings)
  }

  /** The registrations after CreateConverter: a registry built on a miss is stored under its root. */
  function RegistrationsAfter(registered: map<ClrType, Registry>, defaultPolicy: Policy, t: ClrType, scanned: seq<ClrType>): map<ClrType, Registry>
  {
    if !CanConvert(t) then registered
    else match ExtensionDataDeclarer(t)
    case None => registered
    case Some(root) =>
      if root in registered then registered
      else match Scan(root, defaultPolicy, scanned)
        case Err(_) => registered
        case Ok(mappings) => registered[root := mappings]
  }

  /**
   * A class that does not implement IExtensible, or has no ExtensionData property of type
   * ExtensionData, is rejected; otherwise the converter converts the class itself and uses the
   * registry of the class that declares ExtensionData, unchanged when it was registered.
   */
  lemma CreatedConverterUsesDeclarer(registered: map<ClrType, Registry>, defaultPolicy: Policy, t: ClrType, scanned: seq<ClrType>)
    requires forall k :: k in registered ==> registered[k].root == k
    ensures !CanConvert(t) || ExtensionDataDeclarer(t).None? ==> CreatedConverter(registered, defaultPolicy, t, scanned) == Err(ArgumentException)
    ensures CreatedConverter(registered, defaultPolicy, t, scanned).Ok? ==>
      && CanConvert(t) && ExtensionDataDeclarer(t).Some?
      && CreatedConverter(registered, defaultPolicy, t, scanned).value.root == t
      && CreatedConverter(registered, defaultPolicy, t, scanned).value.mappings.root == ExtensionDataDeclarer(t).value
      && IsAssignableFrom(CreatedConverter(registered, defaultPolicy, t, scanned).value.mappings.root, t)
    ensures CanConvert(t) && ExtensionDataDeclarer(t).Some? && ExtensionDataDeclarer(t).value in registered ==>
      CreatedConverter(registered, defaultPolicy, t, scanned) == NewConverter(t, registered[ExtensionDataDeclarer(t).value])
  {
  }

  /**
   * After CreateConverter, the registry the call used is the one stored for the root class, so
   * a later call for any class with the same root uses it whatever the scan would now find.
   */
  lemma RegistryCachedAfterCreate(registered: map<ClrType, Registry>, defaultPolicy: Policy, t: ClrType, scanned: seq<ClrType>, u: ClrType, later: seq<ClrType>)
    requires CreatedConverter(registered, defaultPolicy, t, scanned).Ok?
    requires ExtensionDataDeclarer(u) == ExtensionDataDeclarer(t)
    ensures CreatedConverter(RegistrationsAfter(registered, defaultPolicy, t, scanned), defaultPolicy, u, later)
         == if CanConvert(u) then NewConverter(u, CreatedConverter(registered, defaultPolicy, t, scanned).value.mappings)
            else Err(ArgumentException)
  {
  }

  class ExtensibleJsonConverterFactory {
    const defaultTypeDescriptor: Policy
    /** _allTypeMappings: root class to its registry. */
    var allTypeMappings: map<ClrType, Registry>
    /** _constructors: the compiled converter constructor, keyed by the class it converts. */
    var constructors: map<ClrType, ConverterConstructor>

    /** Every registry is stored under its own root, and every constructor under the class it converts. */
    ghost predicate Valid()
      reads this
    {
      && (forall k :: k in allTypeMappings ==> allTypeMappings[k].root == k)
      && (forall k :: k in constructors ==> constructors[k].converts == k)
    }

    /** The constructor: registers each mapping under its root; the last one for a root wins. */
    constructor (typeMappings: seq<Registry>, defaultTypeDescriptor: Policy)
      ensures this.defaultTypeDescriptor == defaultTypeDescriptor
      ensures allTypeMappings == Registrations(typeMappings) && constructors == map[]
      ensures Valid()
    {
      this.defaultTypeDescriptor := defaultTypeDescriptor;
      constructors := map[];
      var registered: map<ClrType, Registry> := map[];
      for i := 0 to |typeMappings|
        invariant registered == Registrations(typeMappings[..i])
      {
        assert typeMappings[..i + 1][..i] == typeMappings[..i];
        registered := registered[typeMappings[i].root := typeMappings[i]];
      }
      assert typeMappings[..|typeMappings|] == typeMappings;
      allTypeMappings := registered;
    }

    /** GetConstructor: the cached constructor for the class, or a new one, stored; the first stored wins. */
    method GetConstructor(t: ClrType) returns (ctor: ConverterConstructor)
      requires Valid()
      modifies this
      ensures Valid()
      ensures ctor.converts == t
      ensures t in old(constructors) ==> ctor == old(constructors)[t]
      ensures constructors == old(constructors)[t := ctor]
      ensures allTypeMappings == old(allTypeMappings)
    {
      if t in constructors {
        ctor := constructors[t];
        assert constructors == constructors[t := ctor];
        return;
      }
      ctor := ConverterConstructor(t);
      constructors := constructors[t := ctor];
    }

    /**
     * CreateConverter: a class that does not implement IExtensible cannot close the converter's
     * generic type and throws ArgumentException with nothing cached. Otherwise the constructor
     * for the class is cached first (even when the call then throws); a class without
     * ExtensionData throws ArgumentException; a root without a registry gets one built with the
     * default policy from the scanned types, which is stored.
     */
    method CreateConverter(t: ClrType, scanned: seq<ClrType>) returns (r: Result<Converter>)
      requires Valid()
      modifies this
      ensures Valid()
      ensures r == CreatedConverter(old(allTypeMappings), defaultTypeDescriptor, t, scanned)
      ensures allTypeMappings == RegistrationsAfter(old(allTypeMappings), defaultTypeDescriptor, t, scanned)
      ensures !ImplementsExtensible(t) ==> constructors == old(constructors)
      ensures ImplementsExtensible(t) ==> t in constructors && constructors.Keys == old(constructors).Keys + {t}
    {
      if !ImplementsExtensible(t) {
        return Err(ArgumentException);
      }
      var ctor := GetConstructor(t);
      var rootType := ExtensionDataDeclarer(t);
      if rootType.None? {
        return Err(ArgumentException);
      }
      var root := rootType.value;
      var typeMappings: Registry;
      if root in allTypeMappings {
        typeMappings := allTypeMappings[root];
      } else {
        var built := Build(root, defaultTypeDescriptor, scanned);
        if built.Err? {
          return Err(built.error);
        }
        typeMappings := built.value;
        allTypeMappings := allTypeMappings[root := typeMappings];
      }
      r := Invoke(ctor, typeMappings);
    }
  }

  /**
   * Two calls for classes with the same root: the second uses the registry the first built,
   * even when the scan it is given would now build another.
   */
  method SecondCallReusesRegistry(f: ExtensibleJsonConverterFactory, t: ClrType, u: ClrType, first: seq<ClrType>, second: seq<ClrType>)
    returns (a: Result<Converter>, b: Result<Converter>)
    requires f.Valid() && ExtensionDataDeclarer(u) == ExtensionDataDeclarer(t)
    modifies f
    ensures a.Ok? ==> b == if CanConvert(u) then NewConverter(u, a.value.mappings) else Err(ArgumentException)
  {
    a := f.CreateConverter(t, first);
    if a.Ok? {
      RegistryCachedAfterCreate(old(f.allTypeMappings), f.defaultTypeDescriptor, t, first, u, second);
    }
    b := f.CreateConverter(u, second);
  }
}
