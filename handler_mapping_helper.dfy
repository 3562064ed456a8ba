/**
 * HandlerMappingHelper: the registries of the convention-based handler factories, built by
 * scanning the types of an assembly for implementations of a handler interface and reading a
 * discriminator from their attributes. A dictionary is modelled as its entries in insertion
 * order, which is the order in which it is later enumerated.
 */
module HandlerMappingHelper {
  import opened Wrappers

  /**
   * A scanned type: its full name, whether it implements the handler interface, its own
   * attributes of the attribute class (GetCustomAttributes(attributeType, false)), and the
   * parameter types of each of its public constructors.
   */
  datatype HandlerType<A> = HandlerType(
    fullName: string,
    implementsInterface: bool,
    attributes: seq<A>,
    constructors: seq<seq<string>>)

  /** A compiled activator: calls the constructor of implementation with these parameter types. */
  datatype Activator = Activator(implementation: string, parameterTypes: seq<string>)

  /** Entries of a dictionary have pairwise different keys. */
  predicate UniqueKeys<K(==), V>(entries: seq<(K, V)>)
  {
    forall i, j :: 0 <= i < j < |entries| ==> entries[i].0 != entries[j].0
  }

  predicate HasKey<K(==), V>(entries: seq<(K, V)>, k: K)
  {
    exists i :: 0 <= i < |entries| && entries[i].0 == k
  }

  /** A prefix of the entries that already repeats a key makes the whole sequence repeat it. */
  lemma RepeatedKeyPersists<K, V>(entries: seq<(K, V)>, n: nat)
    requires n <= |entries| && !UniqueKeys(entries[..n])
    ensures !UniqueKeys(entries)
  {
    var i, j :| 0 <= i < j < n && entries[..n][i].0 == entries[..n][j].0;
    assert entries[i] == entries[..n][i] && entries[j] == entries[..n][j];
  }

  /** Appending an entry with a new key keeps the keys unique. */
  lemma AppendNewKey<K, V>(entries: seq<(K, V)>, e: (K, V))
    requires UniqueKeys(entries) && !HasKey(entries, e.0)
    ensures UniqueKeys(entries + [e])
  {
    forall i, j | 0 <= i < j < |entries| + 1
      ensures (entries + [e])[i].0 != (entries + [e])[j].0
    {
      if j == |entries| {
        assert (entries + [e])[i] == entries[i];
      } else {
        assert (entries + [e])[i] == entries[i] && (entries + [e])[j] == entries[j];
      }
    }
  }

  /** Appending an entry whose key is already present repeats a key. */
  lemma AppendOldKey<K, V>(entries: seq<(K, V)>, e: (K, V))
    requires HasKey(entries, e.0)
    ensures !UniqueKeys(entries + [e])
  {
    var i :| 0 <= i < |entries| && entries[i].0 == e.0;
    assert (entries + [e])[i] == entries[i] && (entries + [e])[|entries|] == e;
  }

  // ---------------------------------------------------------------------------------------
  // CreateMappings

  /** The type is an implementation that carries the attribute. */
  predicate Attributed<A>(t: HandlerType<A>)
  {
    t.implementsInterface && |t.attributes| > 0
  }

  /**
   * Reference definition: (type, discriminator of its first attribute) for every
   * implementation that carries the attribute, in scan order.
   */
  function AttributedEntries<A, D>(types: seq<HandlerType<A>>, select: A -> D): (r: seq<(HandlerType<A>, D)>)
    ensures |r| <= |types|
  {
    if types == [] then []
    else
      var t := types[|types| - 1];
      AttributedEntries(types[..|types| - 1], select) + if Attributed(t) then [(t, select(t.attributes[0]))] else []
  }

  /** The entries are exactly the attributed implementations, each with its first attribute's discriminator. */
  lemma {:induction false} AttributedEntriesMembers<A, D>(types: seq<HandlerType<A>>, select: A -> D, t: HandlerType<A>, d: D)
    ensures (t, d) in AttributedEntries(types, select) <==> t in types && Attributed(t) && d == select(t.attributes[0])
  {
    if types != [] {
      var init := types[..|types| - 1];
      AttributedEntriesMembers(init, select, t, d);
      assert types == init + [types[|types| - 1]];
    }
  }

  /** The entries of a prefix of the scan are a prefix of the entries of the whole scan. */
  lemma {:induction false} AttributedEntriesPrefix<A, D>(types: seq<HandlerType<A>>, select: A -> D, n: nat)
    requires n <= |types|
    ensures AttributedEntries(types[..n], select) <= AttributedEntries(types, select)
    decreases |types|
  {
    if n < |types| {
      var init := types[..|types| - 1];
      assert init[..n] == types[..n];
      AttributedEntriesPrefix(init, select, n);
    } else {
      assert types[..n] == types;
    }
  }

  /** CreateMappings succeeds unless an implementation would be added twice. */
  function Mappings<A(==), D>(types: seq<HandlerType<A>>, select: A -> D): Result<seq<(HandlerType<A>, D)>>
  {
    if UniqueKeys(AttributedEntries(types, select)) then Ok(AttributedEntries(types, select))
    else Err(InvalidOperationException)
  }

  /**
   * CreateMappings: scans the implementations; one without the attribute is skipped, one with
   * it is added with its first attribute's discriminator, and a type already added throws
   * InvalidOperationException.
   */
  method CreateMappings<A(==), D>(types: seq<HandlerType<A>>, select: A -> D) returns (r: Result<seq<(HandlerType<A>, D)>>)
    ensures r == Mappings(types, select)
  {
    var mappings: seq<(HandlerType<A>, D)> := [];
    for i := 0 to |types|
      invariant mappings == AttributedEntries(types[..i], select) && UniqueKeys(mappings)
    {
      var candidate := types[i];
      assert types[..i + 1][..i] == types[..i];
      if !candidate.implementsInterface {
        continue;
      }
      if |candidate.attributes| == 0 {
        continue;
      }
      var entry := (candidate, select(candidate.attributes[0]));
      if HasKey(mappings, candidate) {
        AppendOldKey(mappings, entry);
        AttributedEntriesPrefix(types, select, i + 1);
        assert AttributedEntries(types, select)[..|mappings| + 1] == mappings + [entry];
        RepeatedKeyPersists(AttributedEntries(types, select), |mappings| + 1);
        return Err(InvalidOperationException);
      }
      AppendNewKey(mappings, entry);
      mappings := mappings + [entry];
    }
    assert types[..|types|] == types;
    r := Ok(mappings);
  }

  // ---------------------------------------------------------------------------------------
  // CreateMultiAttributeMappings

  /** Reference definition: every implementation with the discriminators of all its attributes (possibly none). */
  function ImplementationEntries<A, D>(types: seq<HandlerType<A>>, select: A -> D): (r: seq<(HandlerType<A>, seq<D>)>)
  {
    if types == [] then []
    else
      var t := types[|types| - 1];
      ImplementationEntries(types[..|types| - 1], select)
        + if t.implementsInterface then [(t, Discriminators(t.attributes, select))] else []
  }

  /** attributes.Select(discriminatorSelector).ToList(). */
  function Discriminators<A, D>(attributes: seq<A>, select: A -> D): (r: seq<D>)
    ensures |r| == |attributes| && forall i :: 0 <= i < |r| ==> r[i] == select(attributes[i])
  {
    seq(|attributes|, i requires 0 <= i < |attributes| => select(attributes[i]))
  }

  /** Every implementation is mapped, with or without attributes, to the discriminators of all of them. */
  lemma {:induction false} ImplementationEntriesMembers<A, D>(types: seq<HandlerType<A>>, select: A -> D, t: HandlerType<A>, ds: seq<D>)
    ensures (t, ds) in ImplementationEntries(types, select) <==>
      t in types && t.implementsInterface && ds == Discriminators(t.attributes, select)
  {
    if types != [] {
      var init := types[..|types| - 1];
      ImplementationEntriesMembers(init, select, t, ds);
      assert types == init + [types[|types| - 1]];
    }
  }

  /** The entries of a prefix of the scan are a prefix of the entries of the whole scan. */
  lemma {:induction false} ImplementationEntriesPrefix<A, D>(types: seq<HandlerType<A>>, select: A -> D, n: nat)
    requires n <= |types|
    ensures ImplementationEntries(types[..n], select) <= ImplementationEntries(types, select)
    decreases |types|
  {
    if n < |types| {
      var init := types[..|types| - 1];
      assert init[..n] == types[..n];
      ImplementationEntriesPrefix(init, select, n);
    } else {
      assert types[..n] == types;
    }
  }

  /** CreateMultiAttributeMappings succeeds unless Dictionary.Add meets a type twice (ArgumentException). */
  function MultiAttributeMappings<A(==), D>(types: seq<HandlerType<A>>, select: A -> D): Result<seq<(HandlerType<A>, seq<D>)>>
  {
    if UniqueKeys(ImplementationEntries(types, select)) then Ok(ImplementationEntries(types, select))
    else Err(ArgumentException)
  }

  /** CreateMultiAttributeMappings: Add for every implementation, which throws on a type already added. */
  method CreateMultiAttributeMappings<A(==), D>(types: seq<HandlerType<A>>, select: A -> D)
    returns (r: Result<seq<(HandlerType<A>, seq<D>)>>)
    ensures r == MultiAttributeMappings(types, select)
  {
    var mappings: seq<(HandlerType<A>, seq<D>)> := [];
    for i := 0 to |types|
      invariant mappings == ImplementationEntries(types[..i], select) && UniqueKeys(mappings)
    {
      var candidate := types[i];
      assert types[..i + 1][..i] == types[..i];
      if !candidate.implementsInterface {
        continue;
      }
      var list := Discriminators(candidate.attributes, select);
      if HasKey(mappings, candidate) {
        AppendOldKey(mappings, (candidate, list));
        ImplementationEntriesPrefix(types, select, i + 1);
        assert ImplementationEntries(types, select)[..|mappings| + 1] == mappings + [(candidate, list)];
        RepeatedKeyPersists(ImplementationEntries(types, select), |mappings| + 1);
        return Err(ArgumentException);
      }
      AppendNewKey(mappings, (candidate, list));
      mappings := mappings + [(candidate, list)];
    }
    assert types[..|types|] == types;
    r := Ok(mappings);
  }

  // ---------------------------------------------------------------------------------------
  // CreateActivator and CreateActivators

  /**
   * CreateActivator: ArgumentException unless the implementation has a public constructor with
   * exactly the delegate's parameter types; otherwise the activator that calls it.
   */
  function CreateActivator<A>(implementation: HandlerType<A>, parameterTypes: seq<string>): (r: Result<Activator>)
    ensures r.Err? <==> parameterTypes !in implementation.constructors
    ensures r.Err? ==> r.error == ArgumentException
    ensures r.Ok? ==> r.value.implementation == implementation.fullName && r.value.parameterTypes in implementation.constructors
  {
    if parameterTypes in implementation.constructors then Ok(Activator(implementation.fullName, parameterTypes))
    else Err(ArgumentException)
  }

  /**
   * The activator loop over the mappings in enumeration order: each activator is created
   * before it is added, so a missing constructor is reported before a repeated discriminator.
   */
  function ActivatorsOf<A(==), D(==)>(mappings: seq<(HandlerType<A>, D)>, parameterTypes: seq<string>): Result<seq<(D, (Activator, HandlerType<A>))>>
  {
    if mappings == [] then Ok([])
    else
      match ActivatorsOf(mappings[..|mappings| - 1], parameterTypes)
      case Err(e) => Err(e)
      case Ok(activators) =>
        var (t, d) := mappings[|mappings| - 1];
        match CreateActivator(t, parameterTypes)
        case Err(e) => Err(e)
        case Ok(a) => if HasKey(activators, d) then Err(InvalidOperationException) else Ok(activators + [(d, (a, t))])
  }

  /** What CreateActivators returns or throws. */
  function Activators<A(==), D(==)>(types: seq<HandlerType<A>>, select: A -> D, parameterTypes: seq<string>)
    : Result<seq<(D, (Activator, HandlerType<A>))>>
  {
    match Mappings(types, select)
    case Err(e) => Err(e)
    case Ok(mappings) => ActivatorsOf(mappings, parameterTypes)
  }

  /** The discriminators of the mappings are pairwise different. */
  predicate UniqueDiscriminators<T, D(==)>(mappings: seq<(T, D)>)
  {
    forall i, j :: 0 <= i < j < |mappings| ==> mappings[i].1 != mappings[j].1
  }

  /**
   * The activator loop succeeds exactly when every mapped type has a matching constructor and
   * no two types share a discriminator; each discriminator then maps to the activator of the
   * type that declared it, and to that type.
   */
  lemma {:induction false} ActivatorsOfSpec<A, D>(mappings: seq<(HandlerType<A>, D)>, parameterTypes: seq<string>)
    ensures ActivatorsOf(mappings, parameterTypes).Ok? <==>
      (forall i :: 0 <= i < |mappings| ==> parameterTypes in mappings[i].0.constructors) && UniqueDiscriminators(mappings)
    ensures ActivatorsOf(mappings, parameterTypes).Err? ==>
      ActivatorsOf(mappings, parameterTypes).error in {ArgumentException, InvalidOperationException}
    ensures ActivatorsOf(mappings, parameterTypes).Ok? ==>
      var acts := ActivatorsOf(mappings, parameterTypes).value;
      |acts| == |mappings| &&
      forall i :: 0 <= i < |acts| ==>
        acts[i] == (mappings[i].1, (Activator(mappings[i].0.fullName, parameterTypes), mappings[i].0))
  {
    if mappings != [] {
      var init := mappings[..|mappings| - 1];
      var (t, d) := mappings[|mappings| - 1];
      ActivatorsOfSpec(init, parameterTypes);
      var prev := ActivatorsOf(init, parameterTypes);
      if prev.Ok? && parameterTypes in t.constructors {
        var acts := prev.value;
        if HasKey(acts, d) {
          var k :| 0 <= k < |acts| && acts[k].0 == d;
          assert mappings[k] == init[k];
          assert !UniqueDiscriminators(mappings);
        } else {
          forall i, j | 0 <= i < j < |mappings|
            ensures mappings[i].1 != mappings[j].1
          {
            assert mappings[i] == init[i];
            if j < |init| {
              assert mappings[j] == init[j];
            } else {
              assert acts[i].0 == mappings[i].1;
            }
          }
          forall i | 0 <= i < |mappings| ensures parameterTypes in mappings[i].0.constructors {
            if i < |init| {
              assert mappings[i] == init[i];
            }
          }
          var r := acts + [(d, (Activator(t.fullName, parameterTypes), t))];
          forall i | 0 <= i < |r|
            ensures r[i] == (mappings[i].1, (Activator(mappings[i].0.fullName, parameterTypes), mappings[i].0))
          {
            if i < |init| {
              assert r[i] == acts[i] && mappings[i] == init[i];
            }
          }
        }
      }
    }
  }

  /**
   * CreateActivators: the mappings of CreateMappings, each turned into an activator and added
   * under its discriminator; a discriminator already added throws InvalidOperationException.
   */
  method CreateActivators<A(==), D(==)>(types: seq<HandlerType<A>>, select: A -> D, parameterTypes: seq<string>)
    returns (r: Result<seq<(D, (Activator, HandlerType<A>))>>)
    ensures r == Activators(types, select, parameterTypes)
  {
    var mappings := CreateMappings(types, select);
    if mappings.Err? {
      return Err(mappings.error);
    }
    var entries := mappings.value;
    var activators: seq<(D, (Activator, HandlerType<A>))> := [];
    for i := 0 to |entries|
      invariant ActivatorsOf(entries[..i], parameterTypes) == Ok(activators)
    {
      var (implementingType, discriminator) := entries[i];
      assert entries[..i + 1][..i] == entries[..i];
      var activator := CreateActivator(implementingType, parameterTypes);
      if activator.Err? {
        ActivatorFailureSticks(entries, parameterTypes, i + 1);
        return Err(activator.error);
      }
      if HasKey(activators, discriminator) {
        ActivatorFailureSticks(entries, parameterTypes, i + 1);
        return Err(InvalidOperationException);
      }
      activators := activators + [(discriminator, (activator.value, implementingType))];
    }
    assert entries[..|entries|] == entries;
    r := Ok(activators);
  }

  /** Once a prefix of the activator loop has thrown, the whole loop throws the same exception. */
  lemma {:induction false} ActivatorFailureSticks<A, D>(mappings: seq<(HandlerType<A>, D)>, parameterTypes: seq<string>, n: nat)
    requires n <= |mappings| && ActivatorsOf(mappings[..n], parameterTypes).Err?
    ensures ActivatorsOf(mappings, parameterTypes) == ActivatorsOf(mappings[..n], parameterTypes)
    decreases |mappings|
  {
    if n < |mappings| {
      var init := mappings[..|mappings| - 1];
      assert init[..n] == mappings[..n];
      ActivatorFailureSticks(init, parameterTypes, n);
    } else {
      assert mappings[..n] == mappings;
    }
  }
}
