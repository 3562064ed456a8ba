/**
 * TypeAccessorCache: the process-wide dictionary from class to type accessor, filled on a
 * miss. Concurrent callers are not modelled: calls happen one after another.
 */
module TypeAccessorCaches {
  import opened Wrappers
  import opened ClrTypes
  import opened TypeAccessors

  /** Whether GetTypeAccessor for t returns an accessor: a hit, or a class with a parameterless constructor. */
  predicate AccessorAvailable(accessors: map<ClrType, TypeAccessor>, t: ClrType)
  {
    t in accessors || t.parameterless
  }

  /** The accessor a call for t returns when it returns one: the cached one, or a new one built under filter. */
  function CachedAccessor(accessors: map<ClrType, TypeAccessor>, t: ClrType, filter: Option<PropertyFilter>): TypeAccessor
  {
    if t in accessors then accessors[t] else Accessor(t, filter)
  }

  class TypeAccessorCache {
    var accessors: map<ClrType, TypeAccessor>

    /**
     * Every cached accessor governs its own key, a class with a parameterless constructor, and
     * was built by the constructor under some filter.
     */
    ghost predicate Valid()
      reads this
    {
      forall t :: t in accessors ==> t.parameterless && exists f :: accessors[t] == Accessor(t, f)
    }

    constructor ()
      ensures accessors == map[] && Valid()
    {
      accessors := map[];
    }

    /**
     * GetTypeAccessor: the accessor stored for t, or on a miss a new accessor built under the
     * filter, which is stored. When the TypeAccessor constructor throws, GetOrAdd stores nothing
     * and the exception passes to the caller. Entries are never removed or replaced.
     */
    method GetTypeAccessor(t: ClrType, filter: Option<PropertyFilter>) returns (r: Result<TypeAccessor>)
      requires Valid()
      modifies this
      ensures Valid()
      ensures r.Ok? <==> AccessorAvailable(old(accessors), t)
      ensures r.Err? ==> r.error == ArgumentNullException && accessors == old(accessors)
      ensures r.Ok? ==> r.value == CachedAccessor(old(accessors), t, filter) && r.value.t == t && t.parameterless
      ensures r.Ok? ==> accessors == old(accessors)[t := r.value] && accessors.Keys == old(accessors).Keys + {t}
      ensures forall k :: k in old(accessors) ==> k in accessors && accessors[k] == old(accessors)[k]
    {
      if t in accessors {
        r := Ok(accessors[t]);
        assert accessors == accessors[t := r.value];
        return;
      }
      r := NewTypeAccessor(t, filter);
      if r.Ok? {
        accessors := accessors[t := r.value];
      }
    }
  }

  /**
   * The first accessor stored for a class is returned by every later call, whatever filter the
   * later call passes; a class the constructor rejects fails both times.
   */
  method FirstAccessorWins(cache: TypeAccessorCache, t: ClrType, first: Option<PropertyFilter>, second: Option<PropertyFilter>)
    returns (a: Result<TypeAccessor>, b: Result<TypeAccessor>)
    requires cache.Valid() && t !in cache.accessors
    modifies cache
    ensures a.Ok? <==> t.parameterless
    ensures a.Ok? ==> a.value == Accessor(t, first)
    ensures b == a
  {
    a := cache.GetTypeAccessor(t, first);
    b := cache.GetTypeAccessor(t, second);
  }

  /** A cached accessor governs its key, and every property in its table is a property of that class. */
  lemma CachedAccessorProperties(accessors: map<ClrType, TypeAccessor>, t: ClrType, filter: Option<PropertyFilter>)
    requires forall k :: k in accessors ==> k.parameterless && exists f :: accessors[k] == Accessor(k, f)
    ensures CachedAccessor(accessors, t, filter).t == t
    ensures DistinctKeys(CachedAccessor(accessors, t, filter).table)
    ensures forall e :: e in CachedAccessor(accessors, t, filter).table ==> e.property in AllProperties(t)
  {
    var f := filter;
    if t in accessors {
      f :| accessors[t] == Accessor(t, f);
    }
    AccessorTable(t, f, "");
  }
}
