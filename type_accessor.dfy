/**
 * TypeAccessor: the property table of one class, keyed by property name ignoring case.
 *
 * The table is a dictionary with a case-insensitive comparer that is only ever added to, so it
 * is modelled as its entries in enumeration order: assigning to a key that is already present
 * (in any casing) keeps that entry's key and slot and replaces its property; a new key is
 * appended.
 */
module TypeAccessors {
  import opened Wrappers
  import opened Strings
  import opened JsonTokens
  import opened ClrTypes
  import opened PropertyWriters
  import opened ExtensibleObjects

  /**
   * A property filter, as GetPropertyFilter builds it: it rejects exactly the properties whose
   * (name, property type) pair is listed. None is the null filter.
   */
  datatype PropertyFilter = PropertyFilter(excluded: seq<(string, string)>)

  predicate Passes(filter: Option<PropertyFilter>, p: PropertyInfo)
  {
    filter.None? || (p.name, p.propertyType) !in filter.value.excluded
  }

  /** IsIgnored: the property carries [NonSerialized] or [JsonIgnore]. */
  predicate IsIgnored(p: PropertyInfo)
  {
    p.nonSerialized || p.jsonIgnore
  }

  /** The properties the table is built from, in GetProperties order: not ignored, then filtered. */
  function Candidates(ps: seq<PropertyInfo>, filter: Option<PropertyFilter>): (r: seq<PropertyInfo>)
    ensures forall p :: p in r <==> p in ps && !IsIgnored(p) && Passes(filter, p)
  {
    if ps == [] then []
    else
      assert forall p :: p in ps <==> p == ps[0] || p in ps[1..];
      (if !IsIgnored(ps[0]) && Passes(filter, ps[0]) then [ps[0]] else []) + Candidates(ps[1..], filter)
  }

  datatype TableEntry = TableEntry(key: string, property: PropertyInfo)

  /** A type accessor: the class it governs and its property table. */
  datatype TypeAccessor = TypeAccessor(t: ClrType, table: seq<TableEntry>)

  /** The dictionary's lookup: the slot whose key equals name ignoring case (the first, if several). */
  function FindKey(table: seq<TableEntry>, name: string): (r: Option<nat>)
    ensures r.Some? ==> r.value < |table| && EqualsIgnoreCase(table[r.value].key, name)
    ensures r.Some? ==> forall j :: 0 <= j < r.value ==> !EqualsIgnoreCase(table[j].key, name)
    ensures r.None? ==> forall j :: 0 <= j < |table| ==> !EqualsIgnoreCase(table[j].key, name)
  {
    FindKeyFrom(table, name, 0)
  }

  function FindKeyFrom(table: seq<TableEntry>, name: string, i: nat): (r: Option<nat>)
    requires i <= |table|
    ensures r.Some? ==> i <= r.value < |table| && EqualsIgnoreCase(table[r.value].key, name)
    ensures r.Some? ==> forall j :: i <= j < r.value ==> !EqualsIgnoreCase(table[j].key, name)
    ensures r.None? ==> forall j :: i <= j < |table| ==> !EqualsIgnoreCase(table[j].key, name)
    decreases |table| - i
  {
    if i == |table| then None
    else if EqualsIgnoreCase(table[i].key, name) then Some(i)
    else FindKeyFrom(table, name, i + 1)
  }

  /** setters[p.Name] = accessor. */
  function Insert(table: seq<TableEntry>, p: PropertyInfo): seq<TableEntry>
  {
    match FindKey(table, p.name)
    case Some(i) => table[i := TableEntry(table[i].key, p)]
    case None => table + [TableEntry(p.name, p)]
  }

  /** The table built from the candidates ps, one assignment after another. */
  function Table(ps: seq<PropertyInfo>): seq<TableEntry>
  {
    if ps == [] then [] else Insert(Table(ps[..|ps| - 1]), ps[|ps| - 1])
  }

  /** TryGetValue: the property stored under name, ignoring case. */
  function Lookup(table: seq<TableEntry>, name: string): Option<PropertyInfo>
  {
    match FindKey(table, name)
    case Some(i) => Some(table[i].property)
    case None => None
  }

  /** Reference definition of the lookup: the last of ps whose name equals name ignoring case. */
  function LastNamed(ps: seq<PropertyInfo>, name: string): (r: Option<PropertyInfo>)
    ensures r.Some? ==> r.value in ps && EqualsIgnoreCase(r.value.name, name)
    ensures r.None? <==> forall p :: p in ps ==> !EqualsIgnoreCase(p.name, name)
  {
    if ps == [] then None
    else if EqualsIgnoreCase(ps[|ps| - 1].name, name) then Some(ps[|ps| - 1])
    else
      assert forall p :: p in ps <==> p in ps[..|ps| - 1] || p == ps[|ps| - 1];
      LastNamed(ps[..|ps| - 1], name)
  }

  /** Reference definition of the keys: each name that no earlier name equals ignoring case. */
  function FirstNames(ps: seq<PropertyInfo>): seq<string>
  {
    if ps == [] then []
    else
      var init := ps[..|ps| - 1];
      FirstNames(init) + (if LastNamed(init, ps[|ps| - 1].name).Some? then [] else [ps[|ps| - 1].name])
  }

  /** No two keys of the table are equal ignoring case. */
  predicate DistinctKeys(table: seq<TableEntry>)
  {
    forall i, j :: 0 <= i < j < |table| ==> !EqualsIgnoreCase(table[i].key, table[j].key)
  }

  /** The keys of the table are the first names of ps, in order. */
  predicate KeysAre(table: seq<TableEntry>, ps: seq<PropertyInfo>)
  {
    |table| == |FirstNames(ps)| && forall i :: 0 <= i < |table| ==> table[i].key == FirstNames(ps)[i]
  }

  /** Every entry holds the last property of ps whose name equals its key ignoring case. */
  predicate PropertiesAre(table: seq<TableEntry>, ps: seq<PropertyInfo>)
  {
    forall i :: 0 <= i < |table| ==> LastNamed(ps, table[i].key) == Some(table[i].property)
  }

  /** Looking any name up in the table finds the last property of ps with that name. */
  ghost predicate LookupsAre(table: seq<TableEntry>, ps: seq<PropertyInfo>)
  {
    forall name :: Lookup(table, name) == LastNamed(ps, name)
  }

  /** What the table of ps is: its keys, the property under each key, and every lookup. */
  ghost predicate Describes(table: seq<TableEntry>, ps: seq<PropertyInfo>)
  {
    DistinctKeys(table) && KeysAre(table, ps) && PropertiesAre(table, ps) && LookupsAre(table, ps)
  }

  /** Two tables with the same keys find the same slot for every name. */
  lemma {:induction false} FindKeyFromSameKeys(t1: seq<TableEntry>, t2: seq<TableEntry>, name: string, i: nat)
    requires |t1| == |t2| && i <= |t1| && forall j :: 0 <= j < |t1| ==> t1[j].key == t2[j].key
    ensures FindKeyFrom(t1, name, i) == FindKeyFrom(t2, name, i)
    decreases |t1| - i
  {
    if i < |t1| {
      FindKeyFromSameKeys(t1, t2, name, i + 1);
    }
  }

  /** Appending an entry whose key matches no earlier key leaves earlier lookups alone. */
  lemma {:induction false} FindKeyFromAppend(table: seq<TableEntry>, e: TableEntry, name: string, i: nat)
    requires i <= |table|
    ensures FindKeyFrom(table + [e], name, i)
         == match FindKeyFrom(table, name, i)
            case Some(k) => Some(k)
            case None => if EqualsIgnoreCase(e.key, name) then Some(|table|) else None
    decreases |table| - i
  {
    var t2 := table + [e];
    if i < |table| {
      assert t2[i] == table[i];
      FindKeyFromAppend(table, e, name, i + 1);
    } else {
      assert t2[i] == e;
    }
  }

  /** Under distinct keys, a slot whose key equals name is the slot the lookup finds. */
  lemma FoundSlot(table: seq<TableEntry>, name: string, i: nat)
    requires DistinctKeys(table) && i < |table| && EqualsIgnoreCase(table[i].key, name)
    ensures FindKey(table, name) == Some(i)
  {
    var k := FindKey(table, name);
    if k != Some(i) {
      assert k.Some? && k.value < i;
      assert EqualsIgnoreCase(table[k.value].key, table[i].key);
    }
  }

  /** Assigning a property whose name is already a key (in some casing): keys and slots are kept. */
  lemma InsertExisting(init: seq<PropertyInfo>, p: PropertyInfo, table: seq<TableEntry>)
    requires Describes(table, init) && FindKey(table, p.name).Some?
    ensures Describes(Insert(table, p), init + [p])
  {
    var ps := init + [p];
    assert ps[..|ps| - 1] == init && ps[|ps| - 1] == p;
    var i := FindKey(table, p.name).value;
    var t2 := Insert(table, p);
    assert t2 == table[i := TableEntry(table[i].key, p)];
    assert LastNamed(init, p.name).Some? by {
      assert Lookup(table, p.name).Some?;
    }
    assert FirstNames(ps) == FirstNames(init);
    assert KeysAre(t2, ps);
    assert DistinctKeys(t2);
    assert PropertiesAre(t2, ps) by {
      forall j | 0 <= j < |t2|
        ensures LastNamed(ps, t2[j].key) == Some(t2[j].property)
      {
        if j != i {
          assert !EqualsIgnoreCase(table[i].key, table[j].key);
          assert !EqualsIgnoreCase(p.name, table[j].key);
        }
      }
    }
    assert LookupsAre(t2, ps) by {
      forall name
        ensures Lookup(t2, name) == LastNamed(ps, name)
      {
        FindKeyFromSameKeys(table, t2, name, 0);
        if EqualsIgnoreCase(p.name, name) {
          FoundSlot(table, name, i);
        } else if FindKey(table, name).Some? {
          assert FindKey(table, name).value != i;
        }
      }
    }
  }

  /** Assigning a property whose name is not yet a key: a new entry is appended. */
  lemma InsertNew(init: seq<PropertyInfo>, p: PropertyInfo, table: seq<TableEntry>)
    requires Describes(table, init) && FindKey(table, p.name).None?
    ensures Describes(Insert(table, p), init + [p])
  {
    var ps := init + [p];
    assert ps[..|ps| - 1] == init && ps[|ps| - 1] == p;
    var e := TableEntry(p.name, p);
    var t2 := Insert(table, p);
    assert t2 == table + [e];
    assert LastNamed(init, p.name).None? by {
      assert Lookup(table, p.name).None?;
    }
    assert FirstNames(ps) == FirstNames(init) + [p.name];
    assert KeysAre(t2, ps);
    assert DistinctKeys(t2) by {
      forall j | 0 <= j < |table|
        ensures !EqualsIgnoreCase(table[j].key, p.name)
      {
      }
    }
    assert PropertiesAre(t2, ps) by {
      forall j | 0 <= j < |t2|
        ensures LastNamed(ps, t2[j].key) == Some(t2[j].property)
      {
        if j < |table| {
          assert !EqualsIgnoreCase(p.name, table[j].key);
        }
      }
    }
    assert LookupsAre(t2, ps) by {
      forall name
        ensures Lookup(t2, name) == LastNamed(ps, name)
      {
        FindKeyFromAppend(table, e, name, 0);
        if EqualsIgnoreCase(p.name, name) {
          assert LastNamed(init, name).None?;
        }
      }
    }
  }

  /**
   * The table of ps holds one entry per name up to case, keyed by the casing of the first
   * property with that name and holding the last one; looking a name up finds the last
   * property with that name ignoring case.
   */
  lemma {:induction false} TableDescribed(ps: seq<PropertyInfo>)
    ensures Describes(Table(ps), ps)
  {
    if ps != [] {
      var init := ps[..|ps| - 1];
      var p := ps[|ps| - 1];
      assert ps == init + [p];
      TableDescribed(init);
      if FindKey(Table(init), p.name).Some? {
        InsertExisting(init, p, Table(init));
      } else {
        InsertNew(init, p, Table(init));
      }
    }
  }

  /** The accessor the TypeAccessor constructor builds for t under filter. */
  function Accessor(t: ClrType, filter: Option<PropertyFilter>): TypeAccessor
  {
    TypeAccessor(t, Table(Candidates(AllProperties(t), filter)))
  }

  /**
   * CreatePropertyAccessors: every public property of t that is not ignored and passes the
   * filter, assigned into the case-insensitive dictionary in turn.
   */
  method CreatePropertyAccessors(t: ClrType, filter: Option<PropertyFilter>) returns (table: seq<TableEntry>)
    ensures table == Accessor(t, filter).table
  {
    var properties := Candidates(AllProperties(t), filter);
    table := [];
    for i := 0 to |properties|
      invariant table == Table(properties[..i])
    {
      assert properties[..i + 1][..i] == properties[..i];
      var p := properties[i];
      var slot := FindKey(table, p.name);
      if slot.Some? {
        table := table[slot.value := TableEntry(table[slot.value].key, p)];
      } else {
        table := table + [TableEntry(p.name, p)];
      }
    }
    assert properties[..|properties|] == properties;
  }

  /**
   * The TypeAccessor constructor. CreateConstructor looks up the parameterless constructor of
   * any visibility; a class without one makes it emit newobj with a null constructor, which
   * ILGenerator.Emit rejects with ArgumentNullException. Then the property table is built.
   */
  method NewTypeAccessor(t: ClrType, filter: Option<PropertyFilter>) returns (r: Result<TypeAccessor>)
    ensures r.Err? <==> !t.parameterless
    ensures r.Err? ==> r.error == ArgumentNullException
    ensures r.Ok? ==> r.value == Accessor(t, filter) && r.value.t == t
  {
    if !t.parameterless {
      return Err(ArgumentNullException);
    }
    var table := CreatePropertyAccessors(t, filter);
    r := Ok(TypeAccessor(t, table));
  }

  /**
   * The table of an accessor: keys distinct ignoring case; every entry holds a public property
   * of t that is not ignored and passes the filter; a name finds the last such property whose
   * name equals it ignoring case, and the key keeps the casing of the first.
   */
  lemma AccessorTable(t: ClrType, filter: Option<PropertyFilter>, name: string)
    ensures DistinctKeys(Accessor(t, filter).table)
    ensures forall e :: e in Accessor(t, filter).table ==>
      e.property in AllProperties(t) && !IsIgnored(e.property) && Passes(filter, e.property)
      && EqualsIgnoreCase(e.property.name, e.key)
    ensures Lookup(Accessor(t, filter).table, name) == LastNamed(Candidates(AllProperties(t), filter), name)
    ensures |Accessor(t, filter).table| == |FirstNames(Candidates(AllProperties(t), filter))|
    ensures forall i :: 0 <= i < |Accessor(t, filter).table| ==>
      Accessor(t, filter).table[i].key == FirstNames(Candidates(AllProperties(t), filter))[i]
  {
    var ps := Candidates(AllProperties(t), filter);
    TableDescribed(ps);
    var table := Table(ps);
    forall e | e in table
      ensures e.property in AllProperties(t) && !IsIgnored(e.property) && Passes(filter, e.property)
      ensures EqualsIgnoreCase(e.property.name, e.key)
    {
      var i :| 0 <= i < |table| && table[i] == e;
      assert LastNamed(ps, table[i].key) == Some(e.property);
    }
  }

  /** A candidate's name always finds an entry: no property of the table is lost. */
  lemma EveryCandidateFound(t: ClrType, filter: Option<PropertyFilter>, p: PropertyInfo)
    requires p in AllProperties(t) && !IsIgnored(p) && Passes(filter, p)
    ensures Lookup(Accessor(t, filter).table, p.name).Some?
  {
    AccessorTable(t, filter, p.name);
    assert EqualsIgnoreCase(p.name, p.name);
  }

  /**
   * TypeAccessor.CreateInstance: a new instance of the governed class, made by its parameterless
   * constructor. The runtime refuses to compile the newobj of an abstract class with
   * InvalidOperationException, on the first call of the delegate.
   */
  method CreateInstance(acc: TypeAccessor) returns (r: Result<ExtensibleObject>)
    requires acc.t.parameterless
    ensures r.Err? <==> acc.t.isAbstract
    ensures r.Err? ==> r.error == InvalidOperationException
    ensures r.Ok? ==> fresh(r.value)
    ensures r.Ok? ==> r.value.runtimeType == acc.t && r.value.values == InitialValues(acc.t)
    ensures r.Ok? ==> r.value.extensionData == null && r.value.Valid()
  {
    if acc.t.isAbstract {
      return Err(InvalidOperationException);
    }
    var instance := new ExtensibleObject(acc.t);
    r := Ok(instance);
  }

  /**
   * Where the deserializer called on a member name stops: just past the complete value that
   * follows the name, or the JsonException it throws when no complete value follows.
   */
  function ValueEnd(ts: seq<Token>, pos: nat): (r: Result<nat>)
    ensures r.Ok? ==> pos + 1 < r.value <= |ts| && IsValueSpan(ts[pos + 1..r.value])
    ensures r.Err? ==> r.error == JsonException(if pos + 1 >= |ts| then PrematureEnd else ExpectedValue)
  {
    match SkipValue(ts, pos + 1)
    case Some(e) =>
      SkipValueSpan(ts, pos + 1, e);
      Ok(e)
    case None => Err(JsonException(if pos + 1 >= |ts| then PrematureEnd else ExpectedValue))
  }

  /** A value found by SkipValue is a complete value on its own. */
  lemma SkipValueSpan(ts: seq<Token>, pos: nat, e: nat)
    requires SkipValue(ts, pos) == Some(e)
    ensures IsValueSpan(ts[pos..e])
  {
    var span := ts[pos..e];
    if ts[pos].StartObject? || ts[pos].StartArray? {
      SkipContainerShift(ts, pos + 1, 1, pos, e);
    }
  }

  /** Skipping a container inside ts is skipping it inside the slice ts[shift..e] that ends where it ends. */
  lemma {:induction false} SkipContainerShift(ts: seq<Token>, pos: nat, depth: nat, shift: nat, e: nat)
    requires depth > 0 && shift < pos <= e && SkipContainer(ts, pos, depth) == Some(e)
    ensures SkipContainer(ts[shift..e], pos - shift, depth) == Some(e - shift)
    decreases |ts| - pos
  {
    var us := ts[shift..e];
    assert us[pos - shift] == ts[pos];
    if ts[pos].StartObject? || ts[pos].StartArray? {
      SkipContainerShift(ts, pos + 1, depth + 1, shift, e);
    } else if ts[pos].EndObject? || ts[pos].EndArray? {
      if depth != 1 {
        SkipContainerShift(ts, pos + 1, depth - 1, shift, e);
      }
    } else {
      SkipContainerShift(ts, pos + 1, depth, shift, e);
    }
  }

  /**
   * TrySetMember, with the reader on the member name at pos. A name missing from the table
   * (ignoring case) returns false and changes neither the instance nor the reader. A name in
   * the table reads the value that follows, stores it in the property, and leaves the reader
   * just past the value; when no complete value follows, the deserializer throws and the
   * instance is unchanged.
   */
  method TrySetMember(acc: TypeAccessor, instance: ExtensibleObject, name: string, ts: seq<Token>, pos: nat)
    returns (r: Result<Option<nat>>)
    modifies instance
    ensures instance.extensionData == old(instance.extensionData)
    ensures Lookup(acc.table, name).None? ==> r == Ok(None) && instance.values == old(instance.values)
    ensures Lookup(acc.table, name).Some? && ValueEnd(ts, pos).Err? ==>
      r == Err(ValueEnd(ts, pos).error) && instance.values == old(instance.values)
    ensures Lookup(acc.table, name).Some? && ValueEnd(ts, pos).Ok? ==>
      var e := ValueEnd(ts, pos).value;
      r == Ok(Some(e)) && instance.values == old(instance.values)[Lookup(acc.table, name).value := ts[pos + 1..e]]
  {
    var setter := Lookup(acc.table, name);
    if setter.None? {
      return Ok(None);
    }
    var end := ValueEnd(ts, pos);
    if end.Err? {
      return Err(end.error);
    }
    instance.values := instance.values[setter.value := ts[pos + 1..end.value]];
    r := Ok(Some(end.value));
  }

  /** GetPropertyWriters: one writer per table entry, in table order, named by the entry's key. */
  function GetPropertyWriters(acc: TypeAccessor): (r: seq<PropertyWriter>)
    ensures |r| == |acc.table|
    ensures forall i :: 0 <= i < |r| ==> r[i].memberName == acc.table[i].key && r[i].property == acc.table[i].property
  {
    seq(|acc.table|, i requires 0 <= i < |acc.table| => PropertyWriter(acc.table[i].key, acc.table[i].property))
  }
}
