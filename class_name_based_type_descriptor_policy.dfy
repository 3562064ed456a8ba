/**
 * The class-name descriptor policy: a type's descriptor is the names of the type and its
 * ancestors (System.Object excluded) joined by a separator, leaf first or root first.
 */
module ClassNameBasedTypeDescriptorPolicy {
  import opened Wrappers
  import opened Strings
  import opened ClrTypes
  import opened TypeHierarchyModes

  datatype ClassNamePolicy = ClassNamePolicy(typeSeparator: string, typeHierarchyMode: TypeHierarchyMode, useFullNames: bool)
  {
    /** Descriptors can only be split at a non-empty separator. */
    predicate Valid()
    {
      |typeSeparator| > 0
    }
  }

  /**
   * The name of one type: FullName or Name for a non-generic type, and for a constructed
   * generic type its (namespace-qualified) name followed by its arguments' names in angle brackets.
   */
  function GetTypeName(useFullNames: bool, t: ClrType): (r: string)
    ensures !IsGenericType(t) ==> r == if useFullNames then t.fullName else t.name
    ensures IsGenericType(t) ==> |r| >= 2 && r[|r| - 1] == '>'
    ensures IsGenericType(t) ==>
      var n := if useFullNames then t.ns + "." + t.name else t.name;
      |n| + 2 <= |r| && r[..|n| + 1] == n + "<"
    decreases t
  {
    if !IsGenericType(t) then
      if useFullNames then t.fullName else t.name
    else
      var args := seq(|t.genericArgs|, i requires 0 <= i < |t.genericArgs| => GetTypeName(useFullNames, t.genericArgs[i]));
      (if useFullNames then t.ns + "." + t.name else t.name) + "<" + Join(",", args) + ">"
  }

  /** The names a descriptor is made of, the type's own first and its root-most ancestor's last. */
  function DerivedFirstNames(useFullNames: bool, t: ClrType): (r: seq<string>)
    ensures |r| == 1 + |ChainAbove(t)|
    ensures r[0] == GetTypeName(useFullNames, t)
  {
    [GetTypeName(useFullNames, t)] + RestNames(useFullNames, t.baseType)
  }

  /** t has a base other than System.Object, so its descriptor names an ancestor too. */
  predicate HasDescribedBase(t: ClrType)
  {
    t.baseType.Some? && t.baseType.value != ObjectType
  }

  /** The names of the ancestors still to visit when the builder's current type is current. */
  function RestNames(useFullNames: bool, current: Option<ClrType>): seq<string>
  {
    match current
    case None => []
    case Some(c) => if c == ObjectType then [] else DerivedFirstNames(useFullNames, c)
  }

  /** GetTypeDescriptor: the names in the policy's hierarchy order, joined by the separator. */
  function GetTypeDescriptor(p: ClassNamePolicy, t: ClrType): (r: string)
  {
    var names := DerivedFirstNames(p.useFullNames, t);
    if p.typeHierarchyMode == DerivedFirst then Join(p.typeSeparator, names)
    else Join(p.typeSeparator, Reverse(names))
  }

  /** A descriptor built leaf first is the type's name, the separator, and its base's descriptor. */
  lemma DerivedFirstDescriptorOfDerived(p: ClassNamePolicy, t: ClrType)
    requires p.typeHierarchyMode == DerivedFirst && HasDescribedBase(t)
    ensures GetTypeDescriptor(p, t)
         == GetTypeName(p.useFullNames, t) + p.typeSeparator + GetTypeDescriptor(p, t.baseType.value)
  {
    var baseNames := DerivedFirstNames(p.useFullNames, t.baseType.value);
    assert DerivedFirstNames(p.useFullNames, t) == [GetTypeName(p.useFullNames, t)] + baseNames;
    JoinCons(p.typeSeparator, GetTypeName(p.useFullNames, t), baseNames);
  }

  /** A descriptor built root first is the base's descriptor, the separator, and the type's name. */
  lemma AbstractFirstDescriptorOfDerived(p: ClassNamePolicy, t: ClrType)
    requires p.typeHierarchyMode == AbstractFirst && HasDescribedBase(t)
    ensures GetTypeDescriptor(p, t)
         == GetTypeDescriptor(p, t.baseType.value) + p.typeSeparator + GetTypeName(p.useFullNames, t)
  {
    var b := t.baseType.value;
    var baseNames := DerivedFirstNames(p.useFullNames, b);
    assert RestNames(p.useFullNames, t.baseType) == baseNames;
    var names := DerivedFirstNames(p.useFullNames, t);
    assert names == [GetTypeName(p.useFullNames, t)] + baseNames;
    ReverseCons(GetTypeName(p.useFullNames, t), baseNames);
    JoinSnoc(p.typeSeparator, Reverse(baseNames), GetTypeName(p.useFullNames, t));
  }

  /** A type whose chain stops at once is described by its own name alone, in either order. */
  lemma DescriptorOfRoot(p: ClassNamePolicy, t: ClrType)
    requires !HasDescribedBase(t)
    ensures GetTypeDescriptor(p, t) == GetTypeName(p.useFullNames, t)
  {
    var names := DerivedFirstNames(p.useFullNames, t);
    assert names == [GetTypeName(p.useFullNames, t)] + [];
    ReverseCons(GetTypeName(p.useFullNames, t), []);
  }

  /** One more ancestor moves from the names still to visit to the names visited. */
  lemma NamesStep(useFullNames: bool, all: seq<string>, done: seq<string>, c: ClrType)
    requires c != ObjectType && all == done + RestNames(useFullNames, Some(c))
    ensures all == (done + [GetTypeName(useFullNames, c)]) + RestNames(useFullNames, c.baseType)
  {
    var name := GetTypeName(useFullNames, c);
    var rest := RestNames(useFullNames, c.baseType);
    assert RestNames(useFullNames, Some(c)) == [name] + rest;
    assert done + ([name] + rest) == (done + [name]) + rest;
  }

  /** The StringBuilder loop of GetTypeDescriptorDerivedFirst. */
  method GetTypeDescriptorDerivedFirst(p: ClassNamePolicy, t: ClrType) returns (r: string)
    ensures r == Join(p.typeSeparator, DerivedFirstNames(p.useFullNames, t))
  {
    var builder := GetTypeName(p.useFullNames, t);
    ghost var done := [GetTypeName(p.useFullNames, t)];
    var current := t.baseType;
    while current.Some? && current.value != ObjectType
      invariant |done| > 0 && builder == Join(p.typeSeparator, done)
      invariant DerivedFirstNames(p.useFullNames, t) == done + RestNames(p.useFullNames, current)
      decreases current
    {
      var c := current.value;
      JoinSnoc(p.typeSeparator, done, GetTypeName(p.useFullNames, c));
      NamesStep(p.useFullNames, DerivedFirstNames(p.useFullNames, t), done, c);
      builder := builder + p.typeSeparator + GetTypeName(p.useFullNames, c);
      done := done + [GetTypeName(p.useFullNames, c)];
      current := c.baseType;
    }
    assert RestNames(p.useFullNames, current) == [];
    assert done + [] == done;
    r := builder;
  }

  /** The token list of GetTypeDescriptorRootFirst, each ancestor's name inserted at the front. */
  method GetTypeDescriptorRootFirst(p: ClassNamePolicy, t: ClrType) returns (r: string)
    ensures r == Join(p.typeSeparator, Reverse(DerivedFirstNames(p.useFullNames, t)))
  {
    var tokens := [GetTypeName(p.useFullNames, t)];
    ghost var done := [GetTypeName(p.useFullNames, t)];
    var current := t.baseType;
    while current.Some? && current.value != ObjectType
      invariant tokens == Reverse(done)
      invariant DerivedFirstNames(p.useFullNames, t) == done + RestNames(p.useFullNames, current)
      decreases current
    {
      var c := current.value;
      ReverseSnoc(done, GetTypeName(p.useFullNames, c));
      NamesStep(p.useFullNames, DerivedFirstNames(p.useFullNames, t), done, c);
      tokens := [GetTypeName(p.useFullNames, c)] + tokens;
      done := done + [GetTypeName(p.useFullNames, c)];
      current := c.baseType;
    }
    assert RestNames(p.useFullNames, current) == [];
    assert done + [] == done;
    r := Join(p.typeSeparator, tokens);
  }

  /**
   * TryGetParentDescriptor with the leaf token and the whole separator removed. Leaf first,
   * the parent is what follows the first separator; root first, what precedes the last one.
   */
  function TryGetParentDescriptor(p: ClassNamePolicy, d: string): (r: Option<string>)
    requires p.Valid()
    ensures r.None? <==> forall j :: !OccursAt(d, p.typeSeparator, j)
    ensures r.Some? ==> |r.value| < |d|
    ensures r.Some? && p.typeHierarchyMode == DerivedFirst ==> d[|d| - |r.value|..] == r.value
    ensures r.Some? && p.typeHierarchyMode == AbstractFirst ==> d[..|r.value|] == r.value
  {
    if p.typeHierarchyMode == DerivedFirst then
      match IndexOf(d, p.typeSeparator)
      case None => None
      case Some(i) => Some(d[i + |p.typeSeparator|..])
    else
      match LastIndexOf(d, p.typeSeparator)
      case None => None
      case Some(i) => Some(d[..i])
  }

  /**
   * TryGetParentDescriptor as written: leaf first, it skips only one character after the
   * separator's start, so the parent is still a suffix but keeps the rest of a longer separator.
   */
  function TryGetParentDescriptorAsWritten(p: ClassNamePolicy, d: string): (r: Option<string>)
    requires p.Valid()
    ensures r.None? <==> forall j :: !OccursAt(d, p.typeSeparator, j)
    ensures r.Some? ==> |r.value| < |d|
    ensures r.Some? && p.typeHierarchyMode == DerivedFirst ==> d[|d| - |r.value|..] == r.value
    ensures r.Some? && p.typeHierarchyMode == AbstractFirst ==> d[..|r.value|] == r.value
  {
    if p.typeHierarchyMode == DerivedFirst then
      match IndexOf(d, p.typeSeparator)
      case None => None
      case Some(i) => Some(d[i + 1..])
    else
      match LastIndexOf(d, p.typeSeparator)
      case None => None
      case Some(i) => Some(d[..i])
  }

  /** With a one-character separator (the default ":" among them) the code as written is correct. */
  lemma AsWrittenAgreesForOneCharSeparator(p: ClassNamePolicy, d: string)
    requires |p.typeSeparator| == 1
    ensures TryGetParentDescriptorAsWritten(p, d) == TryGetParentDescriptor(p, d)
  {
  }

  /** A two-character separator leaves its second character in front of the parent descriptor. */
  lemma AsWrittenKeepsSeparatorTail()
    ensures var p := ClassNamePolicy("::", DerivedFirst, false);
      TryGetParentDescriptorAsWritten(p, "B::A") == Some(":A")
      && TryGetParentDescriptor(p, "B::A") == Some("A")
  {
    var p := ClassNamePolicy("::", DerivedFirst, false);
    IndexOfAfterFirst("B", "::", "A");
    assert "B::A" == "B" + "::" + "A";
  }

  /**
   * The parent of a derived type's descriptor is its base's descriptor, in either order,
   * provided the separator shares no character with the type's own name.
   */
  lemma ParentOfDescriptorIsBaseDescriptor(p: ClassNamePolicy, t: ClrType)
    requires p.Valid() && HasDescribedBase(t)
    requires SharesNoChar(GetTypeName(p.useFullNames, t), p.typeSeparator)
    ensures TryGetParentDescriptor(p, GetTypeDescriptor(p, t)) == Some(GetTypeDescriptor(p, t.baseType.value))
  {
    var name := GetTypeName(p.useFullNames, t);
    var baseDescriptor := GetTypeDescriptor(p, t.baseType.value);
    if p.typeHierarchyMode == DerivedFirst {
      DerivedFirstDescriptorOfDerived(p, t);
      IndexOfAfterFirst(name, p.typeSeparator, baseDescriptor);
      assert (name + p.typeSeparator + baseDescriptor)[|name| + |p.typeSeparator|..] == baseDescriptor;
    } else {
      AbstractFirstDescriptorOfDerived(p, t);
      LastIndexOfBeforeLast(baseDescriptor, p.typeSeparator, name);
      assert (baseDescriptor + p.typeSeparator + name)[..|baseDescriptor|] == baseDescriptor;
    }
  }

  /** A type at the top of its chain has no parent descriptor when its name avoids the separator. */
  lemma RootDescriptorHasNoParent(p: ClassNamePolicy, t: ClrType)
    requires p.Valid() && !HasDescribedBase(t)
    requires SharesNoChar(GetTypeName(p.useFullNames, t), p.typeSeparator)
    ensures TryGetParentDescriptor(p, GetTypeDescriptor(p, t)) == None
  {
    DescriptorOfRoot(p, t);
    NoOccurrence(GetTypeName(p.useFullNames, t), p.typeSeparator);
  }
}
