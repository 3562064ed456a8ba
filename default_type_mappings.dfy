/**
 * The type mapping registry of one root type: descriptor to type and type to descriptor,
 * filled once from the scanned types, and the closest-type walk over parent descriptors.
 */
module DefaultTypeMappings {
  import opened Wrappers
  import opened Strings
  import opened ClrTypes
  import opened TypeHierarchyModes
  import opened TypeDescriptorPolicy
  import ClassNameBasedTypeDescriptorPolicy

  datatype Registry = Registry(
    root: ClrType,
    policy: Policy,
    descriptorToType: map<string, ClrType>,   // ordinal (case-sensitive) keys
    typeToDescriptor: map<ClrType, string>)

  /** One iteration of the constructor's loop over the types assignable to the root. */
  function ScanStep(reg: Registry, t: ClrType): (r: Result<Registry>)
    ensures r.Ok? ==> r.value.root == reg.root && r.value.policy == reg.policy
  {
    if !IsAssignableFrom(reg.root, t) then Ok(reg)
    else match GetTypeDescriptor(reg.policy, t)
      case None =>
        if t == reg.root && FallbackToRootType(reg.policy) then Ok(reg) else Err(ArgumentException)
      case Some(d) =>
        Ok(reg.(descriptorToType := reg.descriptorToType[d := t], typeToDescriptor := reg.typeToDescriptor[t := d]))
  }

  /** The registry the constructor builds from types, or the ArgumentException it throws. */
  function Scan(root: ClrType, policy: Policy, types: seq<ClrType>): (r: Result<Registry>)
    ensures r.Ok? ==> r.value.root == root && r.value.policy == policy
    ensures r.Err? ==> r.error == ArgumentException
  {
    if types == [] then Ok(Registry(root, policy, map[], map[]))
    else
      match Scan(root, policy, types[..|types| - 1])
      case Err(e) => Err(e)
      case Ok(reg) => ScanStep(reg, types[|types| - 1])
  }

  /** Once a prefix of the scan has thrown, the whole constructor throws the same exception. */
  lemma {:induction false} ScanFailureSticks(root: ClrType, policy: Policy, types: seq<ClrType>, i: nat)
    requires i <= |types| && Scan(root, policy, types[..i]).Err?
    ensures Scan(root, policy, types) == Scan(root, policy, types[..i])
    decreases |types|
  {
    if i < |types| {
      var init := types[..|types| - 1];
      assert init[..i] == types[..i];
      ScanFailureSticks(root, policy, init, i);
    } else {
      assert types[..i] == types;
    }
  }

  /** The constructor: filters the types by assignability to the root and fills both dictionaries. */
  method Build(root: ClrType, policy: Policy, types: seq<ClrType>) returns (r: Result<Registry>)
    ensures r == Scan(root, policy, types)
  {
    var descriptorToType: map<string, ClrType> := map[];
    var typeToDescriptor: map<ClrType, string> := map[];
    var i := 0;
    while i < |types|
      invariant i <= |types|
      invariant Scan(root, policy, types[..i]) == Ok(Registry(root, policy, descriptorToType, typeToDescriptor))
    {
      var t := types[i];
      assert types[..i + 1][..i] == types[..i];
      if IsAssignableFrom(root, t) {
        var descriptor := GetTypeDescriptor(policy, t);
        if descriptor.None? {
          if t == root && FallbackToRootType(policy) {
            i := i + 1;
            continue;
          }
          ScanFailureSticks(root, policy, types, i + 1);
          return Err(ArgumentException);
        }
        descriptorToType := descriptorToType[descriptor.value := t];
        typeToDescriptor := typeToDescriptor[t := descriptor.value];
      }
      i := i + 1;
    }
    assert types[..i] == types;
    r := Ok(Registry(root, policy, descriptorToType, typeToDescriptor));
  }

  /** IsHierarchyMapped: the stored descriptor of the type (true), or None (false with null). */
  function IsHierarchyMapped(reg: Registry, t: ClrType): (r: Option<string>)
    ensures r.Some? <==> t in reg.typeToDescriptor
  {
    if t in reg.typeToDescriptor then Some(reg.typeToDescriptor[t]) else None
  }

  /**
   * After a successful scan, a type is mapped exactly when it was scanned, is assignable to
   * the root and the policy gives it a descriptor; it is then mapped to that descriptor.
   */
  lemma {:induction false} HierarchyMappedIffScanned(root: ClrType, policy: Policy, types: seq<ClrType>, t: ClrType)
    requires Scan(root, policy, types).Ok?
    ensures IsHierarchyMapped(Scan(root, policy, types).value, t)
         == if t in types && IsAssignableFrom(root, t) then GetTypeDescriptor(policy, t) else None
  {
    if types != [] {
      var init := types[..|types| - 1];
      HierarchyMappedIffScanned(root, policy, init, t);
      assert types == init + [types[|types| - 1]];
    }
  }

  /**
   * A null descriptor is tolerated only for the root type under a policy that falls back to the
   * root; for any other scanned type the constructor throws ArgumentException.
   */
  lemma {:induction false} NullDescriptorRejected(root: ClrType, policy: Policy, types: seq<ClrType>, i: nat)
    requires i < |types| && IsAssignableFrom(root, types[i]) && GetTypeDescriptor(policy, types[i]).None?
    requires !(types[i] == root && FallbackToRootType(policy))
    ensures Scan(root, policy, types) == Err(ArgumentException)
  {
    var prefix := types[..i + 1];
    assert prefix[..|prefix| - 1] == types[..i] && prefix[|prefix| - 1] == types[i];
    ScanFailureSticks(root, policy, types, i + 1);
  }

  /**
   * Duplicates are not rejected: the descriptor leads to the last scanned type that has it, so
   * a type is found under its descriptor unless a later type has the same descriptor.
   */
  lemma {:induction false} DescriptorLastWins(root: ClrType, policy: Policy, types: seq<ClrType>, i: nat, d: string)
    requires Scan(root, policy, types).Ok?
    requires i < |types| && IsAssignableFrom(root, types[i]) && GetTypeDescriptor(policy, types[i]) == Some(d)
    requires forall j :: i < j < |types| && IsAssignableFrom(root, types[j]) ==> GetTypeDescriptor(policy, types[j]) != Some(d)
    ensures d in Scan(root, policy, types).value.descriptorToType
    ensures Scan(root, policy, types).value.descriptorToType[d] == types[i]
    decreases |types|
  {
    var init := types[..|types| - 1];
    assert Scan(root, policy, init).Ok?;
    if i < |types| - 1 {
      forall j | i < j < |init| && IsAssignableFrom(root, init[j]) ensures GetTypeDescriptor(policy, init[j]) != Some(d) {
        assert init[j] == types[j];
      }
      DescriptorLastWins(root, policy, init, i, d);
    }
  }

  /** The position of the last scanned type assignable to the root whose descriptor is d, if any. */
  function LastDescribed(root: ClrType, policy: Policy, types: seq<ClrType>, d: string): (r: Option<nat>)
    ensures r.Some? ==> r.value < |types| && IsAssignableFrom(root, types[r.value]) && GetTypeDescriptor(policy, types[r.value]) == Some(d)
    ensures r.Some? ==> forall j :: r.value < j < |types| && IsAssignableFrom(root, types[j]) ==> GetTypeDescriptor(policy, types[j]) != Some(d)
    ensures r.None? ==> forall j :: 0 <= j < |types| && IsAssignableFrom(root, types[j]) ==> GetTypeDescriptor(policy, types[j]) != Some(d)
    decreases |types|
  {
    if types == [] then None
    else
      var n := |types| - 1;
      if IsAssignableFrom(root, types[n]) && GetTypeDescriptor(policy, types[n]) == Some(d) then Some(n)
      else
        var r := LastDescribed(root, policy, types[..n], d);
        assert forall j :: 0 <= j < n ==> types[..n][j] == types[j];
        r
  }

  /**
   * The descriptor table holds exactly the descriptors of scanned types assignable to the root,
   * each leading to the last such type that has it.
   */
  lemma {:induction false} DescriptorTable(root: ClrType, policy: Policy, types: seq<ClrType>, d: string)
    requires Scan(root, policy, types).Ok?
    ensures var table := Scan(root, policy, types).value.descriptorToType;
      && (d in table <==> LastDescribed(root, policy, types, d).Some?)
      && (d in table ==> table[d] == types[LastDescribed(root, policy, types, d).value])
    decreases |types|
  {
    if types != [] {
      var n := |types| - 1;
      var init := types[..n];
      assert Scan(root, policy, init).Ok?;
      DescriptorTable(root, policy, init, d);
      forall j | 0 <= j < n ensures init[j] == types[j] {
      }
    }
  }

  /** Two scanned types with one descriptor: both keep their descriptor, the later one takes the descriptor. */
  lemma DuplicateDescriptorOverwrites(root: ClrType, policy: Policy, a: ClrType, b: ClrType, d: string)
    requires a != b && IsAssignableFrom(root, a) && IsAssignableFrom(root, b)
    requires GetTypeDescriptor(policy, a) == Some(d) && GetTypeDescriptor(policy, b) == Some(d)
    ensures Scan(root, policy, [a, b]).Ok?
    ensures var reg := Scan(root, policy, [a, b]).value;
      reg.descriptorToType == map[d := b] && reg.typeToDescriptor == map[a := d, b := d]
  {
    var one := Registry(root, policy, map[d := a], map[a := d]);
    ScanSingle(root, policy, a, d);
    assert [a, b][..1] == [a];
    assert Scan(root, policy, [a, b]) == ScanStep(one, b);
    assert map[d := a][d := b] == map[d := b];
  }

  /** Scanning one assignable type with a descriptor maps the two to each other. */
  lemma ScanSingle(root: ClrType, policy: Policy, a: ClrType, d: string)
    requires IsAssignableFrom(root, a) && GetTypeDescriptor(policy, a) == Some(d)
    ensures Scan(root, policy, [a]) == Ok(Registry(root, policy, map[d := a], map[a := d]))
  {
    assert [a][..0] == [];
    assert Scan(root, policy, [a]) == ScanStep(Registry(root, policy, map[], map[]), a);
  }

  /**
   * The closest type: the type of the first of d, its parent, its parent's parent, ... that is
   * mapped; None once the policy finds no parent, whatever FallbackToRootType says.
   */
  function ClosestType(reg: Registry, d: string): (r: Option<ClrType>)
    requires Valid(reg.policy)
    ensures r.Some? ==> exists k :: k in reg.descriptorToType && reg.descriptorToType[k] == r.value
    decreases |d|
  {
    if d in reg.descriptorToType then Some(reg.descriptorToType[d])
    else match TryGetParentDescriptor(reg.policy, d)
      case None => None
      case Some(parent) => ClosestType(reg, parent)
  }

  /** TryGetClosestType: the loop over parent descriptors. */
  method TryGetClosestType(reg: Registry, d: string) returns (r: Option<ClrType>)
    requires Valid(reg.policy)
    ensures r == ClosestType(reg, d)
  {
    var current := d;
    while current !in reg.descriptorToType
      invariant ClosestType(reg, current) == ClosestType(reg, d)
      decreases |current|
    {
      var parent := TryGetParentDescriptor(reg.policy, current);
      if parent.None? {
        return None;
      }
      current := parent.value;
    }
    r := Some(reg.descriptorToType[current]);
  }

  /** A mapped type that no later type overwrote is found again from its own descriptor. */
  lemma ClosestTypeOfScannedType(root: ClrType, policy: Policy, types: seq<ClrType>, i: nat, d: string)
    requires Valid(policy) && Scan(root, policy, types).Ok?
    requires i < |types| && IsAssignableFrom(root, types[i]) && GetTypeDescriptor(policy, types[i]) == Some(d)
    requires forall j :: i < j < |types| && IsAssignableFrom(root, types[j]) ==> GetTypeDescriptor(policy, types[j]) != Some(d)
    ensures ClosestType(Scan(root, policy, types).value, d) == Some(types[i])
  {
    DescriptorLastWins(root, policy, types, i, d);
  }

  /**
   * Forward compatibility, root first: a mapped descriptor extended by any number of unknown
   * tokens (each avoiding the separator, none of the intermediate descriptors mapped) resolves
   * to the type of the mapped one.
   */
  lemma {:induction false} ClosestTypeOfExtendedDescriptor(reg: Registry, d: string, tokens: seq<string>)
    requires Valid(reg.policy) && HierarchyMode(reg.policy) == AbstractFirst
    requires forall i :: 0 <= i < |tokens| ==> SharesNoChar(tokens[i], TypeSeparator(reg.policy))
    requires d in reg.descriptorToType
    requires forall k :: 0 < k <= |tokens| ==> Join(TypeSeparator(reg.policy), [d] + tokens[..k]) !in reg.descriptorToType
    ensures ClosestType(reg, Join(TypeSeparator(reg.policy), [d] + tokens)) == Some(reg.descriptorToType[d])
    decreases |tokens|
  {
    var sep := TypeSeparator(reg.policy);
    if tokens == [] {
      assert [d] + tokens == [d];
    } else {
      var n := |tokens| - 1;
      var init := tokens[..n];
      assert [d] + tokens == ([d] + init) + [tokens[n]];
      assert tokens[..n + 1] == tokens;
      JoinSnoc(sep, [d] + init, tokens[n]);
      ParentOfExtended(reg.policy, Join(sep, [d] + init), tokens[n]);
      forall k | 0 < k <= |init| ensures Join(sep, [d] + init[..k]) !in reg.descriptorToType {
        assert init[..k] == tokens[..k];
      }
      ClosestTypeOfExtendedDescriptor(reg, d, init);
    }
  }

  /**
   * Forward compatibility, derived first: unknown leaf tokens put in front of a mapped
   * descriptor resolve to the type of the mapped one, provided the separator is one character
   * long (a longer one is mishandled by the code, see ExtendedDescriptorMissedAsWritten).
   */
  lemma {:induction false} ClosestTypeOfPrependedDescriptor(reg: Registry, tokens: seq<string>, d: string)
    requires Valid(reg.policy) && HierarchyMode(reg.policy) == DerivedFirst && |TypeSeparator(reg.policy)| == 1
    requires forall i :: 0 <= i < |tokens| ==> SharesNoChar(tokens[i], TypeSeparator(reg.policy))
    requires d in reg.descriptorToType
    requires forall k :: 0 <= k < |tokens| ==> Join(TypeSeparator(reg.policy), tokens[k..] + [d]) !in reg.descriptorToType
    ensures ClosestType(reg, Join(TypeSeparator(reg.policy), tokens + [d])) == Some(reg.descriptorToType[d])
    decreases |tokens|
  {
    var sep := TypeSeparator(reg.policy);
    if tokens == [] {
      assert tokens + [d] == [d];
    } else {
      var tail := tokens[1..];
      assert tokens + [d] == [tokens[0]] + (tail + [d]);
      assert tokens[0..] == tokens;
      JoinCons(sep, tokens[0], tail + [d]);
      ParentOfPrepended(reg.policy, tokens[0], Join(sep, tail + [d]));
      forall k | 0 <= k < |tail| ensures Join(sep, tail[k..] + [d]) !in reg.descriptorToType {
        assert tail[k..] == tokens[k + 1..];
      }
      ClosestTypeOfPrependedDescriptor(reg, tail, d);
    }
  }

  /**
   * With the separator "::", derived first, the code's parent of "B::A" is ":A", so an unknown
   * leaf in front of the mapped "A" finds nothing.
   */
  lemma ExtendedDescriptorMissedAsWritten(root: ClrType, a: ClrType)
    ensures var reg := Registry(root, ClassNameBased(ClassNameBasedTypeDescriptorPolicy.ClassNamePolicy("::", DerivedFirst, false)), map["A" := a], map[a := "A"]);
      Valid(reg.policy) && ClosestType(reg, "B::A") == None
  {
    var reg := Registry(root, ClassNameBased(ClassNameBasedTypeDescriptorPolicy.ClassNamePolicy("::", DerivedFirst, false)), map["A" := a], map[a := "A"]);
    ClassNameBasedTypeDescriptorPolicy.AsWrittenKeepsSeparatorTail();
    assert "B::A" != "A";
    assert TryGetParentDescriptor(reg.policy, "B::A") == Some(":A");
    assert ":A" != "A";
    assert !OccursAt(":A", "::", 0) by {
      assert ":A"[0..2][1] != "::"[1];
    }
  }

  /** An unmapped descriptor with no separator finds nothing, even under a falling-back policy. */
  lemma NoRootFallback(reg: Registry, d: string)
    requires Valid(reg.policy) && d !in reg.descriptorToType
    requires forall j :: !OccursAt(d, TypeSeparator(reg.policy), j)
    ensures ClosestType(reg, d) == None
  {
  }
}
