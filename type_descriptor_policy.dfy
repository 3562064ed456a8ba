/**
 * The descriptor policy contract: its configuration values and its two operations, for the two
 * policies of the repository (class names, and the events example's topics).
 */
module TypeDescriptorPolicy {
  import opened Wrappers
  import opened Strings
  import opened ClrTypes
  import opened TypeHierarchyModes
  import opened TopicMappings
  import opened ClassNameBasedTypeDescriptorPolicy
  import EvenTypeDescriptorPolicy

  datatype Policy =
    | ClassNameBased(classNames: ClassNamePolicy)
    | EventTopics(topics: Topics)

  /** The default policy: full class names joined by ':', root first. */
  const Default := ClassNameBased(ClassNamePolicy(":", AbstractFirst, true))

  function TypeSeparator(p: Policy): string
  {
    match p
    case ClassNameBased(c) => c.typeSeparator
    case EventTopics(_) => EvenTypeDescriptorPolicy.Separator
  }

  function HierarchyMode(p: Policy): TypeHierarchyMode
  {
    match p
    case ClassNameBased(c) => c.typeHierarchyMode
    case EventTopics(_) => AbstractFirst
  }

  /** The descriptor is metadata (true) or a property of the type named by TypeDescriptorPropertyName (false). */
  predicate IsTypeDescriptorMetaData(p: Policy)
  {
    p.ClassNameBased?
  }

  function TypeDescriptorPropertyName(p: Policy): string
  {
    if p.ClassNameBased? then "__type__" else "Topic"
  }

  predicate FallbackToRootType(p: Policy)
  {
    p.EventTopics?
  }

  /** Descriptors can be split: the separator is not empty. */
  predicate Valid(p: Policy)
  {
    |TypeSeparator(p)| > 0
  }

  /** GetTypeDescriptor; None stands for null, which only the topic policy returns. */
  function GetTypeDescriptor(p: Policy, t: ClrType): (r: Option<string>)
    ensures p.ClassNameBased? ==> r.Some?
  {
    match p
    case ClassNameBased(c) => Some(ClassNameBasedTypeDescriptorPolicy.GetTypeDescriptor(c, t))
    case EventTopics(topics) => EvenTypeDescriptorPolicy.GetTypeDescriptor(topics, t)
  }

  /**
   * TryGetParentDescriptor: true exactly when a parent is produced, and a parent is strictly
   * shorter. The class-name policy's code is taken as written (see TryGetParentDescriptorAsWritten).
   */
  function TryGetParentDescriptor(p: Policy, d: string): (r: Option<string>)
    requires Valid(p)
    ensures r.None? <==> forall j :: !OccursAt(d, TypeSeparator(p), j)
    ensures r.Some? ==> |r.value| < |d|
  {
    match p
    case ClassNameBased(c) => ClassNameBasedTypeDescriptorPolicy.TryGetParentDescriptorAsWritten(c, d)
    case EventTopics(_) => EvenTypeDescriptorPolicy.TryGetParentDescriptor(d)
  }

  /**
   * The default configuration: ':' root first with full names, the descriptor as metadata
   * under "__type__", and no fallback to the root type.
   */
  lemma DefaultConfiguration()
    ensures Valid(Default) && TypeSeparator(Default) == ":" && HierarchyMode(Default) == AbstractFirst
    ensures IsTypeDescriptorMetaData(Default) && TypeDescriptorPropertyName(Default) == "__type__"
    ensures !FallbackToRootType(Default)
  {
  }

  /** The topic policy: '.' root first, the descriptor in the Topic property, falling back to the root. */
  lemma EventConfiguration(topics: Topics)
    ensures var p := EventTopics(topics);
      Valid(p) && TypeSeparator(p) == "." && HierarchyMode(p) == AbstractFirst
      && !IsTypeDescriptorMetaData(p) && TypeDescriptorPropertyName(p) == "Topic" && FallbackToRootType(p)
  {
  }

  /**
   * In root-first order, a descriptor extended by a separator and a token that avoids the
   * separator has the original descriptor as its parent, under either policy.
   */
  lemma ParentOfExtended(p: Policy, d: string, token: string)
    requires Valid(p) && HierarchyMode(p) == AbstractFirst
    requires SharesNoChar(token, TypeSeparator(p))
    ensures TryGetParentDescriptor(p, d + TypeSeparator(p) + token) == Some(d)
  {
    LastIndexOfBeforeLast(d, TypeSeparator(p), token);
    assert (d + TypeSeparator(p) + token)[..|d|] == d;
  }

  /**
   * In derived-first order, with a one-character separator, a token that avoids the separator
   * put in front of a descriptor is removed again by one parent step. A longer separator leaves
   * its tail in front of the parent (AsWrittenKeepsSeparatorTail).
   */
  lemma ParentOfPrepended(p: Policy, token: string, d: string)
    requires Valid(p) && HierarchyMode(p) == DerivedFirst && |TypeSeparator(p)| == 1
    requires SharesNoChar(token, TypeSeparator(p))
    ensures TryGetParentDescriptor(p, token + TypeSeparator(p) + d) == Some(d)
  {
    IndexOfAfterFirst(token, TypeSeparator(p), d);
    assert (token + TypeSeparator(p) + d)[|token| + 1..] == d;
  }
}
