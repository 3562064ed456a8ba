/**
 * The unknown-member store attached to an extensible object: the type descriptor when it is
 * metadata, and the unknown members by position.
 */
module ExtensionDataStore {
  import opened Wrappers
  import opened ExtensionMembers

  class ExtensionData {
    /** TypeDescriptor; None is null. */
    var typeDescriptor: Option<string>
    /** ExtensionMembers: the dictionary itself is never replaced, only updated. */
    var extensionMembers: map<int, ExtensionMember>

    /** Each member is stored under a key equal to its own Index. */
    ghost predicate Valid()
      reads this
    {
      forall k :: k in extensionMembers ==> extensionMembers[k].index == k
    }

    constructor ()
      ensures Valid() && typeDescriptor == None && extensionMembers == map[]
    {
      typeDescriptor := None;
      extensionMembers := map[];
    }

    method SetTypeDescriptor(d: Option<string>)
      modifies this
      ensures typeDescriptor == d && extensionMembers == old(extensionMembers)
    {
      typeDescriptor := d;
    }

    /** ExtensionMembers[member.Index] = member. */
    method Store(member: ExtensionMember)
      requires Valid()
      modifies this
      ensures Valid()
      ensures extensionMembers == old(extensionMembers)[member.index := member]
      ensures typeDescriptor == old(typeDescriptor)
    {
      extensionMembers := extensionMembers[member.index := member];
    }
  }
}
