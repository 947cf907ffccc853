/** Access control lists and the XML document that is printed for one (src/bucket_metadata.c). */
module AclDocuments {
  import opened XmlDocuments
  import opened XmlText

  datatype Grantee =
    | AmazonCustomerByEmail(emailAddress: string)
    | CanonicalUser(id: string, displayName: string)
    | AllAwsUsers
    | AllUsers
    | LogDelivery

  datatype Permission = Read | Write | ReadACP | WriteACP | FullControl

  /** S3AclGrant */
  datatype Grant = Grant(grantee: Grantee, permission: Permission)

  datatype Acl = Acl(ownerId: string, ownerDisplayName: string, grants: seq<Grant>)

  /** ACS_GROUP_AWS_USERS and its companions of inc/util.h */
  const ACS_URL := "http://acs.amazonaws.com/" + "groups/"
  const ACS_GROUP_ALL_USERS := ACS_URL + "global/AllUsers"
  const ACS_GROUP_AWS_USERS := ACS_URL + "global/AuthenticatedUsers"
  const ACS_GROUP_LOG_DELIVERY := ACS_URL + "s3/LogDelivery"

  function PermissionName(p: Permission): string {
    match p
    case Read => "READ"
    case Write => "WRITE"
    case ReadACP => "READ_ACP"
    case WriteACP => "WRITE_ACP"
    case FullControl => "FULL_CONTROL"
  }

  /** The URI of a group grantee. */
  function GroupUri(g: Grantee): string {
    if g.AllAwsUsers? then ACS_GROUP_AWS_USERS
    else if g.AllUsers? then ACS_GROUP_ALL_USERS
    else ACS_GROUP_LOG_DELIVERY
  }

  // ---------------------------------------------------------------- the document as a tree

  function GranteeTree(g: Grantee): Forest {
    match g
    case AmazonCustomerByEmail(e) => Leaf("EmailAddress", e, Nil)
    case CanonicalUser(id, name) => Leaf("ID", id, Leaf("DisplayName", name, Nil))
    case _ => Leaf("URI", GroupUri(g), Nil)
  }

  function GrantTree(g: Grant): Forest {
    Elem("Grantee", GranteeTree(g.grantee), Leaf("Permission", PermissionName(g.permission), Nil))
  }

  function GrantsTree(gs: seq<Grant>): Forest {
    if gs == [] then Nil else Elem("Grant", GrantTree(gs[0]), GrantsTree(gs[1..]))
  }

  function OwnerTree(id: string, displayName: string): Forest {
    Leaf("ID", id, Leaf("DisplayName", displayName, Nil))
  }

  function PolicyTree(acl: Acl): Forest {
    Elem("Owner", OwnerTree(acl.ownerId, acl.ownerDisplayName), Elem("AccessControlList", GrantsTree(acl.grants), Nil))
  }

  function AclTree(acl: Acl): Forest { Elem("AccessControlPolicy", PolicyTree(acl), Nil) }
}
