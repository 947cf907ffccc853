/** ConvertAclData as the library keeps it (src/general.c): buffers that are filled and reset, and the
    caller's array of grants. Its methods are the transitions of module AclParser. */
module ConvertAclData {
  import opened Strings
  import opened Status
  import opened StringBuffers
  import opened XmlDocuments
  import opened XmlRecords
  import opened AclDocuments
  import opened AclParser

  class ConvertAclData {
    var ownerId: StrBuf
    var ownerDisplayName: StrBuf
    const aclGrants: array<Grant>
    var aclGrantCount: nat
    var emailAddress: StrBuf
    var userId: StrBuf
    var userDisplayName: StrBuf
    var groupUri: StrBuf
    var permission: StrBuf

    ghost predicate Valid()
      reads this
    {
      aclGrants.Length == MAX_GRANTS && aclGrantCount <= MAX_GRANTS
    }

    ghost function Model(): (acc: AclAcc)
      reads this, aclGrants
      requires Valid()
      ensures |acc.fields| == 7
    {
      Acc([ownerId, ownerDisplayName] + [emailAddress, userId, userDisplayName, groupUri, permission],
          aclGrants[..aclGrantCount])
    }

    /** The initialisation in S3_convert_acl. */
    constructor (aclGrants: array<Grant>)
      requires aclGrants.Length == MAX_GRANTS
      ensures Valid() && Model() == INITIAL && this.aclGrants == aclGrants
    {
      this.aclGrants := aclGrants;
      ownerId, ownerDisplayName, aclGrantCount := Empty(127), Empty(127), 0;
      emailAddress, userId, userDisplayName, groupUri, permission :=
        Empty(128), Empty(128), Empty(128), Empty(128), Empty(32);
    }

    /** Text that has arrived goes to the buffer of its element. */
    method AddText(path: string, data: string) returns (status: S3Status)
      requires Valid()
      modifies this`ownerId, this`ownerDisplayName, this`emailAddress, this`userId, this`userDisplayName
      modifies this`groupUri, this`permission
      ensures Valid()
      ensures var r := Store(Buffers(), old(Model()).fields, path, data);
        Model() == old(Model()).(fields := r.0) && status == r.1
    {
      hide PathOf, Buffers;
      Overflows();
      ghost var fields := Model().fields;
      var fit := true;
      var which := Find(Buffers(), path);
      match which {
        case 0 =>
          fit, ownerId := ownerId.Fits(data), ownerId.Append(data);
        case 1 =>
          fit, ownerDisplayName := ownerDisplayName.Fits(data), ownerDisplayName.Append(data);
        case 2 =>
          fit, emailAddress := emailAddress.Fits(data), emailAddress.Append(data);
        case 3 =>
          fit, userId := userId.Fits(data), userId.Append(data);
        case 4 =>
          fit, userDisplayName := userDisplayName.Fits(data), userDisplayName.Append(data);
        case 5 =>
          fit, groupUri := groupUri.Fits(data), groupUri.Append(data);
        case 6 =>
          fit, permission := permission.Fits(data), permission.Append(data);
        case _ =>
      }
      status := if fit then OK else Buffers()[which].overflow;
      assert which < 7 ==> forall i :: 0 <= i < 7 ==>
        Model().fields[i] == fields[which := fields[which].Append(data)][i];
    }

    /** A Grant element has ended. */
    method FinishGrant() returns (status: S3Status)
      requires Valid()
      modifies this`aclGrantCount, this`emailAddress, this`userId, this`userDisplayName, this`groupUri, this`permission
      modifies aclGrants
      ensures Valid() && (Model(), status) == AddGrant(old(Model()))
    {
      hide PermissionOf;
      ghost var acc := Model();
      if aclGrantCount == MAX_GRANTS {
        return TooManyGrants;
      }
      var grantee: Grantee := AllUsers;
      if emailAddress.text != "" {
        grantee := AmazonCustomerByEmail(emailAddress.text);
      } else if userId.text != "" && userDisplayName.text != "" {
        grantee := CanonicalUser(userId.text, userDisplayName.text);
      } else if groupUri.text != "" {
        if groupUri.text == ACS_GROUP_AWS_USERS {
          grantee := AllAwsUsers;
        } else if groupUri.text == ACS_GROUP_ALL_USERS {
          grantee := AllUsers;
        } else if groupUri.text == ACS_GROUP_LOG_DELIVERY {
          grantee := LogDelivery;
        } else {
          return BadGrantee;
        }
      } else {
        return BadGrantee;
      }
      var p := PermissionOf(permission.text);
      if p.None? {
        return BadPermission;
      }
      aclGrants[aclGrantCount] := Grant(grantee, p.value);
      aclGrantCount := aclGrantCount + 1;
      emailAddress, userId, userDisplayName, groupUri, permission :=
        Empty(128), Empty(128), Empty(128), Empty(128), Empty(32);
      assert Model().fields == acc.fields[..2] + BLANK_GRANT;
      assert Model().state == acc.state + [Grant(grantee, p.value)];
      status := OK;
    }

    /** convertAclXmlCallback */
    method XmlCallback(path: string, data: Option<string>) returns (status: S3Status)
      requires Valid()
      modifies this, aclGrants
      ensures Valid() && (Model(), status) == AclParser.XmlCallback()(path, data, old(Model()))
    {
      hide PathOf, AddGrant, Store, Buffers;
      Overflows();
      status := OK;
      match data
      case Some(text) =>
        status := AddText(path, text);
      case None =>
        if path == PathOf(GRANT) {
          status := FinishGrant();
        }
    }
  }

  lemma Overflows()
    ensures |Buffers()| == 7 && forall i :: 0 <= i < 7 ==> Buffers()[i].overflow != OK
  {}

}
