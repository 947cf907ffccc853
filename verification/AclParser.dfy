/** convertAclXmlCallback and S3_convert_acl (src/general.c): an access control list read from XML. */
module AclParser {
  import opened Strings
  import opened Status
  import opened StringBuffers
  import opened SimpleXml
  import opened XmlDocuments
  import opened XmlRecords
  import opened AclDocuments

  /** S3_MAX_ACL_GRANT_COUNT */
  const MAX_GRANTS: nat := 100

  const POLICY := ["AccessControlPolicy"]
  const OWNER := POLICY + ["Owner"]
  const LIST := POLICY + ["AccessControlList"]
  const GRANT := LIST + ["Grant"]
  const GRANTEE := GRANT + ["Grantee"]

  /** The owner's strings are limited by the caller's arrays of 128 characters, of which the printing
      leaves the last one unused; the others are string buffers of ConvertAclData. */
  function Buffers(): Schema {
    [
      Field(OWNER + ["ID"], 127, UserIdTooLong),
      Field(OWNER + ["DisplayName"], 127, UserDisplayNameTooLong),
      Field(GRANTEE + ["EmailAddress"], 128, EmailAddressTooLong),
      Field(GRANTEE + ["ID"], 128, UserIdTooLong),
      Field(GRANTEE + ["DisplayName"], 128, UserDisplayNameTooLong),
      Field(GRANTEE + ["URI"], 128, GroupUriTooLong),
      Field(GRANT + ["Permission"], 32, PermissionTooLong)
    ]
  }

  type AclAcc = Acc<seq<Grant>>

  const BLANK_GRANT: Fields := [Empty(128), Empty(128), Empty(128), Empty(128), Empty(32)]
  const INITIAL: AclAcc := Acc([Empty(127), Empty(127)] + BLANK_GRANT, [])

  /** The grantee that the four buffers describe, if they describe one. */
  function GranteeOf(email: string, id: string, displayName: string, uri: string): Option<Grantee> {
    if email != "" then Some(AmazonCustomerByEmail(email))
    else if id != "" && displayName != "" then Some(CanonicalUser(id, displayName))
    else if uri == ACS_GROUP_AWS_USERS then Some(AllAwsUsers)
    else if uri == ACS_GROUP_ALL_USERS then Some(AllUsers)
    else if uri == ACS_GROUP_LOG_DELIVERY then Some(LogDelivery)
    else None
  }

  function PermissionOf(name: string): Option<Permission> {
    if name == "READ" then Some(Read)
    else if name == "WRITE" then Some(Write)
    else if name == "READ_ACP" then Some(ReadACP)
    else if name == "WRITE_ACP" then Some(WriteACP)
    else if name == "FULL_CONTROL" then Some(FullControl)
    else None
  }

  /** The end of a Grant element. */
  function AddGrant(acc: AclAcc): (AclAcc, S3Status)
    requires |acc.fields| == 7
  {
    if |acc.state| == MAX_GRANTS then (acc, TooManyGrants)
    else
      var grantee := GranteeOf(acc.fields[2].text, acc.fields[3].text, acc.fields[4].text, acc.fields[5].text);
      var permission := PermissionOf(acc.fields[6].text);
      if grantee.None? then (acc, BadGrantee)
      else if permission.None? then (acc, BadPermission)
      else (Acc(acc.fields[..2] + BLANK_GRANT, acc.state + [Grant(grantee.value, permission.value)]), OK)
  }

  function EndElement(): OnEnd<seq<Grant>> {
    (path: string, acc: AclAcc) =>
      if path == PathOf(GRANT) && |acc.fields| == 7 then AddGrant(acc) else (acc, OK)
  }

  /** convertAclXmlCallback */
  function XmlCallback(): Callback<AclAcc> { Reader(Buffers(), EndElement()) }

  /** S3_convert_acl; the scanner stands for libxml2. */
  function Converted(acc: AclAcc): Acl
    requires |acc.fields| == 7
  {
    Acl(acc.fields[0].text, acc.fields[1].text, acc.state)
  }

  // ---------------------------------------------------------------- the buffers

  lemma PolicyNames()
    ensures GoodName("AccessControlPolicy") && GoodName("Owner") && GoodName("AccessControlList")
    ensures GoodName("Grant") && GoodName("Grantee")
  {}

  lemma LeafNames()
    ensures GoodName("ID") && GoodName("DisplayName") && GoodName("EmailAddress") && GoodName("URI")
    ensures GoodName("Permission")
  {}

  const CODES := [(3, 2, 'I'), (3, 11, 'D'), (5, 12, 'E'), (5, 2, 'I'), (5, 11, 'D'), (5, 3, 'U'), (4, 10, 'P')]

  lemma BufferCodes()
    ensures forall i :: 0 <= i < 7 ==> Code(Buffers()[i].names) == CODES[i]
  {}

  lemma BufferStacks()
    ensures GoodStack(POLICY) && GoodStack(OWNER) && GoodStack(LIST) && GoodStack(GRANT) && GoodStack(GRANTEE)
    ensures forall i :: 0 <= i < 7 ==> GoodStack(Buffers()[i].names)
  {
    hide GoodName;
    PolicyNames();
    LeafNames();
  }

  lemma BuffersValid()
    ensures ValidSchema(Buffers()) && |Buffers()| == 7
    ensures GoodStack(POLICY) && GoodStack(OWNER) && GoodStack(LIST) && GoodStack(GRANT)
  {
    hide GoodName, Code, GoodStack;
    BufferStacks();
    BufferCodes();
    DistinctByCode(Buffers(), CODES);
  }

  lemma GrantPath(stack: seq<string>)
    requires GoodStack(stack)
    ensures PathOf(stack) == PathOf(GRANT) <==> stack == GRANT
  {
    BuffersValid();
    hide PathOf, GoodStack, Buffers;
    PathsDistinct(stack, GRANT);
  }

  /** Inside the owner and inside a grant, no end of an element does anything. */
  lemma QuietInside(at: seq<string>)
    requires GoodStack(at) && (|at| >= 3 || (|at| == 2 && at[1] == "Owner"))
    ensures Quiet(EndElement(), at)
  {
    hide PathOf, GoodStack, AddGrant, Buffers;
    forall inner: seq<string>, acc: AclAcc | at < inner && GoodStack(inner)
      ensures EndElement()(PathOf(inner), acc) == (acc, OK)
    {
      GrantPath(inner);
      assert |inner| > |at| && inner[1] == at[1];
    }
  }

  // ---------------------------------------------------------------- chunks

  lemma AddGrantKeeps(acc: AclAcc)
    requires ValidFields(Buffers(), acc.fields) && |acc.fields| == 7
    ensures ValidFields(Buffers(), AddGrant(acc).0.fields)
  {
    hide GranteeOf, PermissionOf;
  }

  /** However the text of a document is cut into chunks, the outcome is the same. */
  lemma ConvertIgnoresChunks(f: Forest, g: Forest)
    requires Merge(f) == Merge(g)
    ensures Eval(XmlCallback(), [], INITIAL, f) == Eval(XmlCallback(), [], INITIAL, g)
  {
    hide Eval, Merge, Additive, Preserves, ValidFields, Buffers, AddGrant, PathOf;
    forall path: string, acc: AclAcc | ValidFields(Buffers(), acc.fields)
      ensures ValidFields(Buffers(), EndElement()(path, acc).0.fields)
    {
      if |acc.fields| == 7 { AddGrantKeeps(acc); }
    }
    ReaderAdditive(Buffers(), EndElement());
    InitialValid();
    SameTextSameResult(XmlCallback(), Intact(Buffers()), [], INITIAL, f, g);
  }

  lemma InitialValid()
    ensures ValidFields(Buffers(), INITIAL.fields) && |INITIAL.fields| == 7
  {}
}
