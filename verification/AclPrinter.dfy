/** generateAclXmlDocument (src/bucket_metadata.c): the document is printed piece by piece into a
    buffer of fixed size. */
module AclPrinter {
  import opened Strings
  import opened Status
  import opened StringBuffers
  import opened XmlDocuments
  import opened XmlText
  import opened AclDocuments

  // ---------------------------------------------------------------- the pieces, as they are printed

  function Head(ownerId: string, ownerDisplayName: string): string {
    OpenTag("AccessControlPolicy")
    + (OpenTag("Owner") + (Element("ID", ownerId) + Element("DisplayName", ownerDisplayName)) + CloseTag("Owner"))
    + OpenTag("AccessControlList")
  }

  const GRANT_START := OpenTag("Grant") + ("<" + GRANTEE_ATTRIBUTES)

  function GranteePiece(g: Grantee): string {
    match g
    case AmazonCustomerByEmail(e) => "AmazonCustomerByEmail" + ("\"" + ">") + Element("EmailAddress", e)
    case CanonicalUser(id, name) => "CanonicalUser" + ("\"" + ">") + (Element("ID", id) + Element("DisplayName", name))
    case _ => "Group" + ("\"" + ">") + Element("URI", GroupUri(g))
  }

  function GrantEnd(p: Permission): string {
    CloseTag("Grantee") + Element("Permission", PermissionName(p)) + CloseTag("Grant")
  }

  const TAIL := CloseTag("AccessControlList") + CloseTag("AccessControlPolicy")

  function GrantText(g: Grant): string {
    GRANT_START + GranteePiece(g.grantee) + GrantEnd(g.permission)
  }

  function GrantsText(gs: seq<Grant>): string {
    if gs == [] then "" else GrantText(gs[0]) + GrantsText(gs[1..])
  }

  function AclText(acl: Acl): string {
    Head(acl.ownerId, acl.ownerDisplayName) + GrantsText(acl.grants) + TAIL
  }

  lemma {:induction false} GrantsTextSnoc(gs: seq<Grant>, g: Grant)
    ensures GrantsText(gs + [g]) == GrantsText(gs) + GrantText(g)
  {
    hide GrantText;
    if gs == [] {
      assert gs + [g] == [g];
      assert GrantsText([g]) == GrantText(g) + GrantsText([]) == GrantText(g);
    } else {
      GrantsTextSnoc(gs[1..], g);
      assert (gs + [g])[1..] == gs[1..] + [g];
    }
  }

  // ---------------------------------------------------------------- the text, written out

  lemma PolicyTags()
    ensures OpenTag("AccessControlPolicy") == "<AccessControlPolicy>" && OpenTag("Owner") == "<Owner>"
    ensures CloseTag("Owner") == "</Owner>"
  {}

  lemma ListTags()
    ensures OpenTag("AccessControlList") == "<AccessControlList>"
    ensures CloseTag("AccessControlList") == "</AccessControlList>"
    ensures CloseTag("AccessControlPolicy") == "</AccessControlPolicy>"
  {}

  lemma UserTags()
    ensures OpenTag("ID") == "<ID>" && CloseTag("ID") == "</ID>" && OpenTag("DisplayName") == "<DisplayName>"
    ensures CloseTag("DisplayName") == "</DisplayName>"
  {}

  lemma GroupTags()
    ensures OpenTag("EmailAddress") == "<EmailAddress>" && CloseTag("EmailAddress") == "</EmailAddress>"
    ensures OpenTag("URI") == "<URI>" && CloseTag("URI") == "</URI>"
  {}

  lemma GrantTags()
    ensures OpenTag("Grant") == "<Grant>" && CloseTag("Grant") == "</Grant>" && CloseTag("Grantee") == "</Grantee>"
  {}

  lemma PermissionTags()
    ensures OpenTag("Permission") == "<Permission>" && CloseTag("Permission") == "</Permission>"
  {}

  /** The document, tag by tag. */
  lemma PrintedPolicy(acl: Acl)
    ensures AclText(acl)
      == "<AccessControlPolicy>"
         + ("<Owner>" + (("<ID>" + acl.ownerId + "</ID>")
                         + ("<DisplayName>" + acl.ownerDisplayName + "</DisplayName>")) + "</Owner>")
         + "<AccessControlList>" + GrantsText(acl.grants) + ("</AccessControlList>" + "</AccessControlPolicy>")
  {
    PolicyTags();
    ListTags();
    UserTags();
    hide OpenTag, CloseTag, GrantsText;
  }

  /** What is printed for a grant. */
  lemma PrintedGrant(g: Grant)
    ensures GrantText(g) == GRANT_START + GranteePiece(g.grantee) + GrantEnd(g.permission)
    ensures GRANT_START == "<Grant>" + ("<" + ("Grantee" + [' '] +
      ("xmlns:xsi=\"http://" + "www.w3.org/2001/" + "XMLSchema-instance\"" + " xsi:type=\"")))
    ensures GrantEnd(g.permission) == "</Grantee>" + ("<Permission>" +
      (match g.permission
       case Read => "READ" case Write => "WRITE" case ReadACP => "READ_ACP" case WriteACP => "WRITE_ACP"
       case FullControl => "FULL_CONTROL") + "</Permission>") + "</Grant>"
  {
    GrantTags();
    PermissionTags();
    hide OpenTag, CloseTag;
  }

  /** And for its grantee. */
  lemma PrintedGrantee(g: Grantee)
    ensures GranteePiece(g) ==
      match g
      case AmazonCustomerByEmail(e) =>
        "AmazonCustomerByEmail" + ("\"" + ">") + ("<EmailAddress>" + e + "</EmailAddress>")
      case CanonicalUser(id, name) =>
        "CanonicalUser" + ("\"" + ">")
        + (("<ID>" + id + "</ID>") + ("<DisplayName>" + name + "</DisplayName>"))
      case AllUsers =>
        "Group" + ("\"" + ">")
        + ("<URI>" + ("http://acs.amazonaws.com/" + "groups/" + "global/AllUsers") + "</URI>")
      case AllAwsUsers =>
        "Group" + ("\"" + ">")
        + ("<URI>" + ("http://acs.amazonaws.com/" + "groups/" + "global/AuthenticatedUsers") + "</URI>")
      case LogDelivery =>
        "Group" + ("\"" + ">")
        + ("<URI>" + ("http://acs.amazonaws.com/" + "groups/" + "s3/LogDelivery") + "</URI>")
  {
    UserTags();
    GroupTags();
    hide OpenTag, CloseTag;
  }

  // ---------------------------------------------------------------- the text is the tree

  lemma RenderGrantee(g: Grantee)
    ensures Render(GranteeTree(g)) == GranteeInside(g)
    ensures GranteeType(GranteeTree(g)) == GranteeKind(g)
    ensures GranteePiece(g) == GranteeKind(g) + ("\"" + ">") + GranteeInside(g)
  {
    hide Element, Render, GroupUri;
    RenderNil();
    match g
    case AmazonCustomerByEmail(e) =>
      RenderLeaf("EmailAddress", e, Nil);
      Nothing(Element("EmailAddress", e));
    case CanonicalUser(id, name) =>
      RenderLeaf("ID", id, Leaf("DisplayName", name, Nil));
      RenderLeaf("DisplayName", name, Nil);
      Nothing(Element("DisplayName", name));
    case _ =>
      RenderLeaf("URI", GroupUri(g), Nil);
      Nothing(Element("URI", GroupUri(g)));
  }

  function GranteeKind(g: Grantee): string {
    match g
    case AmazonCustomerByEmail(_) => "AmazonCustomerByEmail"
    case CanonicalUser(_, _) => "CanonicalUser"
    case _ => "Group"
  }

  function GranteeInside(g: Grantee): string {
    match g
    case AmazonCustomerByEmail(e) => Element("EmailAddress", e)
    case CanonicalUser(id, name) => Element("ID", id) + Element("DisplayName", name)
    case _ => Element("URI", GroupUri(g))
  }

  lemma Nested<T>(open: seq<T>, lt: seq<T>, attrs: seq<T>, kind: seq<T>, quote: seq<T>, gt: seq<T>, inside: seq<T>,
                  close: seq<T>, perm: seq<T>, end: seq<T>)
    ensures open + (lt + (attrs + kind + quote) + gt + inside + close + perm) + end
         == open + (lt + attrs) + (kind + (quote + gt) + inside) + (close + perm + end)
  {}

  lemma RenderGrant(g: Grant)
    ensures OpenTag("Grant") + Render(GrantTree(g)) + CloseTag("Grant") == GrantText(g)
  {
    hide Element, GranteePiece, GranteeInside, GranteeKind, GranteeType, GranteeTree, PermissionName, CloseTag;
    RenderGrantee(g.grantee);
    var kids, perm := GranteeTree(g.grantee), PermissionName(g.permission);
    RenderLeaf("Permission", perm, Nil);
    Nothing(Element("Permission", perm));
    Nested(OpenTag("Grant"), "<", GRANTEE_ATTRIBUTES, GranteeKind(g.grantee), "\"", ">", GranteeInside(g.grantee),
           CloseTag("Grantee"), Element("Permission", perm), CloseTag("Grant"));
  }

  lemma {:induction false} RenderGrants(gs: seq<Grant>)
    ensures Render(GrantsTree(gs)) == GrantsText(gs)
  {
    hide GrantText, GrantTree, OpenTag, CloseTag;
    if gs != [] {
      RenderGrants(gs[1..]);
      RenderGrant(gs[0]);
    }
  }

  lemma Policy<T>(a: seq<T>, owner: seq<T>, b: seq<T>, grants: seq<T>, c: seq<T>, d: seq<T>)
    ensures a + (owner + (b + grants + c)) + d == a + owner + b + grants + (c + d)
  {}

  /** What is printed is the text of the tree. */
  lemma PrintedIsRendered(acl: Acl)
    ensures Render(AclTree(acl)) == AclText(acl)
  {
    hide GrantsText, GrantsTree, Element, OpenTag, CloseTag, OwnerTree;
    var id, name := acl.ownerId, acl.ownerDisplayName;
    RenderOwner(id, name);
    RenderGrants(acl.grants);
    var list := Elem("AccessControlList", GrantsTree(acl.grants), Nil);
    Nothing(OpenTag("AccessControlList") + GrantsText(acl.grants) + CloseTag("AccessControlList"));
    assert Render(list) == OpenTag("AccessControlList") + GrantsText(acl.grants) + CloseTag("AccessControlList");
    assert Render(PolicyTree(acl)) == OpenTag("Owner") + Render(OwnerTree(id, name)) + CloseTag("Owner") + Render(list);
    Nothing(OpenTag("AccessControlPolicy") + Render(PolicyTree(acl)) + CloseTag("AccessControlPolicy"));
    Policy(OpenTag("AccessControlPolicy"), OpenTag("Owner") + Render(OwnerTree(id, name)) + CloseTag("Owner"),
           OpenTag("AccessControlList"), GrantsText(acl.grants), CloseTag("AccessControlList"),
             CloseTag("AccessControlPolicy"));
  }

  lemma RenderOwner(id: string, name: string)
    ensures Render(OwnerTree(id, name)) == Element("ID", id) + Element("DisplayName", name)
  {
    hide Element, Render;
    RenderNil();
    RenderLeaf("ID", id, Leaf("DisplayName", name, Nil));
    RenderLeaf("DisplayName", name, Nil);
    Nothing(Element("DisplayName", name));
  }

  // ---------------------------------------------------------------- printing into the buffer

  /** The buffer holds as much of the text as it can; one byte more than the terminator stays unused. */
  ghost predicate Keeps(mem: seq<char>, text: string) {
    0 < |mem| && |text| < |mem| && (text == "" || Holds(mem, 0, Filled(|mem| - 1, text).text))
  }

  /** The append macro, with the formatted text as its argument. */
  method Append(xmlDocument: array<char>, len: nat, piece: string, ghost text: string) returns (newLen: nat)
    requires 1 < xmlDocument.Length && len == |text| && Keeps(xmlDocument[..], text) && NUL !in piece
    modifies xmlDocument
    ensures newLen == |text + piece|
    ensures newLen < xmlDocument.Length ==> Keeps(xmlDocument[..], text + piece)
  {
    hide Holds, Printed, Filled;
    ghost var before := xmlDocument[..];
    var n := Snprintf(xmlDocument, len, xmlDocument.Length - len - 1, piece);
    PrintedKeeps(before, text, piece);
    newLen := len + n;
  }

  lemma PrintedKeeps(mem: seq<char>, text: string, piece: string)
    requires 1 < |mem| && Keeps(mem, text) && NUL !in piece
    ensures |text + piece| < |mem| ==> Keeps(Printed(mem, |text|, |mem| - |text| - 1, piece), text + piece)
  {
    hide Holds, Printed, Filled;
    var cap := |mem| - 1;
    var b := Filled(cap, text);
    FilledLength(cap, text);
    FilledAppend(cap, text, piece);
    if text == "" {
      FirstPrint(mem, piece);
      PrintedIntoBuffer(mem[0 := NUL], "", 0, cap, piece);
      assert "" + piece[..b.Room(|piece|)] == b.text + piece[..b.Room(|piece|)];
    } else {
      PrintedIntoBuffer(mem, b.text, |text|, |mem| - |text| - 1, piece);
    }
  }

  lemma FirstPrint(mem: seq<char>, piece: string)
    requires 1 < |mem|
    ensures Holds(mem[0 := NUL], 0, "")
    ensures Printed(mem[0 := NUL], 0, |mem| - 1, piece) == Printed(mem, 0, |mem| - 1, piece)
  {
    assert mem[..0] == mem[0 := NUL][..0];
  }

  lemma FilledLength(cap: nat, text: string)
    requires |text| <= cap
    ensures Filled(cap, text).len == |text| && (|text| < cap ==> Filled(cap, text).text == text)
    ensures |Filled(cap, text).text| == Stored(cap, |text|)
  {
    assert text[..|text|] == text;
  }

  /** The text of a grant is part of the text of all. */
  lemma {:induction false} GrantNulFree(gs: seq<Grant>, i: nat)
    requires NUL !in GrantsText(gs) && i < |gs|
    ensures NUL !in GrantText(gs[i])
    decreases |gs|
  {
    hide GrantText;
    if i > 0 { GrantNulFree(gs[1..], i - 1); }
  }

  /** The body of the loop: one grant. */
  method AppendGrant(xmlDocument: array<char>, len: nat, g: Grant, ghost text: string)
    returns (status: S3Status, newLen: nat)
    requires 1 < xmlDocument.Length && len == |text| && Keeps(xmlDocument[..], text) && NUL !in GrantText(g)
    modifies xmlDocument
    ensures status == (if |text + GrantText(g)| < xmlDocument.Length then OK else XmlDocumentTooLarge)
    ensures status == OK ==> newLen == |text + GrantText(g)| && Keeps(xmlDocument[..], text + GrantText(g))
  {
    hide Keeps, GranteePiece, GrantEnd;
    RegroupFour(text, GRANT_START, GranteePiece(g.grantee), GrantEnd(g.permission));
    newLen := Append(xmlDocument, len, GRANT_START, text);
    if newLen >= xmlDocument.Length {
      return XmlDocumentTooLarge, newLen;
    }
    newLen := Append(xmlDocument, newLen, GranteePiece(g.grantee), text + GRANT_START);
    if newLen >= xmlDocument.Length {
      return XmlDocumentTooLarge, newLen;
    }
    newLen := Append(xmlDocument, newLen, GrantEnd(g.permission), text + GRANT_START + GranteePiece(g.grantee));
    if newLen >= xmlDocument.Length {
      return XmlDocumentTooLarge, newLen;
    }
    status := OK;
  }

  lemma {:induction false} GrantsTextGrows(gs: seq<Grant>, i: nat)
    requires i <= |gs|
    ensures |GrantsText(gs[..i])| <= |GrantsText(gs)|
    decreases |gs|
  {
    hide GrantText;
    if i > 0 {
      assert gs[..i][0] == gs[0] && gs[..i][1..] == gs[1..][..i - 1];
      GrantsTextGrows(gs[1..], i - 1);
    }
  }

  method GenerateAclXmlDocument(ownerId: string, ownerDisplayName: string, grants: seq<Grant>, xmlDocument: array<char>)
    returns (status: S3Status, xmlDocumentLen: nat)
    requires xmlDocument.Length > 1
    requires NUL !in AclText(Acl(ownerId, ownerDisplayName, grants))
    modifies xmlDocument
    ensures var text := AclText(Acl(ownerId, ownerDisplayName, grants));
      && status == (if |text| < xmlDocument.Length then OK else XmlDocumentTooLarge)
      && (status == OK ==> xmlDocumentLen == |text| && Keeps(xmlDocument[..], text))
  {
    hide Keeps, Head, GrantText;
    ghost var head := Head(ownerId, ownerDisplayName);
    ghost var text := "";
    Nothing(head);
    KeepsNothing(xmlDocument[..]);
    xmlDocumentLen := Append(xmlDocument, 0, Head(ownerId, ownerDisplayName), "");
    if xmlDocumentLen >= xmlDocument.Length {
      return XmlDocumentTooLarge, xmlDocumentLen;
    }
    text := head;
    var i := 0;
    while i < |grants|
      invariant 0 <= i <= |grants| && xmlDocumentLen == |text| < xmlDocument.Length
      invariant text == head + GrantsText(grants[..i])
      invariant Keeps(xmlDocument[..], text)
    {
      GrantsTextGrows(grants, i + 1);
      GrantNulFree(grants, i);
      GrantsTextSnoc(grants[..i], grants[i]);
      assert grants[..i + 1] == grants[..i] + [grants[i]];
      RegroupFour(head, GrantsText(grants[..i]), GrantText(grants[i]), "");
      Nothing(text + GrantText(grants[i]));
      Nothing(GrantsText(grants[..i]) + GrantText(grants[i]));
      status, xmlDocumentLen := AppendGrant(xmlDocument, xmlDocumentLen, grants[i], text);
      if status != OK {
        return;
      }
      text := text + GrantText(grants[i]);
      i := i + 1;
    }
    assert grants[..i] == grants;
    xmlDocumentLen := Append(xmlDocument, xmlDocumentLen, TAIL, text);
    status := if xmlDocumentLen >= xmlDocument.Length then XmlDocumentTooLarge else OK;
  }

  lemma KeepsNothing(mem: seq<char>)
    requires |mem| > 1
    ensures Keeps(mem, "")
  {}

  // ---------------------------------------------------------------- the document fits

  /** Each string fits the array that the library keeps for it (S3AclGrant in inc/libs3.h). */
  predicate Storable(g: Grant) {
    match g.grantee
    case AmazonCustomerByEmail(e) => |e| <= 127
    case CanonicalUser(id, name) => |id| <= 127 && |name| <= 127
    case _ => true
  }

  lemma GroupUriLength(g: Grantee)
    ensures |GroupUri(g)| <= 60
  {}

  lemma GrantLength(g: Grant)
    requires Storable(g)
    ensures |GrantText(g)| <= 500
  {
    GroupUriLength(g.grantee);
    hide GroupUri;
  }

  lemma {:induction false} GrantsLength(gs: seq<Grant>)
    requires forall i :: 0 <= i < |gs| ==> Storable(gs[i])
    ensures |GrantsText(gs)| <= 500 * |gs|
  {
    hide GrantText, Storable;
    if gs != [] {
      GrantLength(gs[0]);
      GrantsLength(gs[1..]);
    }
  }

  lemma HeadLength(ownerId: string, ownerDisplayName: string)
    requires |ownerId| <= 127 && |ownerDisplayName| <= 127
    ensures |Head(ownerId, ownerDisplayName)| <= 400 && |TAIL| <= 100
  {}

  /** A document for at most 100 grants always fits the 64K buffer, untruncated. */
  lemma DocumentFits(acl: Acl)
    requires |acl.ownerId| <= 127 && |acl.ownerDisplayName| <= 127 && |acl.grants| <= 100
    requires forall i :: 0 <= i < |acl.grants| ==> Storable(acl.grants[i])
    ensures |AclText(acl)| < ACL_XML_DOC_MAXSIZE - 1
  {
    hide GrantText, Storable, Head;
    GrantsLength(acl.grants);
    HeadLength(acl.ownerId, acl.ownerDisplayName);
  }

  const ACL_XML_DOC_MAXSIZE: nat := 65536
}
