/** Printing an access control list and reading it back. */
module AclRoundTrip {
  import opened Strings
  import opened Status
  import opened StringBuffers
  import opened SimpleXml
  import opened XmlDocuments
  import opened XmlText
  import opened XmlRecords
  import opened AclDocuments
  import opened AclPrinter
  import opened AclParser

  // ---------------------------------------------------------------- what a grant's elements hold

  /** The texts of the five buffers of a grant. */
  function Texts(g: Grant): (r: seq<string>)
    ensures |r| == 5
  {
    var p := PermissionName(g.permission);
    match g.grantee
    case AmazonCustomerByEmail(e) => [e, "", "", "", p]
    case CanonicalUser(id, name) => ["", id, name, "", p]
    case _ => ["", "", "", GroupUri(g.grantee), p]
  }

  lemma TextLeaf(n: string, t: string, rest: Forest, at: seq<string>, target: seq<string>)
    ensures TextIn(Leaf(n, t, rest), at, target) == (if at + [n] == target then t else "") + TextIn(rest, at, target)
  {
    NoText(at + [n], target);
    if t != "" {
      assert TextIn(TextNode(t), at + [n], target)
        == (if at + [n] == target then t else "") + TextIn(Nil, at + [n], target);
      Nothing(t);
    }
    assert "" + "" == "";
  }

  lemma NoText(at: seq<string>, target: seq<string>)
    ensures TextIn(Nil, at, target) == ""
  {}

  lemma SnocEqual<T>(a: seq<T>, n: T, m: T)
    ensures a + [n] == a + [m] <==> n == m
  {
    if a + [n] == a + [m] {
      assert (a + [n])[|a|] == n && (a + [m])[|a|] == m;
    }
  }

  /** The names of the four elements of a grantee. */
  function GranteeName(i: nat): string
    requires 2 <= i < 6
  {
    if i == 2 then "EmailAddress" else if i == 3 then "ID" else if i == 4 then "DisplayName" else "URI"
  }

  lemma GranteeTexts(g: Grant, i: nat)
    requires 2 <= i < 6
    ensures TextIn(GranteeTree(g.grantee), GRANTEE, GRANTEE + [GranteeName(i)]) == Texts(g)[i - 2]
  {
    hide TextIn, PermissionName, GroupUri;
    var target := GRANTEE + [GranteeName(i)];
    NoText(GRANTEE, target);
    match g.grantee
    case AmazonCustomerByEmail(e) =>
      TextLeaf("EmailAddress", e, Nil, GRANTEE, target);
      SnocEqual(GRANTEE, "EmailAddress", GranteeName(i));
      Nothing(e);
    case CanonicalUser(id, name) =>
      TextLeaf("ID", id, Leaf("DisplayName", name, Nil), GRANTEE, target);
      TextLeaf("DisplayName", name, Nil, GRANTEE, target);
      SnocEqual(GRANTEE, "ID", GranteeName(i));
      SnocEqual(GRANTEE, "DisplayName", GranteeName(i));
      Nothing(id);
      Nothing(name);
    case _ =>
      TextLeaf("URI", GroupUri(g.grantee), Nil, GRANTEE, target);
      SnocEqual(GRANTEE, "URI", GranteeName(i));
      Nothing(GroupUri(g.grantee));
  }

  lemma Apart(i: nat)
    requires i < 7
    ensures i < 2 ==> !(GRANT <= Buffers()[i].names)
    ensures i >= 2 ==> !(OWNER <= Buffers()[i].names)
  {
    assert i < 2 ==> Buffers()[i].names[1] != GRANT[1];
    assert i >= 2 ==> Buffers()[i].names[1] != OWNER[1];
  }

  lemma PermissionApart()
    ensures !(GRANTEE <= GRANT + ["Permission"])
    ensures forall n: string :: GRANT + ["Permission"] != GRANTEE + [n]
  {
    assert GRANTEE[3] != (GRANT + ["Permission"])[3];
  }

  lemma GrantTexts(g: Grant, i: nat)
    requires i < 7
    ensures TextIn(GrantTree(g), GRANT, Buffers()[i].names) == if i < 2 then "" else Texts(g)[i - 2]
  {
    hide TextIn, PermissionName, GranteeTree, GroupUri;
    Apart(i);
    if i < 2 {
      TextOutside(GrantTree(g), GRANT, Buffers()[i].names);
    } else {
      var target := Buffers()[i].names;
      GrantTextIn(g, target);
      PermissionApart();
      if i == 6 {
        TextOutside(GranteeTree(g.grantee), GRANTEE, target);
        Nothing(PermissionName(g.permission));
      } else {
        GranteeTexts(g, i);
        Nothing(Texts(g)[i - 2]);
      }
    }
  }

  lemma GrantTextIn(g: Grant, target: seq<string>)
    ensures TextIn(GrantTree(g), GRANT, target)
         == TextIn(GranteeTree(g.grantee), GRANTEE, target)
          + (if GRANT + ["Permission"] == target then PermissionName(g.permission) else "")
  {
    hide PermissionName, GranteeTree;
    var p := PermissionName(g.permission);
    TextLeaf("Permission", p, Nil, GRANT, target);
    NoText(GRANT, target);
    Nothing(if GRANT + ["Permission"] == target then p else "");
  }

  lemma OwnerTexts(id: string, name: string, i: nat)
    requires i < 7
    ensures TextIn(OwnerTree(id, name), OWNER, Buffers()[i].names) == if i == 0 then id else if i == 1 then name else ""
  {
    hide TextIn;
    if i >= 2 {
      Apart(i);
      TextOutside(OwnerTree(id, name), OWNER, Buffers()[i].names);
    } else {
      var target := Buffers()[i].names;
      TextLeaf("ID", id, Leaf("DisplayName", name, Nil), OWNER, target);
      TextLeaf("DisplayName", name, Nil, OWNER, target);
      NoText(OWNER, target);
      SnocEqual(OWNER, "ID", "DisplayName");
      Nothing(id);
      Nothing(name);
    }
  }

  // ---------------------------------------------------------------- names and paths

  lemma {:induction false} LeafNamesGood(n: string, t: string, rest: Forest)
    requires GoodName(n) && GoodNames(rest)
    ensures GoodNames(Leaf(n, t, rest))
  {
    hide GoodName;
    assert GoodNames(TextNode(t));
  }

  lemma GrantNamesGood(g: Grant)
    ensures GoodNames(GrantTree(g))
  {
    hide GoodName, PermissionName, GroupUri, Leaf;
    PolicyNames();
    LeafNames();
    match g.grantee {
      case AmazonCustomerByEmail(e) => LeafNamesGood("EmailAddress", e, Nil);
      case CanonicalUser(id, name) =>
        LeafNamesGood("DisplayName", name, Nil);
        LeafNamesGood("ID", id, Leaf("DisplayName", name, Nil));
      case _ => LeafNamesGood("URI", GroupUri(g.grantee), Nil);
    }
    LeafNamesGood("Permission", PermissionName(g.permission), Nil);
  }

  lemma OwnerNamesGood(id: string, name: string)
    ensures GoodNames(OwnerTree(id, name))
  {
    hide GoodName, Leaf;
    LeafNames();
    LeafNamesGood("DisplayName", name, Nil);
    LeafNamesGood("ID", id, Leaf("DisplayName", name, Nil));
  }

  lemma PathGrows(at: seq<string>, n: string)
    ensures |PathOf(at + [n])| <= |PathOf(at)| + |n| + 1
  {
    if at == [] {
      assert at + [n] == [n];
    } else {
      JoinSnoc(at, n, '/');
    }
  }

  lemma PathLengths()
    ensures |PathOf([])| == 0 && |PathOf(POLICY)| <= 20 && |PathOf(OWNER)| <= 30 && |PathOf(LIST)| <= 40
    ensures |PathOf(GRANT)| <= 50 && |PathOf(GRANTEE)| <= 60
  {
    assert |PathOf(POLICY)| <= 20;
    hide PathOf;
    PathGrows(POLICY, "Owner");
    PathGrows(POLICY, "AccessControlList");
    PathGrows(LIST, "Grant");
    PathGrows(GRANT, "Grantee");
  }

  lemma LeafFits(at: seq<string>, n: string, t: string, rest: Forest)
    requires |PathOf(at)| + |n| + 1 < PATH_SIZE && FitsPaths(at, rest)
    ensures FitsPaths(at, Leaf(n, t, rest))
  {
    assert FitsPaths(at + [n], TextNode(t));
  }

  lemma NothingFits(at: seq<string>)
    ensures FitsPaths(at, Nil)
  {}

  lemma GrantFits(g: Grant)
    ensures FitsPaths(GRANT, GrantTree(g))
  {
    hide PathOf, PermissionName, GroupUri, Leaf;
    PathLengths();
    NothingFits(GRANTEE);
    NothingFits(GRANT);
    match g.grantee {
      case AmazonCustomerByEmail(e) => LeafFits(GRANTEE, "EmailAddress", e, Nil);
      case CanonicalUser(id, name) =>
        LeafFits(GRANTEE, "DisplayName", name, Nil);
        LeafFits(GRANTEE, "ID", id, Leaf("DisplayName", name, Nil));
      case _ => LeafFits(GRANTEE, "URI", GroupUri(g.grantee), Nil);
    }
    LeafFits(GRANT, "Permission", PermissionName(g.permission), Nil);
  }

  lemma OwnerFits(id: string, name: string)
    ensures FitsPaths(OWNER, OwnerTree(id, name))
  {
    hide PathOf, Leaf;
    PathLengths();
    NothingFits(OWNER);
    LeafFits(OWNER, "DisplayName", name, Nil);
    LeafFits(OWNER, "ID", id, Leaf("DisplayName", name, Nil));
  }

  // ---------------------------------------------------------------- reading a grant

  /** Between grants the five buffers are blank. */
  ghost predicate Clean(acc: AclAcc) {
    |acc.fields| == 7 && ValidFields(Buffers(), acc.fields) && acc.fields[2..] == BLANK_GRANT
  }

  lemma CleanFields(acc: AclAcc)
    requires Clean(acc)
    ensures |acc.fields| == 7 && ValidFields(Buffers(), acc.fields)
    ensures acc.fields[..2] + BLANK_GRANT == acc.fields
  {
    assert acc.fields == acc.fields[..2] + acc.fields[2..];
  }

  /** The grant's buffers after its texts have gone in. */
  function GrantFields(g: Grant): (r: Fields)
    ensures |r| == 5
  {
    var t := Texts(g);
    [Filled(128, t[0]), Filled(128, t[1]), Filled(128, t[2]), Filled(128, t[3]), Filled(32, t[4])]
  }

  lemma TextLengths(g: Grant)
    requires Storable(g)
    ensures forall k :: 0 <= k < 4 ==> |Texts(g)[k]| <= 127
    ensures |Texts(g)[4]| <= 31
  {
    GroupUriLength(g.grantee);
    hide GroupUri;
  }

  lemma GrantField(acc: AclAcc, g: Grant, i: nat)
    requires Clean(acc) && Storable(g) && i < 7
    ensures Takes(Buffers(), acc.fields, i, TextIn(GrantTree(g), GRANT, Buffers()[i].names))
    ensures acc.fields[i].Append(TextIn(GrantTree(g), GRANT, Buffers()[i].names))
         == (acc.fields[..2] + GrantFields(g))[i]
  {
    hide TextIn, Texts, Filled, Storable, GrantTree;
    GrantTexts(g, i);
    if i < 2 {
      AppendNothing(acc.fields[i]);
    } else {
      TextLengths(g);
      assert acc.fields[i] == acc.fields[2..][i - 2] == BLANK_GRANT[i - 2];
      FilledFromEmpty(Buffers()[i].cap, Texts(g)[i - 2]);
    }
  }

  lemma CollectGrant(acc: AclAcc, g: Grant)
    requires Clean(acc) && Storable(g)
    ensures Collect(Buffers(), acc.fields, GRANT, GrantTree(g)) == (acc.fields[..2] + GrantFields(g), OK)
  {
    hide Collect, TextIn, Texts, Filled, Storable, GrantTree, Buffers, Takes, GrantFields, Clean, ValidSchema,
      GoodStack, ValidFields;
    BuffersValid();
    GrantNamesGood(g);
    CleanFields(acc);
    CollectText(Buffers(), acc.fields, GRANT, GrantTree(g));
    forall i | 0 <= i < 7
      ensures Takes(Buffers(), acc.fields, i, TextIn(GrantTree(g), GRANT, Buffers()[i].names))
      ensures acc.fields[i].Append(TextIn(GrantTree(g), GRANT, Buffers()[i].names))
           == (acc.fields[..2] + GrantFields(g))[i]
    {
      GrantField(acc, g, i);
    }
    assert Collect(Buffers(), acc.fields, GRANT, GrantTree(g)).0 == acc.fields[..2] + GrantFields(g);
  }

  /** A grantee whose strings are not empty. */
  predicate Named(g: Grant) {
    match g.grantee
    case AmazonCustomerByEmail(e) => e != ""
    case CanonicalUser(id, name) => id != "" && name != ""
    case _ => true
  }

  lemma PermissionsDiffer(p: Permission)
    ensures PermissionOf(PermissionName(p)) == Some(p)
  {}

  lemma GranteeBack(g: Grant)
    ensures GranteeOf(Texts(g)[0], Texts(g)[1], Texts(g)[2], Texts(g)[3]) == if Named(g) then Some(g.grantee) else None
  {
    hide PermissionName;
  }

  /** What a printed grant does to the data. */
  function Admit(acc: AclAcc, g: Grant): (AclAcc, S3Status) {
    if |acc.state| == MAX_GRANTS then (acc, TooManyGrants)
    else if !Named(g) then (acc, BadGrantee)
    else (acc.(state := acc.state + [g]), OK)
  }

  /** The same outcome; after an error the buffers may differ. */
  ghost predicate Agree(e: (AclAcc, S3Status), r: (AclAcc, S3Status)) {
    e.1 == r.1 && e.0.state == r.0.state && (e.1 == OK ==> e.0 == r.0)
  }

  lemma AddGrantBack(acc: AclAcc, g: Grant)
    requires Clean(acc) && Storable(g)
    ensures Agree(AddGrant(acc.(fields := acc.fields[..2] + GrantFields(g))), Admit(acc, g))
  {
    hide Filled, Storable, Clean, GranteeOf, PermissionOf, Named, PermissionName, GroupUri;
    CleanFields(acc);
    TextLengths(g);
    forall k | 0 <= k < 4 ensures Filled(128, Texts(g)[k]).text == Texts(g)[k] {
      KeptWhole(128, Texts(g)[k]);
    }
    KeptWhole(32, Texts(g)[4]);
    GranteeBack(g);
    assert Texts(g)[4] == PermissionName(g.permission);
    PermissionsDiffer(g.permission);
    var full := acc.fields[..2] + GrantFields(g);
    assert full[..2] == acc.fields[..2];
  }

  lemma GrantEval(acc: AclAcc, g: Grant)
    requires Clean(acc) && Storable(g)
    ensures Agree(EvalOne(XmlCallback(), LIST, acc, "Grant", GrantTree(g)), Admit(acc, g))
  {
    hide Collect, Eval, Storable, GrantTree, Buffers, GrantFields, Clean, GoodStack, PathOf, AddGrant, Admit,
      FitsPaths, Quiet;
    BuffersValid();
    CleanFields(acc);
    GrantNamesGood(g);
    GrantFits(g);
    QuietInside(GRANT);
    QuietEval(Buffers(), EndElement(), GRANT, acc, GrantTree(g));
    CollectGrant(acc, g);
    AddGrantBack(acc, g);
  }

  function AdmitAll(acc: AclAcc, gs: seq<Grant>): (AclAcc, S3Status)
    decreases |gs|
  {
    if gs == [] then (acc, OK)
    else
      var r := Admit(acc, gs[0]);
      if r.1 != OK then r else AdmitAll(r.0, gs[1..])
  }

  lemma AdmitClean(acc: AclAcc, g: Grant)
    requires Clean(acc)
    ensures Clean(Admit(acc, g).0)
  {}

  lemma {:induction false} GrantsEval(acc: AclAcc, gs: seq<Grant>)
    requires Clean(acc) && forall i :: 0 <= i < |gs| ==> Storable(gs[i])
    ensures Agree(Eval(XmlCallback(), LIST, acc, GrantsTree(gs)), AdmitAll(acc, gs))
    ensures Clean(AdmitAll(acc, gs).0)
    decreases |gs|
  {
    hide Clean, Storable, EvalOne, PathOf, GrantTree, Admit;
    if gs != [] {
      PathLengths();
      GrantEval(acc, gs[0]);
      AdmitClean(acc, gs[0]);
      EvalElem(XmlCallback(), LIST, acc, "Grant", GrantTree(gs[0]), GrantsTree(gs[1..]));
      var r := Admit(acc, gs[0]);
      if r.1 == OK {
        GrantsEval(r.0, gs[1..]);
      }
    }
  }

  /** How far the admission of grants gets. */
  lemma {:induction false} AdmittedAll(acc: AclAcc, gs: seq<Grant>)
    requires |acc.state| <= MAX_GRANTS
    ensures var r := AdmitAll(acc, gs);
      && (r.1 == OK <==> |acc.state| + |gs| <= MAX_GRANTS && forall i :: 0 <= i < |gs| ==> Named(gs[i]))
      && (r.1 == OK ==> r.0 == acc.(state := acc.state + gs))
      && (|acc.state| + |gs| > MAX_GRANTS && (forall i :: 0 <= i < MAX_GRANTS - |acc.state| ==> Named(gs[i]))
          ==> r.1 == TooManyGrants && r.0.state == acc.state + gs[..MAX_GRANTS - |acc.state|])
    decreases |gs|
  {
    hide Named;
    if gs == [] {
      Nothing(acc.state);
    } else {
      var r := Admit(acc, gs[0]);
      assert gs == [gs[0]] + gs[1..];
      if r.1 == OK {
        AdmittedAll(r.0, gs[1..]);
        assert acc.state + [gs[0]] + gs[1..] == acc.state + gs;
        var k := MAX_GRANTS - |acc.state|;
        if |gs| > k {
          assert acc.state + [gs[0]] + gs[1..][..k - 1] == acc.state + gs[..k];
        }
      } else if |acc.state| == MAX_GRANTS {
        Nothing(acc.state);
        assert gs[..0] == [];
      }
    }
  }

  // ---------------------------------------------------------------- reading the whole document

  /** The data after the owner. */
  function WithOwner(id: string, name: string): AclAcc {
    Acc([Filled(127, id), Filled(127, name)] + BLANK_GRANT, [])
  }

  lemma OwnerField(id: string, name: string, i: nat)
    requires i < 7
    ensures Takes(Buffers(), INITIAL.fields, i, TextIn(OwnerTree(id, name), OWNER, Buffers()[i].names))
       <==> |if i == 0 then id else if i == 1 then name else ""| <= 127
    ensures INITIAL.fields[i].Append(TextIn(OwnerTree(id, name), OWNER, Buffers()[i].names))
      == WithOwner(id, name).fields[i]
  {
    hide TextIn, Filled, OwnerTree;
    OwnerTexts(id, name, i);
    InitialValid();
    if i < 2 {
      FilledFromEmpty(127, if i == 0 then id else name);
    } else {
      AppendNothing(INITIAL.fields[i]);
    }
  }

  lemma CollectOwner(id: string, name: string)
    ensures var r := Collect(Buffers(), INITIAL.fields, OWNER, OwnerTree(id, name));
      && (r.1 == OK <==> |id| <= 127 && |name| <= 127)
      && (r.1 == OK ==> r.0 == WithOwner(id, name).fields)
  {
    hide Collect, TextIn, Filled, OwnerTree, Buffers, Takes, ValidSchema, GoodStack, ValidFields;
    BuffersValid();
    BufferStacks();
    OwnerNamesGood(id, name);
    InitialValid();
    CollectText(Buffers(), INITIAL.fields, OWNER, OwnerTree(id, name));
    forall i | 0 <= i < 7
      ensures Takes(Buffers(), INITIAL.fields, i, TextIn(OwnerTree(id, name), OWNER, Buffers()[i].names))
         <==> |if i == 0 then id else if i == 1 then name else ""| <= 127
      ensures INITIAL.fields[i].Append(TextIn(OwnerTree(id, name), OWNER, Buffers()[i].names))
        == WithOwner(id, name).fields[i]
    {
      OwnerField(id, name, i);
    }
    var r := Collect(Buffers(), INITIAL.fields, OWNER, OwnerTree(id, name));
    if |id| <= 127 && |name| <= 127 {
      assert forall i :: 0 <= i < 7 ==> r.0[i] == WithOwner(id, name).fields[i];
    } else {
      var i := if |id| > 127 then 0 else 1;
      assert !Takes(Buffers(), INITIAL.fields, i, TextIn(OwnerTree(id, name), OWNER, Buffers()[i].names));
    }
  }

  /** The end of an element other than Grant does nothing. */
  lemma EndDoesNothing(at: seq<string>, acc: AclAcc)
    requires at == POLICY || at == OWNER || at == LIST
    ensures XmlCallback()(PathOf(at), None, acc) == (acc, OK)
  {
    hide PathOf, GoodStack, AddGrant, Buffers;
    BufferStacks();
    GrantPath(at);
  }

  lemma OwnerEval(id: string, name: string)
    ensures var e := EvalOne(XmlCallback(), POLICY, INITIAL, "Owner", OwnerTree(id, name));
      && (e.1 == OK <==> |id| <= 127 && |name| <= 127)
      && (e.1 == OK ==> e.0 == WithOwner(id, name))
  {
    hide Collect, Eval, OwnerTree, Buffers, GoodStack, PathOf, AddGrant, FitsPaths, Quiet;
    BuffersValid();
    InitialValid();
    OwnerNamesGood(id, name);
    OwnerFits(id, name);
    QuietInside(OWNER);
    QuietEval(Buffers(), EndElement(), OWNER, INITIAL, OwnerTree(id, name));
    CollectOwner(id, name);
    EndDoesNothing(OWNER, WithOwner(id, name));
  }

  /** An element that is alone in its parent and whose end does nothing. */
  lemma EvalLast(at: seq<string>, n: string, acc: AclAcc, kids: Forest)
    requires |PathOf(at)| + |n| + 1 < PATH_SIZE && (at + [n] == POLICY || at + [n] == LIST)
    ensures Eval(XmlCallback(), at, acc, Elem(n, kids, Nil)) == Eval(XmlCallback(), at + [n], acc, kids)
  {
    hide Eval, PathOf, XmlCallback;
    EvalElem(XmlCallback(), at, acc, n, kids, Nil);
    var k := Eval(XmlCallback(), at + [n], acc, kids);
    EndDoesNothing(at + [n], k.0);
    EvalNothing(XmlCallback(), at, k.0);
  }

  /** Reading a printed document: its owner has to fit, and then its grants are admitted in turn. */
  lemma AclEval(acl: Acl)
    requires forall i :: 0 <= i < |acl.grants| ==> Storable(acl.grants[i])
    ensures var e := Eval(XmlCallback(), [], INITIAL, AclTree(acl));
      if |acl.ownerId| <= 127 && |acl.ownerDisplayName| <= 127
      then Agree(e, AdmitAll(WithOwner(acl.ownerId, acl.ownerDisplayName), acl.grants)) else e.1 != OK
  {
    hide Eval, PathOf, XmlCallback, OwnerTree, GrantsTree, EvalOne, AdmitAll, Agree, Storable;
    PathLengths();
    assert [] + ["AccessControlPolicy"] == POLICY;
    EvalLast([], "AccessControlPolicy", INITIAL, PolicyTree(acl));
    OwnerEval(acl.ownerId, acl.ownerDisplayName);
    EvalElem(XmlCallback(), POLICY, INITIAL, "Owner", OwnerTree(acl.ownerId, acl.ownerDisplayName),
             Elem("AccessControlList", GrantsTree(acl.grants), Nil));
    var acc := WithOwner(acl.ownerId, acl.ownerDisplayName);
    EvalLast(POLICY, "AccessControlList", acc, GrantsTree(acl.grants));
    GrantsEval(acc, acl.grants);
  }

  // ---------------------------------------------------------------- the round trip

  /** What has to hold of a list so that it survives. */
  predicate Faithful(acl: Acl) {
    && |acl.ownerId| <= 126 && |acl.ownerDisplayName| <= 126
    && |acl.grants| <= MAX_GRANTS
    && forall i :: 0 <= i < |acl.grants| ==> Named(acl.grants[i])
  }

  /** Printing a list and reading its document back gives the same list, exactly when the list is
      faithful, however the text of the document is cut into chunks. */
  lemma AclSurvives(acl: Acl, f: Forest)
    requires forall i :: 0 <= i < |acl.grants| ==> Storable(acl.grants[i])
    requires Merge(f) == Merge(AclTree(acl))
    ensures var e := Eval(XmlCallback(), [], INITIAL, f);
      (e.1 == OK && |e.0.fields| == 7 && Converted(e.0) == acl) <==> Faithful(acl)
  {
    hide Eval, XmlCallback, AdmitAll, Filled, Storable, Named, Merge, AclTree;
    ConvertIgnoresChunks(f, AclTree(acl));
    AclEval(acl);
    if |acl.ownerId| <= 127 && |acl.ownerDisplayName| <= 127 {
      var acc := WithOwner(acl.ownerId, acl.ownerDisplayName);
      AdmittedAll(acc, acl.grants);
      KeptWhole(127, acl.ownerId);
      KeptWhole(127, acl.ownerDisplayName);
      Nothing(acl.grants);
    }
  }

  /** The grant after the hundredth is refused, and the hundred are kept. */
  lemma TooManyAreRefused(acl: Acl, f: Forest)
    requires forall i :: 0 <= i < |acl.grants| ==> Storable(acl.grants[i]) && Named(acl.grants[i])
    requires Merge(f) == Merge(AclTree(acl))
    requires |acl.grants| > MAX_GRANTS && |acl.ownerId| <= 127 && |acl.ownerDisplayName| <= 127
    ensures var e := Eval(XmlCallback(), [], INITIAL, f);
      e.1 == TooManyGrants && e.0.state == acl.grants[..MAX_GRANTS]
  {
    hide Eval, XmlCallback, AdmitAll, Filled, Storable, Named, Merge, AclTree;
    ConvertIgnoresChunks(f, AclTree(acl));
    AclEval(acl);
    AdmittedAll(WithOwner(acl.ownerId, acl.ownerDisplayName), acl.grants);
    Nothing(acl.grants[..MAX_GRANTS]);
  }

  /** Text without characters that XML treats specially. */
  ghost predicate PlainAcl(acl: Acl) {
    && Plain(acl.ownerId) && Plain(acl.ownerDisplayName)
    && forall i :: 0 <= i < |acl.grants| ==> PlainGrant(acl.grants[i])
  }

  predicate PlainGrant(g: Grant) {
    match g.grantee
    case AmazonCustomerByEmail(e) => Plain(e)
    case CanonicalUser(id, name) => Plain(id) && Plain(name)
    case _ => true
  }

  lemma {:induction false} LeafPrintable(n: string, t: string, rest: Forest)
    requires TagName(n) && Plain(t) && Printable(rest)
    ensures Printable(Leaf(n, t, rest))
  {
    hide TagName, Plain;
    assert Printable(TextNode(t));
  }

  lemma InnerIsPlain(s: string)
    requires forall i :: 0 <= i < |s| ==> '.' <= s[i] <= 'z' && s[i] != '<'
    ensures Plain(s)
  {}

  lemma AwsInner()
    ensures var s := ACS_GROUP_AWS_USERS; forall i :: 0 <= i < |s| ==> '.' <= s[i] <= 'z' && s[i] != '<'
  {}

  lemma UriInner(g: Grantee)
    requires !g.AllAwsUsers?
    ensures var s := GroupUri(g); forall i :: 0 <= i < |s| ==> '.' <= s[i] <= 'z' && s[i] != '<'
  {
    hide ACS_GROUP_AWS_USERS;
  }

  lemma UriPlain(g: Grantee)
    ensures Plain(GroupUri(g))
  {
    hide Plain, ACS_URL;
    if g.AllAwsUsers? {
      AwsInner();
    } else {
      UriInner(g);
    }
    InnerIsPlain(GroupUri(g));
  }

  lemma PermissionPlain(p: Permission)
    ensures Plain(PermissionName(p))
  {}

  lemma TagNames()
    ensures TagName("AccessControlPolicy") && TagName("AccessControlList") && TagName("Owner")
    ensures TagName("Grant") && TagName("Grantee")
  {}

  lemma LeafTagNames()
    ensures TagName("ID") && TagName("DisplayName") && TagName("EmailAddress") && TagName("URI")
    ensures TagName("Permission")
  {}

  lemma GrantPrintable(g: Grant)
    requires PlainGrant(g)
    ensures Printable(GrantTree(g))
  {
    hide TagName, Plain, Leaf, GroupUri, PermissionName;
    TagNames();
    LeafTagNames();
    UriPlain(g.grantee);
    PermissionPlain(g.permission);
    match g.grantee {
      case AmazonCustomerByEmail(e) => LeafPrintable("EmailAddress", e, Nil);
      case CanonicalUser(id, name) =>
        LeafPrintable("DisplayName", name, Nil);
        LeafPrintable("ID", id, Leaf("DisplayName", name, Nil));
      case _ => LeafPrintable("URI", GroupUri(g.grantee), Nil);
    }
    LeafPrintable("Permission", PermissionName(g.permission), Nil);
  }

  lemma {:induction false} GrantsPrintable(gs: seq<Grant>)
    requires forall i :: 0 <= i < |gs| ==> PlainGrant(gs[i])
    ensures Printable(GrantsTree(gs))
  {
    hide TagName, Plain, PlainGrant, GrantTree;
    TagNames();
    if gs != [] {
      GrantPrintable(gs[0]);
      GrantsPrintable(gs[1..]);
    }
  }

  lemma AclPrintable(acl: Acl)
    requires PlainAcl(acl)
    ensures Printable(AclTree(acl)) && GoodNames(AclTree(acl))
  {
    hide TagName, Plain, GrantsTree, Leaf;
    TagNames();
    LeafTagNames();
    LeafPrintable("DisplayName", acl.ownerDisplayName, Nil);
    LeafPrintable("ID", acl.ownerId, Leaf("DisplayName", acl.ownerDisplayName, Nil));
    GrantsPrintable(acl.grants);
    assert Printable(Elem("AccessControlList", GrantsTree(acl.grants), Nil));
    assert Printable(PolicyTree(acl));
    PrintableNames(AclTree(acl));
  }

  lemma {:induction false} PrintableNames(f: Forest)
    requires Printable(f)
    ensures GoodNames(f)
    decreases f
  {
    hide Plain, GoodName, TagName;
    match f
    case Nil =>
    case Text(_, rest) => PrintableNames(rest);
    case Elem(n, kids, rest) =>
      LettersOnly(n);
      PrintableNames(kids);
      PrintableNames(rest);
  }

  /** From the printed characters back to the list: the SAX callbacks, fed with what a scanner finds
      in the text of the document, end with the list that was printed exactly when it is faithful. */
  lemma PrintedTextSurvives(acl: Acl)
    requires PlainAcl(acl) && forall i :: 0 <= i < |acl.grants| ==> Storable(acl.grants[i])
    ensures var s := Run(XmlCallback(), Sax("", OK, INITIAL), Scan(AclText(acl)));
      (s.status == OK && |s.data.fields| == 7 && Converted(s.data) == acl) <==> Faithful(acl)
  {
    hide Run, Scan, XmlCallback, Eval, Faithful, Storable, PlainAcl, AclTree, Printable, AclText, Events, Merge,
      GoodName;
    AclPrintable(acl);
    PrintedIsRendered(acl);
    ScanRender(AclTree(acl), "");
    Nothing(AclText(acl));
    ScanNothing();
    Nothing(Events(AclTree(acl)));
    StackPath([]);
    RunIsEval(XmlCallback(), [], INITIAL, AclTree(acl));
    AclSurvives(acl, AclTree(acl));
  }

}
