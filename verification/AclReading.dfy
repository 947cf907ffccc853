/** What S3_convert_acl makes of any access control document, not only of printed ones (src/general.c). */
module AclReading {
  import opened Strings
  import opened Status
  import opened StringBuffers
  import opened SimpleXml
  import opened XmlDocuments
  import opened XmlRecords
  import opened AclDocuments
  import opened AclParser
  import opened AclRoundTrip

  // ---------------------------------------------------------------- what a Grant element says

  /** The text below a Grant element at the given names, as far as a buffer of that size keeps it. */
  function GrantText(grant: Forest, names: seq<string>, size: nat): string {
    var at := ["AccessControlPolicy", "AccessControlList", "Grant"];
    Kept(TextIn(grant, at, at + names), size)
  }

  /** g is the grant that the element describes: an e-mail address comes before a user, and a user, who
      needs both an ID and a name, before a group. */
  ghost predicate Says(g: Grant, grant: Forest) {
    && (var email, id := GrantText(grant, ["Grantee", "EmailAddress"], 127), GrantText(grant, ["Grantee", "ID"], 127);
        var name, uri := GrantText(grant, ["Grantee", "DisplayName"], 127), GrantText(grant, ["Grantee", "URI"], 127);
        if email != "" then g.grantee == AmazonCustomerByEmail(email)
        else if id != "" && name != "" then g.grantee == CanonicalUser(id, name)
        else
          && g.grantee in {AllUsers, AllAwsUsers, LogDelivery}
          && (g.grantee == AllUsers <==> uri == "http://acs.amazonaws.com/" + "groups/" + "global/AllUsers")
          && (g.grantee == AllAwsUsers <==>
                uri == "http://acs.amazonaws.com/" + "groups/" + "global/AuthenticatedUsers")
          && (g.grantee == LogDelivery <==> uri == "http://acs.amazonaws.com/" + "groups/" + "s3/LogDelivery"))
    && (var permission := GrantText(grant, ["Permission"], 31);
        && (g.permission == Permission.Read <==> permission == "READ")
        && (g.permission == Permission.Write <==> permission == "WRITE")
        && (g.permission == ReadACP <==> permission == "READ_ACP")
        && (g.permission == WriteACP <==> permission == "WRITE_ACP")
        && (g.permission == FullControl <==> permission == "FULL_CONTROL"))
  }

  lemma GrantNames()
    ensures GRANT == ["AccessControlPolicy", "AccessControlList", "Grant"] && LIST + ["Grant"] == GRANT
    ensures |Buffers()| == 7 && Buffers()[2].names == GRANT + ["Grantee", "EmailAddress"]
    ensures Buffers()[3].names == GRANT + ["Grantee", "ID"] && Buffers()[4].names == GRANT + ["Grantee", "DisplayName"]
    ensures Buffers()[5].names == GRANT + ["Grantee", "URI"] && Buffers()[6].names == GRANT + ["Permission"]
    ensures forall i :: 2 <= i < 6 ==> Buffers()[i].cap == 128
    ensures Buffers()[6].cap == 32
  {}

  lemma UrisDiffer()
    ensures ACS_GROUP_ALL_USERS != ACS_GROUP_AWS_USERS && ACS_GROUP_AWS_USERS != ACS_GROUP_LOG_DELIVERY
    ensures ACS_GROUP_ALL_USERS != ACS_GROUP_LOG_DELIVERY
    ensures ACS_GROUP_ALL_USERS == "http://acs.amazonaws.com/" + "groups/" + "global/AllUsers"
    ensures ACS_GROUP_AWS_USERS == "http://acs.amazonaws.com/" + "groups/" + "global/AuthenticatedUsers"
    ensures ACS_GROUP_LOG_DELIVERY == "http://acs.amazonaws.com/" + "groups/" + "s3/LogDelivery"
  {
    assert |ACS_GROUP_ALL_USERS| == |ACS_URL| + 15 && |ACS_GROUP_AWS_USERS| == |ACS_URL| + 25;
    assert |ACS_GROUP_LOG_DELIVERY| == |ACS_URL| + 14;
  }

  /** The buffers of a grant hold its texts. */
  ghost predicate HoldsGrant(fields: Fields, grant: Forest) {
    && |fields| == 7
    && fields[2].text == GrantText(grant, ["Grantee", "EmailAddress"], 127)
    && fields[3].text == GrantText(grant, ["Grantee", "ID"], 127)
    && fields[4].text == GrantText(grant, ["Grantee", "DisplayName"], 127)
    && fields[5].text == GrantText(grant, ["Grantee", "URI"], 127)
    && fields[6].text == GrantText(grant, ["Permission"], 31)
  }

  lemma GrantField(acc: AclAcc, grant: Forest, i: nat)
    requires Clean(acc) && i < 7
    ensures i < 2 ==> acc.fields[i].Append(TextIn(grant, GRANT, Buffers()[i].names)) == acc.fields[i]
    ensures i >= 2 ==>
      acc.fields[i].Append(TextIn(grant, GRANT, Buffers()[i].names)).text
        == Kept(TextIn(grant, GRANT, Buffers()[i].names), if i == 6 then 31 else 127)
  {
    hide TextIn, Filled, Kept;
    if i < 2 {
      assert Buffers()[i].names[1] != GRANT[1];
      TextOutside(grant, GRANT, Buffers()[i].names);
      AppendNothing(acc.fields[i]);
    } else {
      assert acc.fields[i] == acc.fields[2..][i - 2] == BLANK_GRANT[i - 2];
      FilledFromEmpty(Buffers()[i].cap, TextIn(grant, GRANT, Buffers()[i].names));
      FilledKeeps(Buffers()[i].cap, TextIn(grant, GRANT, Buffers()[i].names));
    }
  }

  lemma CollectGrantElement(acc: AclAcc, grant: Forest)
    requires Clean(acc) && GoodNames(grant)
    ensures var r := Collect(Buffers(), acc.fields, GRANT, grant);
      r.1 == OK ==> |r.0| == 7 && r.0[..2] == acc.fields[..2] && HoldsGrant(r.0, grant)
  {
    hide Collect, TextIn, Kept, Buffers, ValidSchema, GoodStack, ValidFields, Clean;
    BuffersValid();
    CleanFields(acc);
    GrantNames();
    CollectText(Buffers(), acc.fields, GRANT, grant);
    forall i | 0 <= i < 7
      ensures i < 2 ==> acc.fields[i].Append(TextIn(grant, GRANT, Buffers()[i].names)) == acc.fields[i]
      ensures i >= 2 ==>
        acc.fields[i].Append(TextIn(grant, GRANT, Buffers()[i].names)).text
          == Kept(TextIn(grant, GRANT, Buffers()[i].names), if i == 6 then 31 else 127)
    {
      GrantField(acc, grant, i);
    }
  }

  lemma AddGrantSays(acc: AclAcc, full: AclAcc, grant: Forest)
    requires Clean(acc) && |full.fields| == 7 && full.state == acc.state && full.fields[..2] == acc.fields[..2]
    requires HoldsGrant(full.fields, grant) && AddGrant(full).1 == OK
    ensures var r := AddGrant(full).0;
      && r.fields == acc.fields && |r.state| == |acc.state| + 1 && |acc.state| != MAX_GRANTS
      && r.state[..|acc.state|] == acc.state && Says(r.state[|acc.state|], grant)
  {
    hide GrantText, Clean, ACS_GROUP_ALL_USERS, ACS_GROUP_AWS_USERS, ACS_GROUP_LOG_DELIVERY;
    CleanFields(acc);
    UrisDiffer();
  }

  lemma GrantElement(acc: AclAcc, grant: Forest)
    requires Clean(acc) && GoodNames(grant) && FitsPaths(GRANT, grant)
    ensures var r := EvalOne(XmlCallback(), LIST, acc, "Grant", grant);
      r.1 == OK ==>
        && r.0.fields == acc.fields && |r.0.state| == |acc.state| + 1 && |acc.state| != MAX_GRANTS
        && r.0.state[..|acc.state|] == acc.state && Says(r.0.state[|acc.state|], grant)
  {
    hide Collect, Eval, Buffers, Clean, GoodStack, PathOf, AddGrant, FitsPaths, Quiet, Says, HoldsGrant;
    BuffersValid();
    CleanFields(acc);
    GrantNames();
    QuietInside(GRANT);
    QuietEval(Buffers(), EndElement(), GRANT, acc, grant);
    CollectGrantElement(acc, grant);
    var c := Collect(Buffers(), acc.fields, GRANT, grant);
    if c.1 == OK {
      var full := acc.(fields := c.0);
      if AddGrant(full).1 == OK { AddGrantSays(acc, full, grant); }
    }
  }

  /** Why the end of a Grant element is refused: too many grants, no grantee, or no permission, in this
      order. */
  lemma GrantRefused(acc: AclAcc)
    requires |acc.fields| == 7
    ensures var status := AddGrant(acc).1;
      var email, id, name, uri := acc.fields[2].text, acc.fields[3].text, acc.fields[4].text, acc.fields[5].text;
      var nobody := email == "" && (id == "" || name == "")
        && uri !in ["http://acs.amazonaws.com/" + "groups/" + "global/AllUsers",
                    "http://acs.amazonaws.com/" + "groups/" + "global/AuthenticatedUsers",
                    "http://acs.amazonaws.com/" + "groups/" + "s3/LogDelivery"];
      && status in {OK, TooManyGrants, BadGrantee, BadPermission}
      && (status == TooManyGrants <==> |acc.state| == 100)
      && (status == BadGrantee <==> |acc.state| != 100 && nobody)
      && (status == BadPermission <==>
            && |acc.state| != 100 && !nobody
            && acc.fields[6].text !in ["READ", "WRITE", "READ_ACP", "WRITE_ACP", "FULL_CONTROL"])
  {
    UrisDiffer();
    hide ACS_GROUP_ALL_USERS, ACS_GROUP_AWS_USERS, ACS_GROUP_LOG_DELIVERY;
  }

  const REFUSALS: seq<S3Status> := [UserIdTooLong, UserDisplayNameTooLong, EmailAddressTooLong, UserIdTooLong,
                                    UserDisplayNameTooLong, GroupUriTooLong, PermissionTooLong]

  lemma BufferRefusals()
    ensures |Buffers()| == 7 == |REFUSALS| && forall i :: 0 <= i < 7 ==> Buffers()[i].overflow == REFUSALS[i]
  {}

  /** Text that does not fit is refused with the status of its element. */
  lemma TextRefused(acc: AclAcc, t: string, i: nat)
    requires |acc.fields| == 7 && i < 7 && !acc.fields[i].Fits(t)
    ensures |Buffers()| == 7 == |REFUSALS| && XmlCallback()(PathOf(Buffers()[i].names), Some(t), acc).1 == REFUSALS[i]
  {
    BuffersValid();
    BufferStacks();
    BufferRefusals();
    hide PathOf, Find, GoodStack, Buffers, REFUSALS;
    var path := PathOf(Buffers()[i].names);
    FindIs(Buffers(), Buffers()[i].names, i);
    assert Find(Buffers(), path) == i;
    assert Store(Buffers(), acc.fields, path, t).1 == REFUSALS[i];
    assert XmlCallback()(path, Some(t), acc).1 == Store(Buffers(), acc.fields, path, t).1;
  }

  // ---------------------------------------------------------------- the list

  /** Other children of the list do nothing. */
  lemma OtherElement(acc: AclAcc, n: string, kids: Forest)
    requires Clean(acc) && GoodName(n) && GoodNames(kids) && FitsPaths(LIST + [n], kids) && n != "Grant"
    ensures EvalOne(XmlCallback(), LIST, acc, n, kids) == (acc, OK)
  {
    hide Collect, Eval, Buffers, Clean, GoodStack, PathOf, AddGrant, FitsPaths, Quiet, GoodName;
    BuffersValid();
    CleanFields(acc);
    StackSnoc(LIST, n);
    var at := LIST + [n];
    QuietInside(at);
    QuietEval(Buffers(), EndElement(), at, acc, kids);
    NoBufferIn(n);
    CollectNothing(Buffers(), acc.fields, at, kids);
    GrantPath(at);
    SnocEqual(LIST, n, "Grant");
    GrantNames();
  }

  lemma NoBufferIn(n: string)
    requires n != "Grant"
    ensures forall i :: 0 <= i < |Buffers()| ==> !(LIST + [n] <= Buffers()[i].names)
  {
    var at := LIST + [n];
    forall i | 0 <= i < |Buffers()| ensures !(at <= Buffers()[i].names) {
      assert i < 2 ==> Buffers()[i].names[1] != at[1];
      assert i >= 2 ==> Buffers()[i].names[2] != at[2];
    }
  }

  lemma TextDropped(acc: AclAcc, at: seq<string>, t: string)
    requires Clean(acc) && (at == POLICY || at == LIST)
    ensures XmlCallback()(PathOf(at), Some(t), acc) == (acc, OK)
  {
    hide PathOf, Store, GoodStack;
    BuffersValid();
    BufferStacks();
    forall i | 0 <= i < |Buffers()| ensures Buffers()[i].names != at {
      assert |Buffers()[i].names| > 2;
    }
    StoreElsewhere(Buffers(), acc.fields, at, t);
  }

  ghost predicate AllSay(gs: seq<Grant>, es: seq<Forest>) {
    |gs| == |es| && forall i :: 0 <= i < |gs| ==> Says(gs[i], es[i])
  }

  /** From a to b the grants of these elements have been added, and nothing else has changed but the owner. */
  ghost predicate Grew(a: AclAcc, b: AclAcc, es: seq<Forest>) {
    && |b.state| == |a.state| + |es| && b.state[..|a.state|] == a.state
    && AllSay(b.state[|a.state|..], es)
  }

  lemma GrewNot(a: AclAcc, b: AclAcc)
    requires a.state == b.state
    ensures Grew(a, b, [])
  {}

  lemma GrewOne(a: AclAcc, b: AclAcc, e: Forest)
    requires |b.state| == |a.state| + 1 && b.state[..|a.state|] == a.state && Says(b.state[|a.state|], e)
    ensures Grew(a, b, [e])
  {
    hide Says;
  }

  lemma GrewTwice(a: AclAcc, b: AclAcc, c: AclAcc, es: seq<Forest>, fs: seq<Forest>)
    requires Grew(a, b, es) && Grew(b, c, fs)
    ensures Grew(a, c, es + fs)
  {
    hide Says;
    var n, m := |a.state|, |b.state|;
    assert c.state[..n] == c.state[..m][..n];
    forall i | 0 <= i < |es + fs| ensures Says(c.state[n..][i], (es + fs)[i]) {
      if i < |es| {
        assert c.state[n..][i] == c.state[..m][n + i] == b.state[n..][i];
      } else {
        assert c.state[n..][i] == c.state[m..][i - |es|];
      }
    }
  }

  lemma {:induction false} ListEval(acc: AclAcc, f: Forest)
    requires Clean(acc) && GoodNames(f) && FitsPaths(LIST, f)
    ensures var r := Eval(XmlCallback(), LIST, acc, f);
      r.1 == OK ==> r.0.fields == acc.fields && Grew(acc, r.0, ElementsNamed(f, "Grant"))
    decreases f
  {
    hide Clean, PathOf, XmlCallback, EvalOne, Grew, Says, GoodName, Buffers;
    match f
    case Nil => GrewNot(acc, acc);
    case Text(t, rest) =>
      TextDropped(acc, LIST, t);
      ListEval(acc, rest);
    case Elem(n, kids, rest) =>
      EvalElem(XmlCallback(), LIST, acc, n, kids, rest);
      var r := EvalOne(XmlCallback(), LIST, acc, n, kids);
      GrantNames();
      if n == "Grant" {
        GrantElement(acc, kids);
        if r.1 == OK { GrewOne(acc, r.0, kids); }
      } else {
        OtherElement(acc, n, kids);
        GrewNot(acc, r.0);
      }
      if r.1 == OK {
        SameFieldsClean(acc, r.0);
        ListEval(r.0, rest);
        var s := Eval(XmlCallback(), LIST, r.0, rest);
        if s.1 == OK {
          GrewTwice(acc, r.0, s.0, if n == "Grant" then [kids] else [], ElementsNamed(rest, "Grant"));
        }
      }
  }

  lemma SameFieldsClean(a: AclAcc, b: AclAcc)
    requires Clean(a) && a.fields == b.fields
    ensures Clean(b)
  {}

  // ---------------------------------------------------------------- the whole document

  const OWNER_ID := ["AccessControlPolicy", "Owner", "ID"]
  const OWNER_NAME := ["AccessControlPolicy", "Owner", "DisplayName"]

  lemma OwnerNames()
    ensures |Buffers()| == 7 && Buffers()[0].names == OWNER_ID && Buffers()[1].names == OWNER_NAME
    ensures Buffers()[0].cap == 127 && Buffers()[1].cap == 127 && POLICY == ["AccessControlPolicy"]
  {}

  ghost predicate HoldsOwner(acc: AclAcc, id: string, name: string)
    requires |acc.fields| == 7
  {
    acc.fields[0] == Filled(127, id) && acc.fields[1] == Filled(127, name)
  }

  /** A child of the root other than the list: it can only hold text of the owner. */
  lemma PolicyElement(acc: AclAcc, n: string, kids: Forest, id: string, name: string)
    requires Clean(acc) && |acc.fields| == 7 && HoldsOwner(acc, id, name)
    requires GoodName(n) && GoodNames(kids) && FitsPaths(POLICY + [n], kids) && n != "AccessControlList"
    ensures var r := EvalOne(XmlCallback(), POLICY, acc, n, kids);
      r.1 == OK ==> && Clean(r.0) && |r.0.fields| == 7 && r.0.state == acc.state
                    && HoldsOwner(r.0, id + TextIn(kids, POLICY + [n], OWNER_ID),
                                  name + TextIn(kids, POLICY + [n], OWNER_NAME))
  {
    hide Collect, Eval, Buffers, GoodStack, PathOf, AddGrant, FitsPaths, Quiet, GoodName, TextIn, Filled, Clean,
      ValidSchema, ValidFields;
    BuffersValid();
    CleanFields(acc);
    StackSnoc(POLICY, n);
    var at := POLICY + [n];
    QuietBelow(at);
    QuietEval(Buffers(), EndElement(), at, acc, kids);
    GrantPath(at);
    GrantNames();
    assert at != GRANT;
    CollectText(Buffers(), acc.fields, at, kids);
    var c := Collect(Buffers(), acc.fields, at, kids);
    if c.1 == OK {
      OwnerNames();
      FilledAppend(127, id, TextIn(kids, at, OWNER_ID));
      FilledAppend(127, name, TextIn(kids, at, OWNER_NAME));
      forall i | 2 <= i < 7 ensures c.0[i] == acc.fields[i] {
        GrantBufferApart(acc, n, kids, i);
      }
      StaysClean(acc, acc.(fields := c.0));
    }
  }

  lemma StaysClean(a: AclAcc, b: AclAcc)
    requires Clean(a) && ValidFields(Buffers(), b.fields) && |b.fields| == 7
    requires forall i :: 2 <= i < 7 ==> b.fields[i] == a.fields[i]
    ensures Clean(b)
  {
    assert b.fields[2..] == a.fields[2..];
  }

  lemma GrantBufferApart(acc: AclAcc, n: string, kids: Forest, i: nat)
    requires Clean(acc) && n != "AccessControlList" && 2 <= i < 7
    ensures acc.fields[i].Append(TextIn(kids, POLICY + [n], Buffers()[i].names)) == acc.fields[i]
  {
    hide TextIn;
    assert Buffers()[i].names[1] != (POLICY + [n])[1];
    TextOutside(kids, POLICY + [n], Buffers()[i].names);
    AppendNothing(acc.fields[i]);
  }

  lemma QuietBelow(at: seq<string>)
    requires GoodStack(at) && |at| == 2 && at[1] != "AccessControlList"
    ensures Quiet(EndElement(), at)
  {
    hide PathOf, GoodStack, AddGrant, Buffers;
    forall inner: seq<string>, acc: AclAcc | at < inner && GoodStack(inner)
      ensures EndElement()(PathOf(inner), acc) == (acc, OK)
    {
      GrantPath(inner);
      assert inner[1] == at[1];
    }
  }

  /** The Grant elements below the list elements. */
  function GrantElements(kids: Forest): seq<Forest>
    decreases kids
  {
    match kids
    case Nil => []
    case Text(_, rest) => GrantElements(rest)
    case Elem(n, inside, rest) =>
      (if n == "AccessControlList" then ElementsNamed(inside, "Grant") else []) + GrantElements(rest)
  }

  /** What has been read of a policy. */
  ghost predicate Read(a: AclAcc, b: AclAcc, f: Forest, id: string, name: string) {
    && |b.fields| == 7 && Clean(b)
    && HoldsOwner(b, id + TextIn(f, POLICY, OWNER_ID), name + TextIn(f, POLICY, OWNER_NAME))
    && Grew(a, b, GrantElements(f))
  }

  lemma ListHasNoOwner(kids: Forest)
    ensures TextIn(kids, LIST, OWNER_ID) == "" && TextIn(kids, LIST, OWNER_NAME) == ""
  {
    assert LIST[1] != OWNER_ID[1] && LIST[1] != OWNER_NAME[1];
    TextOutside(kids, LIST, OWNER_ID);
    TextOutside(kids, LIST, OWNER_NAME);
  }

  lemma PolicyChild(acc: AclAcc, n: string, kids: Forest, id: string, name: string)
    requires Clean(acc) && |acc.fields| == 7 && HoldsOwner(acc, id, name)
    requires GoodName(n) && GoodNames(kids) && FitsPaths(POLICY + [n], kids)
    ensures var r := EvalOne(XmlCallback(), POLICY, acc, n, kids);
      r.1 == OK ==> && Clean(r.0) && |r.0.fields| == 7
                    && HoldsOwner(r.0, id + TextIn(kids, POLICY + [n], OWNER_ID),
                                  name + TextIn(kids, POLICY + [n], OWNER_NAME))
                    && Grew(acc, r.0, if n == "AccessControlList" then ElementsNamed(kids, "Grant") else [])
  {
    hide Eval, Buffers, PathOf, FitsPaths, GoodName, TextIn, Filled, Clean, Grew, XmlCallback, Says;
    if n == "AccessControlList" {
      assert POLICY + [n] == LIST;
      ListEval(acc, kids);
      var r := Eval(XmlCallback(), LIST, acc, kids);
      if r.1 == OK {
        EndDoesNothing(LIST, r.0);
        SameFieldsClean(acc, r.0);
        ListHasNoOwner(kids);
        Nothing(id);
        Nothing(name);
      }
    } else {
      PolicyElement(acc, n, kids, id, name);
      var r := EvalOne(XmlCallback(), POLICY, acc, n, kids);
      if r.1 == OK { GrewNot(acc, r.0); }
    }
  }

  lemma {:induction false} PolicyEval(acc: AclAcc, f: Forest, id: string, name: string)
    requires Clean(acc) && |acc.fields| == 7 && HoldsOwner(acc, id, name)
    requires GoodNames(f) && FitsPaths(POLICY, f)
    ensures var r := Eval(XmlCallback(), POLICY, acc, f); r.1 == OK ==> Read(acc, r.0, f, id, name)
    decreases f
  {
    hide Clean, PathOf, XmlCallback, EvalOne, Grew, GoodName, Buffers, HoldsOwner;
    match f
    case Nil =>
      GrewNot(acc, acc);
      Nothing(id);
      Nothing(name);
    case Text(t, rest) =>
      TextDropped(acc, POLICY, t);
      PolicyEval(acc, rest, id, name);
      PolicyText(t, rest);
    case Elem(n, kids, rest) =>
      EvalElem(XmlCallback(), POLICY, acc, n, kids, rest);
      PolicyChild(acc, n, kids, id, name);
      var r := EvalOne(XmlCallback(), POLICY, acc, n, kids);
      if r.1 == OK {
        var t, u := TextIn(kids, POLICY + [n], OWNER_ID), TextIn(kids, POLICY + [n], OWNER_NAME);
        PolicyEval(r.0, rest, id + t, name + u);
        var s := Eval(XmlCallback(), POLICY, r.0, rest);
        if s.1 == OK {
          Regroup(id, t, TextIn(rest, POLICY, OWNER_ID));
          Regroup(name, u, TextIn(rest, POLICY, OWNER_NAME));
          GrewTwice(acc, r.0, s.0, if n == "AccessControlList" then ElementsNamed(kids, "Grant") else [],
                    GrantElements(rest));
        }
      }
  }

  lemma PolicyText(t: string, rest: Forest)
    ensures TextIn(Text(t, rest), POLICY, OWNER_ID) == TextIn(rest, POLICY, OWNER_ID)
    ensures TextIn(Text(t, rest), POLICY, OWNER_NAME) == TextIn(rest, POLICY, OWNER_NAME)
  {
    Nothing(TextIn(rest, POLICY, OWNER_ID));
    Nothing(TextIn(rest, POLICY, OWNER_NAME));
  }

  lemma ReadFirst()
    ensures Clean(INITIAL) && |INITIAL.fields| == 7 && HoldsOwner(INITIAL, "", "") && INITIAL.state == []
  {}

  /** Any document that is read without an error: the owner's strings are the texts of the Owner element,
      and there is one grant for every Grant element, in order, saying what the element says. */
  lemma ReadingTells(kids: Forest)
    requires GoodNames(kids) && FitsPaths([], Elem("AccessControlPolicy", kids, Nil))
    requires Eval(XmlCallback(), [], INITIAL, Elem("AccessControlPolicy", kids, Nil)).1 == OK
    ensures var e := Eval(XmlCallback(), [], INITIAL, Elem("AccessControlPolicy", kids, Nil)).0;
      && |e.fields| == 7
      && Converted(e).ownerId
         == Kept(TextIn(kids, ["AccessControlPolicy"], ["AccessControlPolicy", "Owner", "ID"]), 126)
      && Converted(e).ownerDisplayName
         == Kept(TextIn(kids, ["AccessControlPolicy"], ["AccessControlPolicy", "Owner", "DisplayName"]), 126)
      && AllSay(Converted(e).grants, GrantElements(kids))
  {
    hide Eval, PathOf, XmlCallback, Clean, Says, TextIn, Kept, GrantElements, Buffers, Filled;
    ReadFirst();
    OwnerNames();
    assert [] + ["AccessControlPolicy"] == POLICY;
    EvalLast([], "AccessControlPolicy", INITIAL, kids);
    PolicyEval(INITIAL, kids, "", "");
    var id, name := TextIn(kids, POLICY, OWNER_ID), TextIn(kids, POLICY, OWNER_NAME);
    Nothing(id);
    Nothing(name);
    FilledKeeps(127, id);
    FilledKeeps(127, name);
    var e := Eval(XmlCallback(), [], INITIAL, Elem("AccessControlPolicy", kids, Nil)).0;
    assert e.state[0..] == e.state;
  }
}
