/** The streaming parse of a bucket listing (src/bucket.c): contents and common prefixes are
    collected in bounded buffers and handed to the user's callback in batches. */
module ListBucket {
  import opened Strings
  import opened Status
  import opened StringBuffers
  import opened UrlEncoding
  import opened SimpleXml
  import opened XmlDocuments
  import opened XmlRecords

  /** MAX_CONTENTS and MAX_COMMON_PREFIXES */
  const MAX_CONTENTS: nat := 32
  const MAX_COMMON_PREFIXES: nat := 8

  const ROOT := ["ListBucketResult"]
  const CONTENTS := ["ListBucketResult", "Contents"]
  const PREFIX := ["ListBucketResult", "CommonPrefixes", "Prefix"]

  /** The buffers of ListBucketData: two for the whole listing, the six of the current Contents, and
      the current prefix. The prefix buffer is a plain array of 1024 characters; the parse fails when
      a prefix has 1024 or more. */
  function Buffers(): Schema {
    [
      Field(ROOT + ["IsTruncated"], 64, OK),
      Field(ROOT + ["NextMarker"], 1024, OK),
      Field(CONTENTS + ["Key"], 1024, OK),
      Field(CONTENTS + ["LastModified"], 256, OK),
      Field(CONTENTS + ["ETag"], 256, OK),
      Field(CONTENTS + ["Size"], 24, OK),
      Field(CONTENTS + ["Owner", "ID"], 256, OK),
      Field(CONTENTS + ["Owner", "DisplayName"], 256, OK),
      Field(PREFIX, 1023, XmlParseFailure)
    ]
  }

  lemma ElementNames()
    ensures GoodName("ListBucketResult") && GoodName("Contents") && GoodName("CommonPrefixes")
  {}

  lemma FieldNames()
    ensures GoodName("IsTruncated") && GoodName("NextMarker") && GoodName("Key") && GoodName("LastModified")
  {}

  lemma OwnerNames()
    ensures GoodName("ETag") && GoodName("Size") && GoodName("Owner") && GoodName("ID") && GoodName("DisplayName")
    ensures GoodName("Prefix")
  {}

  lemma BuffersValid()
    ensures ValidSchema(Buffers()) && |Buffers()| == 9
    ensures GoodStack(ROOT) && GoodStack(CONTENTS) && GoodStack(PREFIX)
  {
    hide GoodName, Code, GoodStack;
    BufferStacks();
    BufferCodes();
    DistinctByCode(Buffers(), CODES);
  }

  const CODES := [(2, 11, 'I'), (2, 10, 'N'), (3, 3, 'K'), (3, 12, 'L'), (3, 4, 'E'), (3, 4, 'S'),
                  (4, 2, 'I'), (4, 11, 'D'), (3, 6, 'P')]

  lemma BufferCodes()
    ensures forall i :: 0 <= i < 9 ==> Code(Buffers()[i].names) == CODES[i]
  {}

  lemma BufferStacks()
    ensures forall i :: 0 <= i < 9 ==> GoodStack(Buffers()[i].names)
    ensures GoodStack(ROOT) && GoodStack(CONTENTS) && GoodStack(PREFIX)
  {
    hide GoodName;
    ElementNames();
    FieldNames();
    OwnerNames();
  }

  // ---------------------------------------------------------------- what the user's callback gets

  /** An S3ListBucketContent; lastModified is the text that parseIso8601Time is given. */
  datatype Content = Content(key: string, lastModified: string, eTag: string, size: nat,
                             ownerId: Option<string>, ownerDisplayName: Option<string>)

  datatype Batch = Batch(isTruncated: bool, nextMarker: string, contents: seq<Content>, commonPrefixes: seq<string>)

  /** The user's callback: the status it returns, given everything it has been handed so far. */
  type ListCallback = seq<Batch> -> S3Status

  function OrNull(s: string): Option<string> { if s == [] then None else Some(s) }

  /** The six buffers of a Contents, converted. */
  function Convert(r: Fields): Content
    requires |r| == 6
  {
    Content(r[0].text, r[1].text, r[2].text, ParsedNumber(r[3].text),
            OrNull(r[4].text), OrNull(r[5].text))
  }

  predicate Records(rs: seq<Fields>) { forall i :: 0 <= i < |rs| ==> |rs[i]| == 6 }

  function ConvertAll(rs: seq<Fields>): (r: seq<Content>)
    requires Records(rs)
    ensures |r| == |rs|
    ensures forall i :: 0 <= i < |rs| ==> r[i] == Convert(rs[i])
  {
    if rs == [] then [] else ConvertAll(rs[..|rs| - 1]) + [Convert(rs[|rs| - 1])]
  }

  // ---------------------------------------------------------------- the callback

  /** The completed part of ListBucketData, and what has been delivered to the user. */
  datatype ListState = ListState(contents: seq<Fields>, prefixes: seq<string>, delivered: seq<Batch>)

  type ListAcc = Acc<ListState>

  predicate WellShaped(acc: ListAcc) { |acc.fields| == 9 && Records(acc.state.contents) }

  /** Blank buffers for a Contents and for a prefix. */
  const BLANK_CONTENTS: Fields := [Empty(1024), Empty(256), Empty(256), Empty(24), Empty(256), Empty(256)]
  const BLANK_PREFIX: StrBuf := Empty(1023)

  function MakeBatch(acc: ListAcc): Batch
    requires WellShaped(acc)
  {
    var t := acc.fields[0].text;
    Batch(t == "true" || t == "1", acc.fields[1].text, ConvertAll(acc.state.contents), acc.state.prefixes)
  }

  /** make_list_bucket_callback, and initialize_list_bucket_data when the user accepts the batch. */
  function Deliver(reply: ListCallback, acc: ListAcc): (ListAcc, S3Status)
    requires WellShaped(acc)
  {
    var delivered := acc.state.delivered + [MakeBatch(acc)];
    var status := reply(delivered);
    if status != OK then (acc.(state := acc.state.(delivered := delivered)), status)
    else (Acc(acc.fields[..2] + BLANK_CONTENTS + [BLANK_PREFIX], ListState([], [], delivered)), OK)
  }

  /** The current Contents joins the finished ones. */
  function WithContents(acc: ListAcc): (r: ListAcc)
    requires WellShaped(acc)
    ensures WellShaped(r)
  {
    Acc(acc.fields[..2] + BLANK_CONTENTS + acc.fields[8..],
        acc.state.(contents := acc.state.contents + [acc.fields[2..8]]))
  }

  /** The current prefix joins the finished ones. */
  function WithPrefix(acc: ListAcc): (r: ListAcc)
    requires WellShaped(acc)
    ensures WellShaped(r)
  {
    Acc(acc.fields[..8] + [BLANK_PREFIX], acc.state.(prefixes := acc.state.prefixes + [acc.fields[8].text]))
  }

  /** The end of a Contents element. */
  function EndContents(reply: ListCallback, acc: ListAcc): (ListAcc, S3Status)
    requires WellShaped(acc)
  {
    var next := WithContents(acc);
    if |next.state.contents| == MAX_CONTENTS then Deliver(reply, next) else (next, OK)
  }

  /** The end of a Prefix element. */
  function EndPrefix(reply: ListCallback, acc: ListAcc): (ListAcc, S3Status)
    requires WellShaped(acc)
  {
    var next := WithPrefix(acc);
    if |next.state.prefixes| == MAX_COMMON_PREFIXES then Deliver(reply, next) else (next, OK)
  }

  function EndElement(reply: ListCallback): OnEnd<ListState> {
    (path: string, acc: ListAcc) =>
      if !WellShaped(acc) then (acc, OK)
      else if path == PathOf(CONTENTS) then EndContents(reply, acc)
      else if path == PathOf(PREFIX) then EndPrefix(reply, acc)
      else (acc, OK)
  }

  /** listBucketXmlCallback */
  function XmlCallback(reply: ListCallback): Callback<ListAcc> { Reader(Buffers(), EndElement(reply)) }

  /** listBucketCompleteCallback: what is left is delivered, and the user's answer is ignored. */
  function Complete(acc: ListAcc): seq<Batch>
    requires WellShaped(acc)
  {
    if acc.state.contents != [] || acc.state.prefixes != []
    then acc.state.delivered + [MakeBatch(acc)] else acc.state.delivered
  }

  const INITIAL: ListAcc := Acc([Empty(64), Empty(1024)] + BLANK_CONTENTS + [BLANK_PREFIX], ListState([], [], []))

  // ---------------------------------------------------------------- the listing in a document

  /** What the children of the root amount to, one entry per element, in document order. */
  datatype Item =
    | TopText(isTruncated: string, nextMarker: string)
    | ContentsItem(record: Fields)
    | PrefixItem(text: string)

  /** The six texts of a Contents element, each as far as its buffer holds it. */
  function RecordOf(kids: Forest): (r: Fields)
    ensures |r| == 6
  {
    var sc := Buffers();
    [Filled(1024, TextIn(kids, CONTENTS, sc[2].names)), Filled(256, TextIn(kids, CONTENTS, sc[3].names)),
     Filled(256, TextIn(kids, CONTENTS, sc[4].names)), Filled(24, TextIn(kids, CONTENTS, sc[5].names)),
     Filled(256, TextIn(kids, CONTENTS, sc[6].names)), Filled(256, TextIn(kids, CONTENTS, sc[7].names))]
  }

  /** The prefixes below a CommonPrefixes element. */
  function PrefixItems(f: Forest): seq<Item>
    decreases f
  {
    match f
    case Nil => []
    case Text(_, rest) => PrefixItems(rest)
    case Elem(n, kids, rest) =>
      (if n == "Prefix" then [PrefixItem(TextIn(kids, PREFIX, PREFIX))] else []) + PrefixItems(rest)
  }

  function ItemsOf(n: string, kids: Forest): seq<Item> {
    if n == "Contents" then [ContentsItem(RecordOf(kids))]
    else if n == "CommonPrefixes" then PrefixItems(kids)
    else [TopText(TextIn(kids, ROOT + [n], Buffers()[0].names), TextIn(kids, ROOT + [n], Buffers()[1].names))]
  }

  /** The items among the children of the root. */
  function Items(f: Forest): seq<Item>
    decreases f
  {
    match f
    case Nil => []
    case Text(_, rest) => Items(rest)
    case Elem(n, kids, rest) => ItemsOf(n, kids) + Items(rest)
  }

  /** The effect of one item. */
  function Apply(reply: ListCallback, acc: ListAcc, item: Item): (ListAcc, S3Status)
    requires WellShaped(acc)
  {
    match item
    case TopText(t, m) =>
      (acc.(fields := [acc.fields[0].Append(t), acc.fields[1].Append(m)] + acc.fields[2..]), OK)
    case ContentsItem(r) =>
      if |r| == 6 then EndContents(reply, acc.(fields := acc.fields[..2] + r + acc.fields[8..])) else (acc, OK)
    case PrefixItem(t) =>
      if |t| <= 1023 then EndPrefix(reply, acc.(fields := acc.fields[..8] + [Filled(1023, t)]))
      else (acc, XmlParseFailure)
  }

  lemma ApplyShape(reply: ListCallback, acc: ListAcc, item: Item)
    requires WellShaped(acc)
    ensures WellShaped(Apply(reply, acc, item).0)
  {}

  function ApplyAll(reply: ListCallback, acc: ListAcc, items: seq<Item>): (ListAcc, S3Status)
    requires WellShaped(acc)
    decreases |items|
  {
    if items == [] then (acc, OK)
    else
      var r := Apply(reply, acc, items[0]);
      ApplyShape(reply, acc, items[0]);
      if r.1 != OK then r else ApplyAll(reply, r.0, items[1..])
  }

  // ---------------------------------------------------------------- the parse follows the items

  /** Between items the buffers of the current Contents and prefix are blank. */
  ghost predicate Clean(acc: ListAcc) {
    WellShaped(acc) && ValidFields(Buffers(), acc.fields)
    && acc.fields[2..8] == BLANK_CONTENTS && acc.fields[8] == BLANK_PREFIX
  }

  /** Equal results; after a failed prefix the two may differ in the buffers. */
  ghost predicate Agree(e: (ListAcc, S3Status), r: (ListAcc, S3Status)) {
    e.1 == r.1 && e.0.state == r.0.state && (e.1 == OK ==> e.0 == r.0)
  }

  lemma PathCases(stack: seq<string>)
    requires GoodStack(stack)
    ensures PathOf(stack) == PathOf(CONTENTS) <==> stack == CONTENTS
    ensures PathOf(stack) == PathOf(PREFIX) <==> stack == PREFIX
  {
    BuffersValid();
    hide PathOf, GoodStack;
    PathsDistinct(stack, CONTENTS);
    PathsDistinct(stack, PREFIX);
  }

  /** Below a child of the root other than CommonPrefixes, and below a prefix, no end matters. */
  lemma QuietInside(reply: ListCallback, at: seq<string>)
    requires GoodStack(at)
    requires (|at| == 2 && at[1] != "CommonPrefixes") || (|at| == 3 && at[1] == "CommonPrefixes")
    ensures Quiet(EndElement(reply), at)
  {
    hide PathOf, GoodStack, EndContents, EndPrefix;
    forall inner: seq<string>, acc: ListAcc | at < inner && GoodStack(inner)
      ensures EndElement(reply)(PathOf(inner), acc) == (acc, OK)
    {
      PathCases(inner);
      assert inner[1] == at[1] && |inner| > |at|;
    }
  }

  lemma BlankFields(acc: ListAcc, i: nat, t: string)
    requires Clean(acc) && 2 <= i < 9
    ensures acc.fields[i].Append(t) == Filled(Buffers()[i].cap, t)
    ensures acc.fields[i].Fits(t) <==> |t| <= Buffers()[i].cap
  {
    hide Filled;
    FilledFromEmpty(Buffers()[i].cap, t);
    assert i < 8 ==> acc.fields[i] == acc.fields[2..8][i - 2] == BLANK_CONTENTS[i - 2];
  }

  lemma ContentsField(acc: ListAcc, kids: Forest, i: nat)
    requires Clean(acc) && GoodNames(kids) && i < 9
    ensures Takes(Buffers(), acc.fields, i, TextIn(kids, CONTENTS, Buffers()[i].names))
    ensures acc.fields[i].Append(TextIn(kids, CONTENTS, Buffers()[i].names))
         == (acc.fields[..2] + RecordOf(kids) + acc.fields[8..])[i]
  {
    hide Filled, TextIn;
    if i < 2 || i == 8 {
      ContentsApart(i);
      TextOutside(kids, CONTENTS, Buffers()[i].names);
      AppendNothing(acc.fields[i]);
    } else {
      BlankFields(acc, i, TextIn(kids, CONTENTS, Buffers()[i].names));
    }
  }

  /** A Contents element: its six texts end up in the buffers, and nothing else changes. */
  lemma CollectContents(acc: ListAcc, kids: Forest)
    requires Clean(acc) && GoodNames(kids)
    ensures Collect(Buffers(), acc.fields, CONTENTS, kids)
         == (acc.fields[..2] + RecordOf(kids) + acc.fields[8..], OK)
  {
    hide Collect, Filled, GoodStack, TextIn, Buffers, RecordOf, Takes, ValidSchema, Clean;
    BuffersValid();
    CleanShape(acc);
    CollectText(Buffers(), acc.fields, CONTENTS, kids);
    forall i | 0 <= i < 9
      ensures Takes(Buffers(), acc.fields, i, TextIn(kids, CONTENTS, Buffers()[i].names))
      ensures acc.fields[i].Append(TextIn(kids, CONTENTS, Buffers()[i].names))
           == (acc.fields[..2] + RecordOf(kids) + acc.fields[8..])[i]
    {
      ContentsField(acc, kids, i);
    }
    assert Collect(Buffers(), acc.fields, CONTENTS, kids).0 == acc.fields[..2] + RecordOf(kids) + acc.fields[8..];
  }

  lemma ContentsApart(i: nat)
    requires i < 2 || i == 8
    ensures !(CONTENTS <= Buffers()[i].names)
  {
    assert Buffers()[i].names[1] != CONTENTS[1];
  }

  /** A Prefix element. */
  lemma CollectPrefix(acc: ListAcc, kids: Forest)
    requires Clean(acc) && GoodNames(kids)
    ensures var r, t := Collect(Buffers(), acc.fields, PREFIX, kids), TextIn(kids, PREFIX, PREFIX);
      if |t| <= 1023 then r == (acc.fields[..8] + [Filled(1023, t)], OK) else r.1 == XmlParseFailure
  {
    hide Collect, Filled, GoodStack, TextIn;
    var sc, t := Buffers(), TextIn(kids, PREFIX, PREFIX);
    BuffersValid();
    CollectText(sc, acc.fields, PREFIX, kids);
    forall i | 0 <= i < 8
      ensures TextIn(kids, PREFIX, sc[i].names) == "" && Takes(sc, acc.fields, i, TextIn(kids, PREFIX, sc[i].names))
    {
      PrefixApart(i);
      TextOutside(kids, PREFIX, sc[i].names);
      AppendNothing(acc.fields[i]);
    }
    BlankFields(acc, 8, t);
    var r := Collect(sc, acc.fields, PREFIX, kids);
    assert Takes(sc, acc.fields, 8, t) <==> |t| <= 1023;
    assert r.1 == OK <==> |t| <= 1023;
    CollectStatus(sc, acc.fields, PREFIX, kids);
    if |t| <= 1023 {
      forall i | 0 <= i < 9 ensures r.0[i] == (acc.fields[..8] + [Filled(1023, t)])[i] {
        if i < 8 { AppendNothing(acc.fields[i]); }
      }
      assert r.0 == acc.fields[..8] + [Filled(1023, t)];
    }
  }

  lemma PrefixApart(i: nat)
    requires i < 8
    ensures !(PREFIX <= Buffers()[i].names)
  {
    assert |Buffers()[i].names| < 3 || Buffers()[i].names[1] != PREFIX[1];
  }

  /** The only status a buffer reports is XmlParseFailure. */
  lemma {:induction false} CollectStatus(sc: Schema, fields: Fields, at: seq<string>, f: Forest)
    requires |fields| == |sc| && forall i :: 0 <= i < |sc| ==> sc[i].overflow == OK || sc[i].overflow == XmlParseFailure
    ensures Collect(sc, fields, at, f).1 == OK || Collect(sc, fields, at, f).1 == XmlParseFailure
    decreases f
  {
    hide PathOf;
    match f
    case Nil =>
    case Text(t, rest) => CollectStatus(sc, Store(sc, fields, PathOf(at), t).0, at, rest);
    case Elem(n, kids, rest) =>
      CollectStatus(sc, fields, at + [n], kids);
      CollectStatus(sc, Collect(sc, fields, at + [n], kids).0, at, rest);
  }

  /** Any other child of the root can only hold the text of IsTruncated or NextMarker. */
  lemma CollectTop(acc: ListAcc, n: string, kids: Forest)
    requires Clean(acc) && GoodName(n) && GoodNames(kids) && n != "Contents" && n != "CommonPrefixes"
    ensures var at := ROOT + [n];
      Collect(Buffers(), acc.fields, at, kids) ==
        ([acc.fields[0].Append(TextIn(kids, at, Buffers()[0].names)),
          acc.fields[1].Append(TextIn(kids, at, Buffers()[1].names))]
         + acc.fields[2..], OK)
  {
    hide Collect, GoodStack, TextIn, GoodName, Buffers, Takes, ValidSchema, Clean;
    var sc, at := Buffers(), ROOT + [n];
    BuffersValid();
    TopStack(n);
    CleanShape(acc);
    CollectText(sc, acc.fields, at, kids);
    forall i | 0 <= i < 9
      ensures Takes(sc, acc.fields, i, TextIn(kids, at, sc[i].names))
      ensures i >= 2 ==> acc.fields[i].Append(TextIn(kids, at, sc[i].names)) == acc.fields[i]
    {
      TopField(acc, n, kids, i);
    }
    var r := Collect(sc, acc.fields, at, kids).0;
    assert r == [r[0], r[1]] + acc.fields[2..];
  }

  lemma TopStack(n: string)
    requires GoodName(n)
    ensures GoodStack(ROOT + [n])
  {
    hide GoodName, Buffers;
    BuffersValid();
    StackSnoc(ROOT, n);
  }

  lemma TopField(acc: ListAcc, n: string, kids: Forest, i: nat)
    requires Clean(acc) && n != "Contents" && n != "CommonPrefixes" && i < 9
    ensures Takes(Buffers(), acc.fields, i, TextIn(kids, ROOT + [n], Buffers()[i].names))
    ensures i >= 2 ==> acc.fields[i].Append(TextIn(kids, ROOT + [n], Buffers()[i].names)) == acc.fields[i]
  {
    hide TextIn;
    if i >= 2 {
      TopApart(n, i);
      TextOutside(kids, ROOT + [n], Buffers()[i].names);
      AppendNothing(acc.fields[i]);
    }
  }

  lemma TopApart(n: string, i: nat)
    requires n != "Contents" && n != "CommonPrefixes" && 2 <= i < 9
    ensures !(ROOT + [n] <= Buffers()[i].names)
  {
    assert Buffers()[i].names[1] != (ROOT + [n])[1];
  }

  lemma ContentsChild(reply: ListCallback, acc: ListAcc, kids: Forest)
    requires Clean(acc) && GoodNames(kids) && FitsPaths(CONTENTS, kids)
    ensures EvalOne(XmlCallback(reply), ROOT, acc, "Contents", kids) == Apply(reply, acc, ContentsItem(RecordOf(kids)))
  {
    hide Collect, Eval, FitsPaths, Filled, EndContents, EndPrefix, PathOf, GoodStack, Quiet, RecordOf, TextIn;
    BuffersValid();
    assert ROOT + ["Contents"] == CONTENTS;
    QuietInside(reply, CONTENTS);
    QuietEval(Buffers(), EndElement(reply), CONTENTS, acc, kids);
    CollectContents(acc, kids);
    PathCases(CONTENTS);
  }

  lemma TopChild(reply: ListCallback, acc: ListAcc, n: string, kids: Forest)
    requires Clean(acc) && GoodName(n) && GoodNames(kids) && FitsPaths(ROOT + [n], kids)
    requires n != "Contents" && n != "CommonPrefixes"
    ensures ItemsOf(n, kids) == [ItemsOf(n, kids)[0]]
    ensures EvalOne(XmlCallback(reply), ROOT, acc, n, kids) == Apply(reply, acc, ItemsOf(n, kids)[0])
  {
    hide Collect, Eval, FitsPaths, Filled, EndContents, EndPrefix, PathOf, GoodStack, Quiet, TextIn, GoodName;
    BuffersValid();
    StackSnoc(ROOT, n);
    var at := ROOT + [n];
    QuietInside(reply, at);
    QuietEval(Buffers(), EndElement(reply), at, acc, kids);
    CollectTop(acc, n, kids);
    PathCases(at);
    assert at[1] == n;
  }

  const COMMON := ROOT + ["CommonPrefixes"]

  /** What a child of CommonPrefixes does. */
  function PrefixEffect(reply: ListCallback, acc: ListAcc, n: string, kids: Forest): (ListAcc, S3Status)
    requires WellShaped(acc)
  {
    if n == "Prefix" then Apply(reply, acc, PrefixItem(TextIn(kids, PREFIX, PREFIX))) else (acc, OK)
  }

  lemma PrefixChild(reply: ListCallback, acc: ListAcc, n: string, kids: Forest)
    requires Clean(acc) && GoodName(n) && GoodNames(kids) && FitsPaths(COMMON + [n], kids)
    ensures Agree(EvalOne(XmlCallback(reply), COMMON, acc, n, kids), PrefixEffect(reply, acc, n, kids))
  {
    hide Collect, Eval, FitsPaths, Filled, EndContents, EndPrefix, PathOf, GoodStack, Quiet, TextIn, GoodName;
    BuffersValid();
    CommonStack();
    StackSnoc(COMMON, n);
    var at := COMMON + [n];
    assert at == ["ListBucketResult", "CommonPrefixes", n];
    QuietInside(reply, at);
    QuietEval(Buffers(), EndElement(reply), at, acc, kids);
    PathCases(at);
    if n == "Prefix" {
      CollectPrefix(acc, kids);
    } else {
      OtherThanPrefix(n);
      CollectNothing(Buffers(), acc.fields, at, kids);
    }
  }

  lemma CommonStack()
    ensures GoodStack(COMMON) && COMMON == ["ListBucketResult", "CommonPrefixes"]
  {
    hide GoodName;
    ElementNames();
    FieldNames();
    OwnerNames();
  }

  lemma OtherThanPrefix(n: string)
    requires n != "Prefix"
    ensures forall i :: 0 <= i < |Buffers()| ==> !(COMMON + [n] <= Buffers()[i].names)
  {
    var at := COMMON + [n];
    forall i | 0 <= i < |Buffers()| ensures !(at <= Buffers()[i].names) {
      if i < 8 {
        assert |Buffers()[i].names| < 3 || Buffers()[i].names[1] != at[1];
      } else {
        assert Buffers()[i].names[2] != at[2];
      }
    }
  }

  /** Text between elements is dropped. */
  lemma TextDropped(reply: ListCallback, acc: ListAcc, at: seq<string>, t: string)
    requires Clean(acc) && (at == ROOT || at == COMMON)
    ensures XmlCallback(reply)(PathOf(at), Some(t), acc) == (acc, OK)
  {
    hide PathOf, Store, GoodStack, GoodName;
    BuffersValid();
    CommonStack();
    forall i | 0 <= i < |Buffers()| ensures Buffers()[i].names != at {
      NoBufferAt(i);
    }
    StoreElsewhere(Buffers(), acc.fields, at, t);
  }

  lemma NoBufferAt(i: nat)
    requires i < |Buffers()|
    ensures Buffers()[i].names != ROOT && Buffers()[i].names != COMMON
  {
    assert |Buffers()[i].names| > 2 || |Buffers()[i].names[1]| < 14;
  }

  /** An accepted item leaves the buffers blank. */
  lemma ApplyClean(reply: ListCallback, acc: ListAcc, item: Item)
    requires Clean(acc) && (item.ContentsItem? ==> |item.record| == 6)
    ensures Apply(reply, acc, item).1 == OK ==> Clean(Apply(reply, acc, item).0)
  {
    hide Clean, WellShaped, EndContents, EndPrefix, Filled;
    CleanShape(acc);
    match item
    case TopText(t, m) => TopClean(acc, t, m);
    case ContentsItem(r) => ContentsClean(reply, acc, r);
    case PrefixItem(t) => if |t| <= 1023 { PrefixClean(reply, acc, t); }
  }

  lemma TopClean(acc: ListAcc, t: string, m: string)
    requires Clean(acc)
    ensures Clean(acc.(fields := [acc.fields[0].Append(t), acc.fields[1].Append(m)] + acc.fields[2..]))
  {
    AppendTwice(acc.fields[0], t, "");
    AppendTwice(acc.fields[1], m, "");
    assert acc.fields[2..][..6] == acc.fields[2..8];
  }

  lemma ContentsClean(reply: ListCallback, acc: ListAcc, r: Fields)
    requires Clean(acc) && |r| == 6
    ensures var e := EndContents(reply, acc.(fields := acc.fields[..2] + r + acc.fields[8..]));
      e.1 == OK ==> Clean(e.0)
  {}

  lemma PrefixClean(reply: ListCallback, acc: ListAcc, t: string)
    requires Clean(acc)
    ensures var e := EndPrefix(reply, acc.(fields := acc.fields[..8] + [Filled(1023, t)]));
      e.1 == OK ==> Clean(e.0)
  {}

  lemma ApplyCons(reply: ListCallback, acc: ListAcc, item: Item, items: seq<Item>)
    requires WellShaped(acc)
    ensures WellShaped(Apply(reply, acc, item).0)
    ensures ApplyAll(reply, acc, [item] + items) ==
      (var r := Apply(reply, acc, item); if r.1 != OK then r else ApplyAll(reply, r.0, items))
  {
    hide Apply, WellShaped;
    ApplyShape(reply, acc, item);
    assert ([item] + items)[1..] == items;
  }

  /** The children of CommonPrefixes. */
  lemma {:induction false} PrefixesEval(reply: ListCallback, acc: ListAcc, f: Forest)
    requires Clean(acc) && GoodNames(f) && FitsPaths(COMMON, f)
    ensures Agree(Eval(XmlCallback(reply), COMMON, acc, f), ApplyAll(reply, acc, PrefixItems(f)))
    ensures ApplyAll(reply, acc, PrefixItems(f)).1 == OK ==> Clean(ApplyAll(reply, acc, PrefixItems(f)).0)
    decreases f
  {
    hide Clean, PathOf, Apply, ApplyAll, XmlCallback, TextIn, WellShaped, EvalOne;
    CleanShape(acc);
    ApplyNone(reply, acc);
    match f
    case Nil =>
    case Text(t, rest) =>
      TextDropped(reply, acc, COMMON, t);
      PrefixesEval(reply, acc, rest);
    case Elem(n, kids, rest) =>
      EvalElem(XmlCallback(reply), COMMON, acc, n, kids, rest);
      PrefixChild(reply, acc, n, kids);
      var r := PrefixEffect(reply, acc, n, kids);
      if n == "Prefix" {
        var item := PrefixItem(TextIn(kids, PREFIX, PREFIX));
        ApplyCons(reply, acc, item, PrefixItems(rest));
        ApplyClean(reply, acc, item);
      } else {
        assert [] + PrefixItems(rest) == PrefixItems(rest);
      }
      if r.1 == OK {
        PrefixesEval(reply, r.0, rest);
      }
  }

  lemma CleanShape(acc: ListAcc)
    requires Clean(acc)
    ensures WellShaped(acc) && ValidFields(Buffers(), acc.fields) && |acc.fields| == 9
  {}

  lemma ApplyNone(reply: ListCallback, acc: ListAcc)
    requires WellShaped(acc)
    ensures ApplyAll(reply, acc, []) == (acc, OK)
  {}

  lemma {:induction false} ApplyAppend(reply: ListCallback, acc: ListAcc, a: seq<Item>, b: seq<Item>)
    requires WellShaped(acc)
    ensures WellShaped(ApplyAll(reply, acc, a).0)
    ensures ApplyAll(reply, acc, a + b) ==
      (var r := ApplyAll(reply, acc, a); if r.1 != OK then r else ApplyAll(reply, r.0, b))
    decreases |a|
  {
    hide Apply, WellShaped;
    if a == [] {
      assert a + b == b;
    } else {
      assert (a + b)[1..] == a[1..] + b;
      ApplyShape(reply, acc, a[0]);
      ApplyAppend(reply, Apply(reply, acc, a[0]).0, a[1..], b);
    }
  }

  lemma ChildEval(reply: ListCallback, acc: ListAcc, n: string, kids: Forest)
    requires Clean(acc) && GoodName(n) && GoodNames(kids) && FitsPaths(ROOT + [n], kids)
    ensures Agree(EvalOne(XmlCallback(reply), ROOT, acc, n, kids), ApplyAll(reply, acc, ItemsOf(n, kids)))
    ensures ApplyAll(reply, acc, ItemsOf(n, kids)).1 == OK ==> Clean(ApplyAll(reply, acc, ItemsOf(n, kids)).0)
  {
    hide Clean, PathOf, Apply, ApplyAll, TextIn, WellShaped, Eval, FitsPaths, RecordOf, PrefixItems, GoodName,
      EndContents, EndPrefix;
    CleanShape(acc);
    if n == "CommonPrefixes" {
      PrefixesEval(reply, acc, kids);
      CommonEnds(reply, acc, kids);
    } else {
      var item := if n == "Contents" then ContentsItem(RecordOf(kids)) else ItemsOf(n, kids)[0];
      assert ItemsOf(n, kids) == [item];
      assert [item] + [] == [item];
      if n == "Contents" {
        ContentsPaths(kids);
        ContentsChild(reply, acc, kids);
      } else {
        TopChild(reply, acc, n, kids);
      }
      ApplyCons(reply, acc, item, []);
      ApplyShape(reply, acc, item);
      ApplyClean(reply, acc, item);
      ApplyNone(reply, Apply(reply, acc, item).0);
    }
  }

  lemma ContentsPaths(kids: Forest)
    requires FitsPaths(ROOT + ["Contents"], kids)
    ensures FitsPaths(CONTENTS, kids)
  {
    assert ROOT + ["Contents"] == CONTENTS;
  }

  /** The end of CommonPrefixes itself does nothing. */
  lemma CommonEnds(reply: ListCallback, acc: ListAcc, kids: Forest)
    ensures EvalOne(XmlCallback(reply), ROOT, acc, "CommonPrefixes", kids)
      == Eval(XmlCallback(reply), COMMON, acc, kids)
  {
    hide PathOf, EndContents, EndPrefix, GoodStack, Eval;
    CommonStack();
    PathCases(COMMON);
  }

  /** The parse of the root's children is the run of their items. */
  lemma {:induction false} ItemsEval(reply: ListCallback, acc: ListAcc, f: Forest)
    requires Clean(acc) && GoodNames(f) && FitsPaths(ROOT, f)
    ensures Agree(Eval(XmlCallback(reply), ROOT, acc, f), ApplyAll(reply, acc, Items(f)))
    ensures ApplyAll(reply, acc, Items(f)).1 == OK ==> Clean(ApplyAll(reply, acc, Items(f)).0)
    decreases f
  {
    hide Clean, PathOf, Apply, ApplyAll, XmlCallback, TextIn, WellShaped, EvalOne, ItemsOf;
    CleanShape(acc);
    ApplyNone(reply, acc);
    match f
    case Nil =>
    case Text(t, rest) =>
      TextDropped(reply, acc, ROOT, t);
      ItemsEval(reply, acc, rest);
    case Elem(n, kids, rest) =>
      EvalElem(XmlCallback(reply), ROOT, acc, n, kids, rest);
      ChildEval(reply, acc, n, kids);
      ApplyAppend(reply, acc, ItemsOf(n, kids), Items(rest));
      var r := ApplyAll(reply, acc, ItemsOf(n, kids));
      if r.1 == OK {
        ItemsEval(reply, r.0, rest);
      }
  }
}
