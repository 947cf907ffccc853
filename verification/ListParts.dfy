/** The listing of the parts of a multipart upload (src/multipart.c): parts are handed to the user in
    batches of 32, each with the number of parts that came before it. */
module ListParts {
  import opened Strings
  import opened Status
  import opened StringBuffers
  import opened UrlEncoding
  import opened SimpleXml
  import opened XmlDocuments
  import opened XmlRecords

  const MAX_PARTS: nat := 32

  const ROOT := ["ListPartsResult"]
  const PART := ROOT + ["Part"]

  /** The buffers of ListPartsData: seven for the whole listing, and the four of the current part. */
  function Buffers(): Schema {
    [
      Field(ROOT + ["IsTruncated"], 64, OK),
      Field(ROOT + ["NextPartNumberMarker"], 1024, OK),
      Field(ROOT + ["StorageClass"], 256, OK),
      Field(ROOT + ["Initiator", "ID"], 256, OK),
      Field(ROOT + ["Initiator", "DisplayName"], 256, OK),
      Field(ROOT + ["Owner", "ID"], 256, OK),
      Field(ROOT + ["Owner", "DisplayName"], 256, OK),
      Field(PART + ["PartNumber"], 24, OK),
      Field(PART + ["LastModified"], 256, OK),
      Field(PART + ["ETag"], 1024, OK),
      Field(PART + ["Size"], 256, OK)
    ]
  }

  // ---------------------------------------------------------------- what the user's callback gets

  /** An S3ListPart; lastModified is the text that parseIso8601Time is given. */
  datatype PartInfo = PartInfo(eTag: string, partNumber: nat, size: nat, lastModified: string)

  /** The arguments of the user's callback. */
  datatype Batch = Batch(
    isTruncated: bool,
    nextPartNumberMarker: string,
    initiatorId: string,
    initiatorDisplayName: string,
    ownerId: string,
    ownerDisplayName: string,
    storageClass: string,
    start: nat,                   // handlePartsStart
    parts: seq<PartInfo>)

  type PartsCallback = seq<Batch> -> S3Status

  function Convert(r: Fields): PartInfo
    requires |r| == 4
  {
    PartInfo(r[2].text, ParsedNumber(r[0].text), ParsedNumber(r[3].text), r[1].text)
  }

  predicate Records(rs: seq<Fields>) { forall i :: 0 <= i < |rs| ==> |rs[i]| == 4 }

  function ConvertAll(rs: seq<Fields>): (r: seq<PartInfo>)
    requires Records(rs)
    ensures |r| == |rs|
  {
    if rs == [] then [] else ConvertAll(rs[..|rs| - 1]) + [Convert(rs[|rs| - 1])]
  }

  // ---------------------------------------------------------------- the callback

  /** The finished parts, handlePartsStart, and what the user has been given. */
  datatype PartsState = PartsState(parts: seq<Fields>, start: nat, delivered: seq<Batch>)

  type PartsAcc = Acc<PartsState>

  const BLANK_PART: Fields := [Empty(24), Empty(256), Empty(1024), Empty(256)]
  const INITIAL: PartsAcc :=
    Acc([Empty(64), Empty(1024), Empty(256), Empty(256), Empty(256), Empty(256), Empty(256)] + BLANK_PART,
        PartsState([], 0, []))

  predicate WellShaped(acc: PartsAcc) { |acc.fields| == 11 && Records(acc.state.parts) }

  function MakeBatch(acc: PartsAcc): Batch
    requires WellShaped(acc)
  {
    var t := acc.fields[0].text;
    Batch(t == "true" || t == "1", acc.fields[1].text, acc.fields[3].text, acc.fields[4].text, acc.fields[5].text,
          acc.fields[6].text, acc.fields[2].text, acc.state.start, ConvertAll(acc.state.parts))
  }

  /** The end of a Part element. */
  function EndPart(reply: PartsCallback, acc: PartsAcc): (PartsAcc, S3Status)
    requires WellShaped(acc)
  {
    var next := Acc(acc.fields[..7] + BLANK_PART, acc.state.(parts := acc.state.parts + [acc.fields[7..]]));
    if |next.state.parts| < MAX_PARTS then (next, OK)
    else
      var delivered := acc.state.delivered + [MakeBatch(next)];
      var status := reply(delivered);
      if status != OK then (next.(state := next.state.(delivered := delivered)), status)
      else (next.(state := PartsState([], acc.state.start + |next.state.parts|, delivered)), OK)
  }

  function EndElement(reply: PartsCallback): OnEnd<PartsState> {
    (path: string, acc: PartsAcc) =>
      if path == PathOf(PART) && WellShaped(acc) then EndPart(reply, acc) else (acc, OK)
  }

  /** listPartsXmlCallback */
  function XmlCallback(reply: PartsCallback): Callback<PartsAcc> { Reader(Buffers(), EndElement(reply)) }

  /** listPartsCompleteCallback: what is left is delivered. */
  function Complete(acc: PartsAcc): seq<Batch>
    requires WellShaped(acc)
  {
    if acc.state.parts != [] then acc.state.delivered + [MakeBatch(acc)] else acc.state.delivered
  }

  // ---------------------------------------------------------------- the buffers

  lemma TopNames()
    ensures GoodName("ListPartsResult") && GoodName("Part") && GoodName("IsTruncated")
  {}

  lemma MarkerNames()
    ensures GoodName("NextPartNumberMarker") && GoodName("StorageClass")
  {}

  lemma OwnerNames()
    ensures GoodName("Initiator") && GoodName("Owner") && GoodName("ID") && GoodName("DisplayName")
  {}

  lemma PartNames()
    ensures GoodName("PartNumber") && GoodName("LastModified") && GoodName("ETag") && GoodName("Size")
  {}

  /** Tells the names of the buffers apart. */
  function Mark(names: seq<string>): (nat, nat, nat) {
    if |names| < 2 then (|names|, 0, 0) else (|names|, |names[1]|, |names[|names| - 1]|)
  }

  const MARKS := [(2, 11, 11), (2, 20, 20), (2, 12, 12), (3, 9, 2), (3, 9, 11), (3, 5, 2), (3, 5, 11),
                  (3, 4, 10), (3, 4, 12), (3, 4, 4), (3, 4, 4)]

  lemma BufferMarks()
    ensures forall i :: 0 <= i < 11 ==> Mark(Buffers()[i].names) == MARKS[i]
    ensures Buffers()[9].names[2] != Buffers()[10].names[2]
  {}

  lemma BufferStacks()
    ensures |Buffers()| == 11 && GoodStack(ROOT) && GoodStack(PART)
    ensures forall i :: 0 <= i < 11 ==> GoodStack(Buffers()[i].names)
  {
    hide GoodName;
    TopNames();
    MarkerNames();
    OwnerNames();
    PartNames();
  }

  lemma BuffersValid()
    ensures ValidSchema(Buffers()) && |Buffers()| == 11 && GoodStack(ROOT) && GoodStack(PART)
  {
    hide GoodStack, Mark, Buffers;
    BufferStacks();
    BufferMarks();
    forall i, j | 0 <= i < j < 11 ensures Buffers()[i].names != Buffers()[j].names {
      assert Mark(Buffers()[i].names) == MARKS[i] && Mark(Buffers()[j].names) == MARKS[j];
    }
  }

  lemma NoOverflow()
    ensures |Buffers()| == 11 && forall i :: 0 <= i < 11 ==> Buffers()[i].overflow == OK
    ensures forall i :: 0 <= i < 4 ==>
      Buffers()[7 + i].cap == BLANK_PART[i].cap && BLANK_PART[i] == Empty(BLANK_PART[i].cap)
  {}

  /** Which children of the root a buffer belongs to. */
  lemma Apart(n: string, i: nat)
    requires i < 11
    ensures i < 7 ==> !(PART <= Buffers()[i].names)
    ensures i >= 7 && n != "Part" ==> !(ROOT + [n] <= Buffers()[i].names)
  {
    assert i < 7 ==> Buffers()[i].names[1] != PART[1];
    assert i >= 7 ==> Buffers()[i].names[1] == "Part" && (ROOT + [n])[1] == n;
  }

  lemma PartPath(stack: seq<string>)
    requires GoodStack(stack)
    ensures PathOf(stack) == PathOf(PART) <==> stack == PART
  {
    BuffersValid();
    hide PathOf, GoodStack, Buffers;
    PathsDistinct(stack, PART);
  }

  lemma QuietInside(reply: PartsCallback, at: seq<string>)
    requires GoodStack(at) && |at| == 2
    ensures Quiet(EndElement(reply), at)
  {
    hide PathOf, GoodStack, EndPart, Buffers;
    forall inner: seq<string>, acc: PartsAcc | at < inner && GoodStack(inner)
      ensures EndElement(reply)(PathOf(inner), acc) == (acc, OK)
    {
      PartPath(inner);
    }
  }

  // ---------------------------------------------------------------- reading the children of the root

  ghost predicate Clean(acc: PartsAcc) {
    WellShaped(acc) && ValidFields(Buffers(), acc.fields) && acc.fields[7..] == BLANK_PART
  }

  /** The four texts of a Part element, each as far as its buffer holds it. */
  function RecordOf(kids: Forest): (r: Fields)
    ensures |r| == 4
  {
    var sc := Buffers();
    [Filled(24, TextIn(kids, PART, sc[7].names)), Filled(256, TextIn(kids, PART, sc[8].names)),
     Filled(1024, TextIn(kids, PART, sc[9].names)), Filled(256, TextIn(kids, PART, sc[10].names))]
  }

  /** The effect of one child of the root. */
  function Child(reply: PartsCallback, acc: PartsAcc, n: string, kids: Forest): (PartsAcc, S3Status)
    requires WellShaped(acc)
  {
    if n == "Part" then EndPart(reply, acc.(fields := acc.fields[..7] + RecordOf(kids)))
    else (acc.(fields := Collect(Buffers(), acc.fields, ROOT + [n], kids).0), OK)
  }

  lemma PartField(acc: PartsAcc, kids: Forest, i: nat)
    requires Clean(acc) && i < 11
    ensures acc.fields[i].Append(TextIn(kids, PART, Buffers()[i].names)) == (acc.fields[..7] + RecordOf(kids))[i]
  {
    hide TextIn, Filled;
    if i < 7 {
      Apart("", i);
      TextOutside(kids, PART, Buffers()[i].names);
      AppendNothing(acc.fields[i]);
    } else {
      assert acc.fields[i] == acc.fields[7..][i - 7];
      FilledFromEmpty(Buffers()[i].cap, TextIn(kids, PART, Buffers()[i].names));
    }
  }

  lemma CollectAny(acc: PartsAcc, at: seq<string>, kids: Forest)
    requires Clean(acc) && GoodStack(at) && GoodNames(kids)
    ensures var r := Collect(Buffers(), acc.fields, at, kids);
      && r.1 == OK && |r.0| == 11 && ValidFields(Buffers(), r.0)
      && forall i :: 0 <= i < 11 ==> r.0[i] == acc.fields[i].Append(TextIn(kids, at, Buffers()[i].names))
  {
    hide Collect, TextIn, ValidSchema, GoodStack, Buffers;
    BuffersValid();
    NoOverflow();
    CollectText(Buffers(), acc.fields, at, kids);
  }

  lemma CollectPart(acc: PartsAcc, kids: Forest)
    requires Clean(acc) && GoodNames(kids)
    ensures Collect(Buffers(), acc.fields, PART, kids) == (acc.fields[..7] + RecordOf(kids), OK)
  {
    hide Collect, TextIn, Buffers, RecordOf, GoodStack, ValidFields, Clean;
    BuffersValid();
    CleanShape(acc);
    CollectAny(acc, PART, kids);
    forall i | 0 <= i < 11
      ensures acc.fields[i].Append(TextIn(kids, PART, Buffers()[i].names)) == (acc.fields[..7] + RecordOf(kids))[i]
    {
      PartField(acc, kids, i);
    }
    assert Collect(Buffers(), acc.fields, PART, kids).0 == acc.fields[..7] + RecordOf(kids);
  }

  lemma CleanShape(acc: PartsAcc)
    requires Clean(acc)
    ensures WellShaped(acc) && ValidFields(Buffers(), acc.fields)
    ensures forall i :: 0 <= i < 11 ==> acc.fields[i].Valid()
  {}

  /** Another child leaves the buffers of the part blank. */
  lemma CollectOther(acc: PartsAcc, n: string, kids: Forest)
    requires Clean(acc) && GoodName(n) && GoodNames(kids) && n != "Part"
    ensures var r := Collect(Buffers(), acc.fields, ROOT + [n], kids);
      r.1 == OK && Clean(acc.(fields := r.0))
  {
    hide Collect, TextIn, Buffers, GoodStack, ValidFields, GoodName;
    BuffersValid();
    StackSnoc(ROOT, n);
    CollectAny(acc, ROOT + [n], kids);
    var r := Collect(Buffers(), acc.fields, ROOT + [n], kids).0;
    forall i | 7 <= i < 11 ensures r[i] == acc.fields[i] {
      Apart(n, i);
      TextOutside(kids, ROOT + [n], Buffers()[i].names);
      CleanShape(acc);
      AppendNothing(acc.fields[i]);
    }
    assert r[7..] == acc.fields[7..];
  }

  lemma ChildEval(reply: PartsCallback, acc: PartsAcc, n: string, kids: Forest)
    requires Clean(acc) && GoodName(n) && GoodNames(kids) && FitsPaths(ROOT + [n], kids)
    ensures EvalOne(XmlCallback(reply), ROOT, acc, n, kids) == Child(reply, acc, n, kids)
    ensures Child(reply, acc, n, kids).1 == OK ==> Clean(Child(reply, acc, n, kids).0)
  {
    hide Collect, Eval, FitsPaths, EndPart, PathOf, GoodStack, Quiet, Buffers, RecordOf, Clean, GoodName;
    BuffersValid();
    CleanShape(acc);
    ChildStack(n);
    var at := ROOT + [n];
    QuietInside(reply, at);
    QuietEval(Buffers(), EndElement(reply), at, acc, kids);
    PartPath(at);
    if n == "Part" {
      CollectPart(acc, kids);
      EndPartClean(reply, acc, RecordOf(kids));
    } else {
      assert at[1] != PART[1];
      CollectOther(acc, n, kids);
    }
  }

  lemma ChildStack(n: string)
    requires GoodName(n)
    ensures GoodStack(ROOT + [n]) && |ROOT + [n]| == 2 && (n == "Part" ==> ROOT + [n] == PART)
  {
    hide GoodName, Buffers;
    BuffersValid();
    StackSnoc(ROOT, n);
  }

  lemma EndPartClean(reply: PartsCallback, acc: PartsAcc, r: Fields)
    requires Clean(acc) && |r| == 4
    ensures var e := EndPart(reply, acc.(fields := acc.fields[..7] + r));
      e.1 == OK ==> Clean(e.0)
  {
    hide Convert, ConvertAll;
    var full := acc.fields[..7] + r;
    assert full[..7] + BLANK_PART == acc.fields[..7] + acc.fields[7..] == acc.fields;
  }

  /** The parse of the root's children. */
  function Children(reply: PartsCallback, acc: PartsAcc, f: Forest): (PartsAcc, S3Status)
    requires Clean(acc) && GoodNames(f) && FitsPaths(ROOT, f)
    decreases f
  {
    match f
    case Nil => (acc, OK)
    case Text(_, rest) => Children(reply, acc, rest)
    case Elem(n, kids, rest) =>
      CleanShape(acc);
      ChildEval(reply, acc, n, kids);
      var r := Child(reply, acc, n, kids);
      if r.1 != OK then r else Children(reply, r.0, rest)
  }

  lemma TextDropped(reply: PartsCallback, acc: PartsAcc, t: string)
    requires Clean(acc)
    ensures XmlCallback(reply)(PathOf(ROOT), Some(t), acc) == (acc, OK)
  {
    hide PathOf, Store, GoodStack;
    BuffersValid();
    StoreElsewhere(Buffers(), acc.fields, ROOT, t);
  }

  lemma {:induction false} ChildrenEval(reply: PartsCallback, acc: PartsAcc, f: Forest)
    requires Clean(acc) && GoodNames(f) && FitsPaths(ROOT, f)
    ensures Eval(XmlCallback(reply), ROOT, acc, f) == Children(reply, acc, f)
    decreases f
  {
    hide Clean, PathOf, XmlCallback, EvalOne, Child;
    match f
    case Nil =>
    case Text(t, rest) =>
      TextDropped(reply, acc, t);
      ChildrenEval(reply, acc, rest);
    case Elem(n, kids, rest) =>
      CleanShape(acc);
      EvalElem(XmlCallback(reply), ROOT, acc, n, kids, rest);
      ChildEval(reply, acc, n, kids);
      var r := Child(reply, acc, n, kids);
      if r.1 == OK {
        ChildrenEval(reply, r.0, rest);
      }
  }

  // ---------------------------------------------------------------- the batches are the parts of the document

  /** The parts among the children of the root. */
  function PartsOf(f: Forest): seq<PartInfo>
    decreases f
  {
    match f
    case Nil => []
    case Text(_, rest) => PartsOf(rest)
    case Elem(n, kids, rest) => (if n == "Part" then [Convert(RecordOf(kids))] else []) + PartsOf(rest)
  }

  function AllParts(bs: seq<Batch>): seq<PartInfo> {
    if bs == [] then [] else AllParts(bs[..|bs| - 1]) + bs[|bs| - 1].parts
  }

  /** Every batch has between one and 32 parts, and begins where those before it have ended. */
  ghost predicate Numbered(bs: seq<Batch>) {
    forall k :: 0 <= k < |bs| ==> 0 < |bs[k].parts| <= 32 && bs[k].start == |AllParts(bs[..k])|
  }

  lemma AllSnoc(bs: seq<Batch>, b: Batch)
    ensures AllParts(bs + [b]) == AllParts(bs) + b.parts
  {
    assert (bs + [b])[..|bs|] == bs;
  }

  lemma NumberedSnoc(bs: seq<Batch>, b: Batch)
    requires Numbered(bs) && 0 < |b.parts| <= MAX_PARTS && b.start == |AllParts(bs)|
    ensures Numbered(bs + [b])
  {
    hide AllParts;
    var more := bs + [b];
    forall k | 0 <= k < |more|
      ensures 0 < |more[k].parts| <= MAX_PARTS && more[k].start == |AllParts(more[..k])|
    {
      assert more[..k] == if k < |bs| then bs[..k] else bs;
    }
  }

  lemma ConvertSnoc(rs: seq<Fields>, r: Fields)
    requires Records(rs) && |r| == 4
    ensures Records(rs + [r]) && ConvertAll(rs + [r]) == ConvertAll(rs) + [Convert(r)]
  {
    hide Convert;
    assert (rs + [r])[..|rs|] == rs;
  }

  /** Delivered and still pending together. */
  function Listed(acc: PartsAcc): seq<PartInfo>
    requires WellShaped(acc)
  {
    AllParts(acc.state.delivered) + ConvertAll(acc.state.parts)
  }

  ghost predicate Bounded(acc: PartsAcc) {
    && WellShaped(acc) && |acc.state.parts| < MAX_PARTS
    && Numbered(acc.state.delivered) && acc.state.start == |AllParts(acc.state.delivered)|
  }

  lemma EndPartCarries(reply: PartsCallback, acc: PartsAcc)
    requires Bounded(acc)
    ensures var e := EndPart(reply, acc);
      e.1 == OK ==> Bounded(e.0) && Listed(e.0) == Listed(acc) + [Convert(acc.fields[7..])]
  {
    hide AllParts, Convert, ConvertAll, Numbered;
    var rec := acc.fields[7..];
    ConvertSnoc(acc.state.parts, rec);
    Regroup(AllParts(acc.state.delivered), ConvertAll(acc.state.parts), [Convert(rec)]);
    var next := Acc(acc.fields[..7] + BLANK_PART, acc.state.(parts := acc.state.parts + [rec]));
    if |next.state.parts| == MAX_PARTS {
      NumberedSnoc(acc.state.delivered, MakeBatch(next));
      AllSnoc(acc.state.delivered, MakeBatch(next));
      Nothing(AllParts(acc.state.delivered + [MakeBatch(next)]));
    }
  }

  /** A parse that ends well has handed over, or still holds, every part of the document once and in
      order, and tells the user with every batch where it begins. */
  lemma {:induction false} PartsAreCarried(reply: PartsCallback, acc: PartsAcc, f: Forest)
    requires Clean(acc) && Bounded(acc) && GoodNames(f) && FitsPaths(ROOT, f)
    requires Children(reply, acc, f).1 == OK
    ensures var r := Children(reply, acc, f).0;
      Bounded(r) && Listed(r) == Listed(acc) + PartsOf(f)
    decreases f
  {
    hide Clean, Listed, EndPart, RecordOf, Convert, Collect, Numbered, Buffers;
    match f
    case Nil =>
      Nothing(Listed(acc));
    case Text(_, rest) =>
      PartsAreCarried(reply, acc, rest);
    case Elem(n, kids, rest) =>
      CleanShape(acc);
      ChildEval(reply, acc, n, kids);
      ChildCarries(reply, acc, n, kids);
      var r := Child(reply, acc, n, kids).0;
      PartsAreCarried(reply, r, rest);
      Regroup(Listed(acc), if n == "Part" then [Convert(RecordOf(kids))] else [], PartsOf(rest));
  }

  lemma ChildCarries(reply: PartsCallback, acc: PartsAcc, n: string, kids: Forest)
    requires Bounded(acc) && Child(reply, acc, n, kids).1 == OK
    requires n != "Part" ==> WellShaped(Child(reply, acc, n, kids).0)
    ensures var r := Child(reply, acc, n, kids).0;
      Bounded(r) && Listed(r) == Listed(acc) + if n == "Part" then [Convert(RecordOf(kids))] else []
  {
    hide EndPart, RecordOf, Convert, ConvertAll, Collect, AllParts, Numbered, Buffers;
    if n == "Part" {
      var full := acc.(fields := acc.fields[..7] + RecordOf(kids));
      assert full.fields[7..] == RecordOf(kids);
      EndPartCarries(reply, full);
    } else {
      Nothing(Listed(acc));
    }
  }

  /** At the end of the request the user has everything. */
  lemma CompleteDeliversAll(acc: PartsAcc)
    requires Bounded(acc)
    ensures AllParts(Complete(acc)) == Listed(acc) && Numbered(Complete(acc))
  {
    hide AllParts, Convert, ConvertAll, Numbered;
    AllSnoc(acc.state.delivered, MakeBatch(acc));
    Nothing(AllParts(acc.state.delivered));
    if acc.state.parts != [] {
      NumberedSnoc(acc.state.delivered, MakeBatch(acc));
    }
  }

  function Reply(kids: Forest): Forest { Elem("ListPartsResult", kids, Nil) }

  lemma InitialState()
    ensures Clean(INITIAL) && Bounded(INITIAL) && Listed(INITIAL) == [] && ValidFields(Buffers(), INITIAL.fields)
  {}

  lemma ReplyEval(reply: PartsCallback, kids: Forest)
    requires FitsPaths([], Reply(kids))
    ensures Eval(XmlCallback(reply), [], INITIAL, Reply(kids)) == Eval(XmlCallback(reply), ROOT, INITIAL, kids)
    ensures FitsPaths(ROOT, kids)
  {
    hide Eval, PathOf, EndPart, Buffers, GoodStack;
    assert [] + ["ListPartsResult"] == ROOT;
    EvalElem(XmlCallback(reply), [], INITIAL, "ListPartsResult", kids, Nil);
    BufferStacks();
    PartPath(ROOT);
    EvalNothing(XmlCallback(reply), [], EvalOne(XmlCallback(reply), [], INITIAL, "ListPartsResult", kids).0);
  }

  /** The parts that the user is given, over all batches, are the parts of the document in order; the
      i-th part of a batch is the (start + i)-th part of the listing. */
  lemma PartsListing(reply: PartsCallback, kids: Forest)
    requires GoodNames(kids) && FitsPaths([], Reply(kids))
    requires Eval(XmlCallback(reply), [], INITIAL, Reply(kids)).1 == OK
    ensures var r := Eval(XmlCallback(reply), [], INITIAL, Reply(kids)).0;
      && WellShaped(r)
      && AllParts(Complete(r)) == PartsOf(kids)
      && Numbered(Complete(r))
  {
    hide Eval, Clean, Listed, AllParts, PartsOf, Numbered, XmlCallback, Complete, Children;
    InitialState();
    ReplyEval(reply, kids);
    ChildrenEval(reply, INITIAL, kids);
    PartsAreCarried(reply, INITIAL, kids);
    var r := Eval(XmlCallback(reply), [], INITIAL, Reply(kids)).0;
    CompleteDeliversAll(r);
    assert [] + PartsOf(kids) == PartsOf(kids);
  }

  /** Where the user finds a part. */
  lemma {:induction false} BatchIndex(bs: seq<Batch>, k: nat, i: nat)
    requires Numbered(bs) && k < |bs| && i < |bs[k].parts|
    ensures bs[k].start + i < |AllParts(bs)| && AllParts(bs)[bs[k].start + i] == bs[k].parts[i]
    decreases |bs|
  {
    hide AllParts, Numbered;
    var n := |bs| - 1;
    assert bs == bs[..n] + [bs[n]];
    AllSnoc(bs[..n], bs[n]);
    NumberedAt(bs, n);
    if k < n {
      BatchIndex(bs[..n], k, i);
    }
  }

  lemma NumberedAt(bs: seq<Batch>, n: nat)
    requires Numbered(bs) && n < |bs|
    ensures Numbered(bs[..n]) && bs[n].start == |AllParts(bs[..n])|
  {
    hide AllParts;
    forall k | 0 <= k < n ensures bs[..n][..k] == bs[..k] {
    }
  }

  // ---------------------------------------------------------------- chunks

  lemma EndPartKeeps(reply: PartsCallback, acc: PartsAcc)
    requires ValidFields(Buffers(), acc.fields) && WellShaped(acc)
    ensures ValidFields(Buffers(), EndPart(reply, acc).0.fields)
  {
    hide Convert, ConvertAll, MakeBatch;
    assert forall i :: 7 <= i < 11 ==> (acc.fields[..7] + BLANK_PART)[i] == BLANK_PART[i - 7];
  }

  /** However the text of the reply is cut into chunks, the outcome is the same. */
  lemma PartsIgnoreChunks(reply: PartsCallback, f: Forest, g: Forest)
    requires Merge(f) == Merge(g)
    ensures Eval(XmlCallback(reply), [], INITIAL, f) == Eval(XmlCallback(reply), [], INITIAL, g)
  {
    hide Eval, Merge, Additive, Preserves, ValidFields, Buffers, EndPart, PathOf, WellShaped;
    forall path: string, acc: PartsAcc | ValidFields(Buffers(), acc.fields)
      ensures ValidFields(Buffers(), EndElement(reply)(path, acc).0.fields)
    {
      if WellShaped(acc) { EndPartKeeps(reply, acc); }
    }
    ReaderAdditive(Buffers(), EndElement(reply));
    InitialState();
    SameTextSameResult(XmlCallback(reply), Intact(Buffers()), [], INITIAL, f, g);
  }
}
