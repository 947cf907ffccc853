/** What the user is told by a listing of parts, in terms of the elements of the reply (src/multipart.c). */
module PartFields {
  import opened Strings
  import opened Status
  import opened StringBuffers
  import opened UrlEncoding
  import opened XmlDocuments
  import opened XmlRecords
  import opened ListParts

  // ---------------------------------------------------------------- the parts

  /** The text below a Part element under that name, as far as a buffer of that size keeps it. */
  function PartText(part: Forest, name: string, size: nat): string {
    Kept(TextIn(part, ["ListPartsResult", "Part"], ["ListPartsResult", "Part", name]), size)
  }

  /** p says what the Part element says. */
  ghost predicate Says(p: PartInfo, part: Forest) {
    && p.partNumber == ParsedNumber(PartText(part, "PartNumber", 23))
    && p.lastModified == PartText(part, "LastModified", 255)
    && p.eTag == PartText(part, "ETag", 1023)
    && p.size == ParsedNumber(PartText(part, "Size", 255))
  }

  lemma BufferNames()
    ensures |Buffers()| == 11 && PART == ["ListPartsResult", "Part"]
    ensures Buffers()[7].names == ["ListPartsResult", "Part", "PartNumber"]
    ensures Buffers()[8].names == ["ListPartsResult", "Part", "LastModified"]
    ensures Buffers()[9].names == ["ListPartsResult", "Part", "ETag"]
    ensures Buffers()[10].names == ["ListPartsResult", "Part", "Size"]
  {}

  lemma RecordSays(part: Forest)
    ensures Says(Convert(RecordOf(part)), part)
  {
    hide Filled, Kept, TextIn, Buffers, ParsedNumber;
    BufferNames();
    FilledKeeps(24, TextIn(part, PART, Buffers()[7].names));
    FilledKeeps(256, TextIn(part, PART, Buffers()[8].names));
    FilledKeeps(1024, TextIn(part, PART, Buffers()[9].names));
    FilledKeeps(256, TextIn(part, PART, Buffers()[10].names));
  }

  ghost predicate AllSay(ps: seq<PartInfo>, es: seq<Forest>) {
    |ps| == |es| && forall i :: 0 <= i < |ps| ==> Says(ps[i], es[i])
  }

  lemma AllSayCons(p: PartInfo, ps: seq<PartInfo>, e: Forest, es: seq<Forest>)
    requires Says(p, e) && AllSay(ps, es)
    ensures AllSay([p] + ps, [e] + es)
  {
    hide Says;
  }

  lemma {:induction false} PartsSay(f: Forest)
    ensures AllSay(PartsOf(f), ElementsNamed(f, "Part"))
    decreases f
  {
    hide Says, Convert, RecordOf;
    match f
    case Nil =>
    case Text(_, rest) => PartsSay(rest);
    case Elem(n, kids, rest) =>
      PartsSay(rest);
      if n == "Part" {
        RecordSays(kids);
        AllSayCons(Convert(RecordOf(kids)), PartsOf(rest), kids, ElementsNamed(rest, "Part"));
      } else {
        Nothing(PartsOf(rest));
        Nothing(ElementsNamed(rest, "Part"));
      }
  }

  /** What the user gets over all batches of a listing that ends with OK: one part for every Part element,
      in order, each saying what its element says. */
  lemma ListingTells(reply: PartsCallback, kids: Forest)
    requires GoodNames(kids) && FitsPaths([], Reply(kids))
    requires Eval(XmlCallback(reply), [], INITIAL, Reply(kids)).1 == OK
    ensures var r := Eval(XmlCallback(reply), [], INITIAL, Reply(kids)).0;
      WellShaped(r) && AllSay(AllParts(Complete(r)), ElementsNamed(kids, "Part"))
  {
    hide Eval, AllSay, AllParts, Complete, WellShaped, Numbered, PartsOf;
    PartsListing(reply, kids);
    PartsSay(kids);
  }

  /** Numbers that the reply gives in decimal digits are the numbers that the user is told. */
  lemma NumbersAreTold(p: PartInfo, part: Forest, partNumber: nat, size: nat)
    requires Says(p, part) && size < 0x1_0000_0000_0000_0000
    requires partNumber < 0x1_0000_0000_0000_0000
    requires PartText(part, "PartNumber", 23) == NatText(partNumber) && PartText(part, "Size", 255) == NatText(size)
    ensures p.partNumber == partNumber && p.size == size
  {
    hide NatText, ParsedNumber, PartText;
    PrintedNumberParsed("", partNumber, "");
    PrintedNumberParsed("", size, "");
    Nothing(NatText(partNumber));
    Nothing(NatText(size));
  }

  // ---------------------------------------------------------------- what is told about the whole listing

  const IS_TRUNCATED := ["ListPartsResult", "IsTruncated"]
  const NEXT_MARKER := ["ListPartsResult", "NextPartNumberMarker"]
  const STORAGE_CLASS := ["ListPartsResult", "StorageClass"]
  const INITIATOR_ID := ["ListPartsResult", "Initiator", "ID"]
  const INITIATOR_NAME := ["ListPartsResult", "Initiator", "DisplayName"]
  const OWNER_ID := ["ListPartsResult", "Owner", "ID"]
  const OWNER_NAME := ["ListPartsResult", "Owner", "DisplayName"]
  const HEADER := [IS_TRUNCATED, NEXT_MARKER, STORAGE_CLASS, INITIATOR_ID, INITIATOR_NAME, OWNER_ID, OWNER_NAME]
  const SIZES := [64, 1024, 256, 256, 256, 256, 256]

  lemma HeaderNames()
    ensures |Buffers()| == 11 && |HEADER| == 7 && |SIZES| == 7 && ROOT == ["ListPartsResult"]
    ensures forall i :: 0 <= i < 7 ==> Buffers()[i].names == HEADER[i] && SIZES[i] > 0
  {}

  /** The texts of the seven elements, in the order of HEADER. */
  function HeaderTexts(f: Forest, at: seq<string>): (r: seq<string>)
    ensures |r| == 7 && forall i :: 0 <= i < 7 ==> |HEADER| == 7 && r[i] == TextIn(f, at, HEADER[i])
  {
    HeaderNames();
    seq(7, i requires 0 <= i < 7 => TextIn(f, at, HEADER[i]))
  }

  ghost predicate HoldsHeader(acc: PartsAcc, texts: seq<string>)
    requires |acc.fields| == 11
  {
    |texts| == 7 == |SIZES| && forall i :: 0 <= i < 7 ==> acc.fields[i] == Filled(SIZES[i], texts[i])
  }

  function Added(a: seq<string>, b: seq<string>): (r: seq<string>)
    requires |a| == 7 && |b| == 7
    ensures |r| == 7 && forall i :: 0 <= i < 7 ==> r[i] == a[i] + b[i]
  {
    seq(7, i requires 0 <= i < 7 => a[i] + b[i])
  }

  /** A batch says what these texts say, each as far as its buffer keeps it. */
  ghost predicate Tells(b: Batch, texts: seq<string>)
    requires |texts| == 7
  {
    && (b.isTruncated <==> Kept(texts[0], 63) == "true" || Kept(texts[0], 63) == "1")
    && b.nextPartNumberMarker == Kept(texts[1], 1023)
    && b.storageClass == Kept(texts[2], 255)
    && b.initiatorId == Kept(texts[3], 255)
    && b.initiatorDisplayName == Kept(texts[4], 255)
    && b.ownerId == Kept(texts[5], 255)
    && b.ownerDisplayName == Kept(texts[6], 255)
  }

  /** The batches from number n on do. */
  ghost predicate Carry(bs: seq<Batch>, n: nat, texts: seq<string>)
    requires |texts| == 7
  {
    n <= |bs| && forall k :: n <= k < |bs| ==> Tells(bs[k], texts)
  }

  lemma BatchTells(acc: PartsAcc, texts: seq<string>)
    requires WellShaped(acc) && HoldsHeader(acc, texts)
    ensures Tells(MakeBatch(acc), texts)
  {
    hide Filled, Kept, ConvertAll;
    assert SIZES == [64, 1024, 256, 256, 256, 256, 256];
    FilledKeeps(64, texts[0]);
    FilledKeeps(1024, texts[1]);
    forall i | 2 <= i < 7 ensures Filled(SIZES[i], texts[i]).text == Kept(texts[i], 255) {
      FilledKeeps(256, texts[i]);
    }
  }

  lemma CarrySnoc(bs: seq<Batch>, n: nat, acc: PartsAcc, texts: seq<string>)
    requires WellShaped(acc) && HoldsHeader(acc, texts) && Carry(bs, n, texts)
    ensures Carry(bs + [MakeBatch(acc)], n, texts)
  {
    hide HoldsHeader, MakeBatch, Tells;
    BatchTells(acc, texts);
  }

  lemma PartHeader(reply: PartsCallback, acc: PartsAcc, texts: seq<string>, n: nat)
    requires WellShaped(acc) && HoldsHeader(acc, texts) && EndPart(reply, acc).1 == OK
    ensures var r := EndPart(reply, acc).0;
      && WellShaped(r) && HoldsHeader(r, texts)
      && (Carry(acc.state.delivered, n, texts) ==> Carry(r.state.delivered, n, texts))
  {
    hide Filled, Carry, Convert, ConvertAll, MakeBatch;
    var next := Acc(acc.fields[..7] + BLANK_PART, acc.state.(parts := acc.state.parts + [acc.fields[7..]]));
    assert WellShaped(next) && HoldsHeader(next, texts);
    if Carry(acc.state.delivered, n, texts) {
      CarrySnoc(acc.state.delivered, n, next, texts);
    }
  }

  /** One child of the root: its texts are added, and a batch that it makes carries what was held. */
  lemma ChildHeader(reply: PartsCallback, acc: PartsAcc, name: string, kids: Forest, texts: seq<string>, n: nat)
    requires Clean(acc) && GoodName(name) && GoodNames(kids) && WellShaped(acc) && HoldsHeader(acc, texts)
    requires Child(reply, acc, name, kids).1 == OK
    ensures var r := Child(reply, acc, name, kids).0;
      && WellShaped(r)
      && HoldsHeader(r, Added(texts, HeaderTexts(kids, ROOT + [name])))
      && (Carry(acc.state.delivered, n, texts) ==> Carry(r.state.delivered, n, texts))
  {
    hide Filled, Carry, EndPart, Collect, RecordOf, TextIn, Clean, Buffers, GoodName, HEADER, SIZES;
    HeaderNames();
    var at := ROOT + [name];
    if name == "Part" {
      PartHasNoHeader(kids);
      forall i | 0 <= i < 7 ensures texts[i] + HeaderTexts(kids, at)[i] == texts[i] {
        Nothing(texts[i]);
      }
      assert Added(texts, HeaderTexts(kids, at)) == texts;
      var full := acc.(fields := acc.fields[..7] + RecordOf(kids));
      assert HoldsHeader(full, texts);
      PartHeader(reply, full, texts, n);
    } else {
      ChildStack(name);
      CollectAny(acc, at, kids);
      forall i | 0 <= i < 7
        ensures acc.fields[i].Append(TextIn(kids, at, HEADER[i]))
          == Filled(SIZES[i], texts[i] + TextIn(kids, at, HEADER[i]))
      {
        FilledAppend(SIZES[i], texts[i], TextIn(kids, at, HEADER[i]));
      }
    }
  }

  lemma PartHasNoHeader(kids: Forest)
    ensures ROOT + ["Part"] == PART && forall i :: 0 <= i < 7 ==> HeaderTexts(kids, ROOT + ["Part"])[i] == ""
  {
    hide Buffers, TextIn, HEADER;
    HeaderNames();
    forall i | 0 <= i < 7 ensures TextIn(kids, PART, HEADER[i]) == "" {
      Apart("", i);
      TextOutside(kids, PART, HEADER[i]);
    }
  }

  lemma AddedTwice(a: seq<string>, b: seq<string>, c: seq<string>)
    requires |a| == 7 && |b| == 7 && |c| == 7
    ensures Added(Added(a, b), c) == Added(a, Added(b, c))
  {
    forall i | 0 <= i < 7 ensures Added(Added(a, b), c)[i] == Added(a, Added(b, c))[i] {
      Regroup(a[i], b[i], c[i]);
    }
  }

  const NO_TEXTS := ["", "", "", "", "", "", ""]

  lemma AddedNothing(a: seq<string>)
    requires |a| == 7
    ensures Added(a, NO_TEXTS) == a && Added(NO_TEXTS, a) == a
  {
    forall i | 0 <= i < 7 ensures a[i] + "" == a[i] && "" + a[i] == a[i] {
      Nothing(a[i]);
    }
  }

  lemma HeaderElem(n: string, kids: Forest, rest: Forest)
    ensures HeaderTexts(Elem(n, kids, rest), ROOT) == Added(HeaderTexts(kids, ROOT + [n]), HeaderTexts(rest, ROOT))
  {}

  lemma HeaderText(t: string, rest: Forest)
    ensures HeaderTexts(Text(t, rest), ROOT) == HeaderTexts(rest, ROOT) && HeaderTexts(Nil, ROOT) == NO_TEXTS
  {
    HeaderNames();
    assert forall i :: 0 <= i < 7 ==> |HEADER[i]| > 1;
    forall i | 0 <= i < 7 ensures TextIn(Text(t, rest), ROOT, HEADER[i]) == TextIn(rest, ROOT, HEADER[i]) {
      Nothing(TextIn(rest, ROOT, HEADER[i]));
    }
  }

  lemma {:induction false} HeaderHeld(reply: PartsCallback, acc: PartsAcc, f: Forest, texts: seq<string>)
    requires Clean(acc) && GoodNames(f) && FitsPaths(ROOT, f) && WellShaped(acc) && HoldsHeader(acc, texts)
    requires Children(reply, acc, f).1 == OK && |texts| == 7
    ensures var r := Children(reply, acc, f).0;
      Clean(r) && WellShaped(r) && HoldsHeader(r, Added(texts, HeaderTexts(f, ROOT)))
    decreases f
  {
    hide Clean, HoldsHeader, WellShaped, Child, TextIn, Carry, Buffers, GoodName;
    match f
    case Nil =>
      HeaderText("", Nil);
      AddedNothing(texts);
    case Text(t, rest) =>
      HeaderText(t, rest);
      HeaderHeld(reply, acc, rest, texts);
    case Elem(n, kids, rest) =>
      ChildHeader(reply, acc, n, kids, texts, 0);
      ChildEval(reply, acc, n, kids);
      HeaderHeld(reply, Child(reply, acc, n, kids).0, rest, Added(texts, HeaderTexts(kids, ROOT + [n])));
      HeaderElem(n, kids, rest);
      AddedTwice(texts, HeaderTexts(kids, ROOT + [n]), HeaderTexts(rest, ROOT));
  }

  lemma AddedIsNothing(a: seq<string>, b: seq<string>)
    requires |a| == 7 && |b| == 7 && Added(a, b) == NO_TEXTS
    ensures a == NO_TEXTS && b == NO_TEXTS
  {
    forall i | 0 <= i < 7 ensures a[i] == "" && b[i] == "" {
      assert |a[i] + b[i]| == |NO_TEXTS[i]|;
    }
  }

  lemma {:induction false} BatchesCarry(reply: PartsCallback, acc: PartsAcc, f: Forest, texts: seq<string>, n: nat)
    requires Clean(acc) && GoodNames(f) && FitsPaths(ROOT, f) && WellShaped(acc) && HoldsHeader(acc, texts)
    requires Children(reply, acc, f).1 == OK && HeaderTexts(f, ROOT) == NO_TEXTS
    requires |texts| == 7 && Carry(acc.state.delivered, n, texts)
    ensures var r := Children(reply, acc, f).0;
      WellShaped(r) && HoldsHeader(r, texts) && Carry(r.state.delivered, n, texts)
    decreases f
  {
    hide Clean, HoldsHeader, WellShaped, Child, TextIn, Carry, Buffers, GoodName;
    match f
    case Nil =>
    case Text(t, rest) =>
      HeaderText(t, rest);
      BatchesCarry(reply, acc, rest, texts, n);
    case Elem(name, kids, rest) =>
      HeaderElem(name, kids, rest);
      AddedIsNothing(HeaderTexts(kids, ROOT + [name]), HeaderTexts(rest, ROOT));
      AddedNothing(texts);
      ChildHeader(reply, acc, name, kids, texts, n);
      ChildEval(reply, acc, name, kids);
      BatchesCarry(reply, Child(reply, acc, name, kids).0, rest, texts, n);
  }

  lemma {:induction false} ChildrenChain(reply: PartsCallback, acc: PartsAcc, f: Forest, g: Forest)
    requires Clean(acc) && GoodNames(f) && GoodNames(g) && FitsPaths(ROOT, f) && FitsPaths(ROOT, g)
    requires GoodNames(Chain(f, g)) && FitsPaths(ROOT, Chain(f, g))
    ensures var r := Children(reply, acc, f);
      && (r.1 == OK ==> Clean(r.0) && Children(reply, acc, Chain(f, g)) == Children(reply, r.0, g))
      && (r.1 != OK ==> Children(reply, acc, Chain(f, g)) == r)
    decreases f
  {
    hide Clean, Child, GoodName;
    match f
    case Nil =>
    case Text(_, rest) => ChildrenChain(reply, acc, rest, g);
    case Elem(n, kids, rest) =>
      ChildEval(reply, acc, n, kids);
      CleanShape(acc);
      var r := Child(reply, acc, n, kids);
      if r.1 == OK { ChildrenChain(reply, r.0, rest, g); }
  }

  lemma HeaderAtFirst()
    ensures WellShaped(INITIAL) && HoldsHeader(INITIAL, NO_TEXTS)
  {}

  /** A reply in two parts, the second without text for the seven elements: every batch that is made after
      the first part, including the one at the end of the request, says what the document says about the
      whole listing. */
  lemma BatchesTellDocument(reply: PartsCallback, f: Forest, g: Forest)
    requires GoodNames(Chain(f, g)) && FitsPaths([], Reply(Chain(f, g)))
    requires Eval(XmlCallback(reply), [], INITIAL, Reply(Chain(f, g))).1 == OK
    requires HeaderTexts(g, ROOT) == NO_TEXTS
    ensures var r, first := Eval(XmlCallback(reply), [], INITIAL, Reply(Chain(f, g))).0,
                            Eval(XmlCallback(reply), ROOT, INITIAL, f).0;
      && WellShaped(r)
      && Carry(Complete(r), |first.state.delivered|, HeaderTexts(Chain(f, g), ROOT))
  {
    hide Eval, Children, Carry, HoldsHeader, WellShaped, Clean, TextIn, FitsPaths, GoodNames, Bounded, Listed,
      ValidFields, Buffers, HeaderTexts;
    InitialState();
    HeaderAtFirst();
    ReplyEval(reply, Chain(f, g));
    ChainGood(f, g, ROOT);
    ChildrenEval(reply, INITIAL, Chain(f, g));
    ChildrenEval(reply, INITIAL, f);
    ChildrenChain(reply, INITIAL, f, g);
    var a := Children(reply, INITIAL, f).0;
    var texts := HeaderTexts(f, ROOT);
    HeaderHeld(reply, INITIAL, f, NO_TEXTS);
    AddedNothing(texts);
    HeaderChain(f, g);
    NoBatchesLater(a.state.delivered, texts);
    BatchesCarry(reply, a, g, texts, |a.state.delivered|);
    LastCarries(Children(reply, a, g).0, |a.state.delivered|, texts);
  }

  lemma HeaderChain(f: Forest, g: Forest)
    requires HeaderTexts(g, ROOT) == NO_TEXTS
    ensures HeaderTexts(Chain(f, g), ROOT) == HeaderTexts(f, ROOT)
  {
    hide TextIn, HEADER;
    HeaderNames();
    forall i | 0 <= i < 7 ensures TextIn(Chain(f, g), ROOT, HEADER[i]) == TextIn(f, ROOT, HEADER[i]) {
      TextInChain(f, g, ROOT, HEADER[i]);
      assert TextIn(g, ROOT, HEADER[i]) == NO_TEXTS[i];
      Nothing(TextIn(f, ROOT, HEADER[i]));
    }
  }

  lemma NoBatchesLater(bs: seq<Batch>, texts: seq<string>)
    requires |texts| == 7
    ensures Carry(bs, |bs|, texts)
  {}

  lemma LastCarries(acc: PartsAcc, n: nat, texts: seq<string>)
    requires WellShaped(acc) && HoldsHeader(acc, texts) && |texts| == 7 && Carry(acc.state.delivered, n, texts)
    ensures Carry(Complete(acc), n, texts)
  {
    hide HoldsHeader, Carry, MakeBatch;
    CarrySnoc(acc.state.delivered, n, acc, texts);
  }
}
