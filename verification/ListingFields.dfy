/** What the user is told by a bucket listing, in terms of the elements of the reply (src/bucket.c). */
module ListingFields {
  import opened Strings
  import opened Status
  import opened StringBuffers
  import opened UrlEncoding
  import opened XmlDocuments
  import opened XmlRecords
  import opened ListBucket
  import opened ListBatches

  // ---------------------------------------------------------------- the contents

  /** The text below a Contents element at the given names, as far as a buffer of that size keeps it. */
  function ContentText(contents: Forest, names: seq<string>, size: nat): string {
    Kept(TextIn(contents, ["ListBucketResult", "Contents"], ["ListBucketResult", "Contents"] + names), size)
  }

  /** c says what the Contents element says. */
  ghost predicate Says(c: Content, contents: Forest) {
    && c.key == ContentText(contents, ["Key"], 1023)
    && c.lastModified == ContentText(contents, ["LastModified"], 255)
    && c.eTag == ContentText(contents, ["ETag"], 255)
    && c.size == ParsedNumber(ContentText(contents, ["Size"], 23))
    && (var id := ContentText(contents, ["Owner", "ID"], 255); c.ownerId == if id == "" then None else Some(id))
    && (var name := ContentText(contents, ["Owner", "DisplayName"], 255);
        c.ownerDisplayName == if name == "" then None else Some(name))
  }

  lemma BufferNames()
    ensures var sc, at := Buffers(), ["ListBucketResult", "Contents"];
      && sc[2].names == at + ["Key"] && sc[3].names == at + ["LastModified"] && sc[4].names == at + ["ETag"]
      && sc[5].names == at + ["Size"] && sc[6].names == at + ["Owner", "ID"]
      && sc[7].names == at + ["Owner", "DisplayName"]
    ensures |Buffers()| == 9 && CONTENTS == ["ListBucketResult", "Contents"]
  {}

  lemma RecordSays(contents: Forest)
    ensures Says(Convert(RecordOf(contents)), contents)
  {
    hide Filled, Kept, TextIn, Buffers, ParsedNumber;
    BufferNames();
    var sc := Buffers();
    FilledKeeps(1024, TextIn(contents, CONTENTS, sc[2].names));
    FilledKeeps(256, TextIn(contents, CONTENTS, sc[3].names));
    FilledKeeps(256, TextIn(contents, CONTENTS, sc[4].names));
    FilledKeeps(24, TextIn(contents, CONTENTS, sc[5].names));
    FilledKeeps(256, TextIn(contents, CONTENTS, sc[6].names));
    FilledKeeps(256, TextIn(contents, CONTENTS, sc[7].names));
  }

  /** A size that the reply gives in decimal digits is the size that the user is told. */
  lemma SizeIsTold(c: Content, contents: Forest, n: nat)
    requires Says(c, contents) && n < 0x1_0000_0000_0000_0000
    requires TextIn(contents, ["ListBucketResult", "Contents"], ["ListBucketResult", "Contents", "Size"]) == NatText(n)
    ensures c.size == n
  {
    hide TextIn, NatText, ParsedNumber;
    assert ["ListBucketResult", "Contents"] + ["Size"] == ["ListBucketResult", "Contents", "Size"];
    SixtyFourBits(n);
    PrintedNumberParsed("", n, "");
    Nothing(NatText(n));
  }

  lemma SixtyFourBits(n: nat)
    requires n < 0x1_0000_0000_0000_0000
    ensures |NatText(n)| <= 20
  {
    hide NatText;
    Power20();
    NatTextLength(n, 20);
  }

  lemma Power20()
    ensures Power10(20) == 100_000_000_000_000_000_000
  {
    assert Power10(10) == 10_000_000_000;
    PowerSum(10, 10);
  }

  lemma {:induction false} PowerSum(m: nat, n: nat)
    ensures Power10(m + n) == Power10(m) * Power10(n)
  {
    if m > 0 {
      PowerSum(m - 1, n);
    }
  }

  /** The Prefix elements below the CommonPrefixes elements. */
  function PrefixElements(kids: Forest): seq<Forest>
    decreases kids
  {
    match kids
    case Nil => []
    case Text(_, rest) => PrefixElements(rest)
    case Elem(n, inside, rest) =>
      (if n == "CommonPrefixes" then ElementsNamed(inside, "Prefix") else []) + PrefixElements(rest)
  }

  /** The text of a Prefix element; the last character of the longest ones is lost. */
  function PrefixText(prefix: Forest): string {
    var at := ["ListBucketResult", "CommonPrefixes", "Prefix"];
    Kept(TextIn(prefix, at, at), 1022)
  }

  lemma {:induction false} OfAppend(a: seq<Item>, b: seq<Item>)
    ensures ContentsOf(a + b) == ContentsOf(a) + ContentsOf(b) && PrefixesOf(a + b) == PrefixesOf(a) + PrefixesOf(b)
  {
    hide ContentsOf, PrefixesOf;
    NothingListed();
    if a == [] {
      Nothing(b);
      Nothing(ContentsOf(b));
      Nothing(PrefixesOf(b));
    } else {
      assert (a + b)[1..] == a[1..] + b && (a + b)[0] == a[0];
      OfAppend(a[1..], b);
      OfCons(a + b);
      OfCons(a);
      Regroup(ContentsOf([a[0]]), ContentsOf(a[1..]), ContentsOf(b));
      Regroup(PrefixesOf([a[0]]), PrefixesOf(a[1..]), PrefixesOf(b));
    }
  }

  ghost predicate AllSay(cs: seq<Content>, es: seq<Forest>) {
    |cs| == |es| && forall i :: 0 <= i < |cs| ==> Says(cs[i], es[i])
  }

  lemma AllSayAppend(a: seq<Content>, b: seq<Content>, es: seq<Forest>, fs: seq<Forest>)
    requires AllSay(a, es) && AllSay(b, fs)
    ensures AllSay(a + b, es + fs)
  {
    hide Says;
  }

  ghost predicate AllPrefixTexts(ps: seq<string>, es: seq<Forest>) {
    |ps| == |es| && forall i :: 0 <= i < |ps| ==> ps[i] == PrefixText(es[i])
  }

  lemma AllPrefixTextsAppend(a: seq<string>, b: seq<string>, es: seq<Forest>, fs: seq<Forest>)
    requires AllPrefixTexts(a, es) && AllPrefixTexts(b, fs)
    ensures AllPrefixTexts(a + b, es + fs)
  {
    hide PrefixText;
  }

  lemma {:induction false} PrefixItemsSay(f: Forest)
    ensures ContentsOf(PrefixItems(f)) == []
    ensures AllPrefixTexts(PrefixesOf(PrefixItems(f)), ElementsNamed(f, "Prefix"))
    decreases f
  {
    hide Filled, TextIn, Kept;
    match f
    case Nil =>
    case Text(_, rest) => PrefixItemsSay(rest);
    case Elem(n, kids, rest) =>
      PrefixItemsSay(rest);
      if n == "Prefix" {
        var item := PrefixItem(TextIn(kids, PREFIX, PREFIX));
        OnePrefix(kids);
        OfAppend([item], PrefixItems(rest));
        AllPrefixTextsAppend(PrefixesOf([item]), PrefixesOf(PrefixItems(rest)), [kids], ElementsNamed(rest, "Prefix"));
      } else {
        Nothing(PrefixItems(rest));
        Nothing(ElementsNamed(rest, "Prefix"));
      }
  }

  lemma OnePrefix(kids: Forest)
    ensures var item := PrefixItem(TextIn(kids, PREFIX, PREFIX));
      ContentsOf([item]) == [] && AllPrefixTexts(PrefixesOf([item]), [kids])
  {
    hide Filled, TextIn, Kept;
    FilledKeeps(1023, TextIn(kids, PREFIX, PREFIX));
    var item := PrefixItem(TextIn(kids, PREFIX, PREFIX));
    assert [item][1..] == [];
    assert PrefixesOf([item]) == [Filled(1023, TextIn(kids, PREFIX, PREFIX)).text];
  }

  lemma ItemsSay(n: string, kids: Forest)
    ensures AllSay(ContentsOf(ItemsOf(n, kids)), if n == "Contents" then [kids] else [])
    ensures AllPrefixTexts(PrefixesOf(ItemsOf(n, kids)),
                           if n == "CommonPrefixes" then ElementsNamed(kids, "Prefix") else [])
  {
    hide Says, PrefixText, RecordOf, Convert, TextIn, Buffers, PrefixItems;
    if n == "CommonPrefixes" {
      PrefixItemsSay(kids);
    } else {
      var item := ItemsOf(n, kids)[0];
      assert ItemsOf(n, kids) == [item] && [item][1..] == [];
      if n == "Contents" {
        RecordSays(kids);
        assert ContentsOf([item]) == [Convert(RecordOf(kids))];
      }
    }
  }

  lemma {:induction false} ListingSays(f: Forest)
    ensures AllSay(ContentsOf(Items(f)), ElementsNamed(f, "Contents"))
    ensures AllPrefixTexts(PrefixesOf(Items(f)), PrefixElements(f))
    decreases f
  {
    hide AllSay, AllPrefixTexts, ItemsOf, ContentsOf, PrefixesOf;
    match f
    case Nil => NothingSaid();
    case Text(_, rest) => ListingSays(rest);
    case Elem(n, kids, rest) =>
      ListingSays(rest);
      ItemsSay(n, kids);
      OfAppend(ItemsOf(n, kids), Items(rest));
      AllSayAppend(ContentsOf(ItemsOf(n, kids)), ContentsOf(Items(rest)),
                   if n == "Contents" then [kids] else [], ElementsNamed(rest, "Contents"));
      AllPrefixTextsAppend(PrefixesOf(ItemsOf(n, kids)), PrefixesOf(Items(rest)),
                           if n == "CommonPrefixes" then ElementsNamed(kids, "Prefix") else [], PrefixElements(rest));
  }

  lemma NothingSaid()
    ensures AllSay(ContentsOf([]), []) && AllPrefixTexts(PrefixesOf([]), [])
  {}

  /** What the user gets over all batches of a listing that ends with OK: one content for every Contents
      element and one prefix for every Prefix element, in order, each saying what its element says. */
  lemma ListingTells(reply: ListCallback, kids: Forest)
    requires GoodNames(kids) && FitsPaths([], Reply(kids))
    requires Eval(XmlCallback(reply), [], INITIAL, Reply(kids)).1 == OK
    ensures var r := Eval(XmlCallback(reply), [], INITIAL, Reply(kids)).0;
      && WellShaped(r)
      && AllSay(AllContents(Complete(r)), ElementsNamed(kids, "Contents"))
      && AllPrefixTexts(AllPrefixes(Complete(r)), PrefixElements(kids))
  {
    hide Eval, AllSay, AllPrefixTexts, Items, ContentsOf, PrefixesOf, AllContents, AllPrefixes, Complete, WellShaped,
      GoodBatches, PrefixesFit;
    ListingIsDocument(reply, kids);
    ListingSays(kids);
  }

  // ---------------------------------------------------------------- flag and marker

  /** The texts of IsTruncated and NextMarker among the items. */
  function Truncated(items: seq<Item>): string {
    if items == [] then "" else (if items[0].TopText? then items[0].isTruncated else "") + Truncated(items[1..])
  }

  function Marker(items: seq<Item>): string {
    if items == [] then "" else (if items[0].TopText? then items[0].nextMarker else "") + Marker(items[1..])
  }

  lemma {:induction false} HeaderAppend(a: seq<Item>, b: seq<Item>)
    ensures Truncated(a + b) == Truncated(a) + Truncated(b) && Marker(a + b) == Marker(a) + Marker(b)
  {
    if a == [] {
      Nothing(b);
      Nothing(Truncated(b));
      Nothing(Marker(b));
    } else {
      assert (a + b)[1..] == a[1..] + b && (a + b)[0] == a[0];
      HeaderAppend(a[1..], b);
      Regroup(if a[0].TopText? then a[0].isTruncated else "", Truncated(a[1..]), Truncated(b));
      Regroup(if a[0].TopText? then a[0].nextMarker else "", Marker(a[1..]), Marker(b));
    }
  }

  const IS_TRUNCATED := ["ListBucketResult", "IsTruncated"]
  const NEXT_MARKER := ["ListBucketResult", "NextMarker"]

  lemma HeaderNames()
    ensures Buffers()[0].names == IS_TRUNCATED && Buffers()[1].names == NEXT_MARKER && ROOT == ["ListBucketResult"]
  {}

  lemma {:induction false} PrefixesHaveNoHeader(f: Forest)
    ensures Truncated(PrefixItems(f)) == "" && Marker(PrefixItems(f)) == ""
    decreases f
  {
    hide TextIn;
    match f
    case Nil =>
    case Text(_, rest) => PrefixesHaveNoHeader(rest);
    case Elem(n, kids, rest) =>
      PrefixesHaveNoHeader(rest);
      if n == "Prefix" {
        HeaderAppend([PrefixItem(TextIn(kids, PREFIX, PREFIX))], PrefixItems(rest));
        assert [PrefixItem(TextIn(kids, PREFIX, PREFIX))][1..] == [];
      } else {
        Nothing(PrefixItems(rest));
      }
  }

  lemma ElementHeader(n: string, kids: Forest)
    ensures Truncated(ItemsOf(n, kids)) == TextIn(kids, ROOT + [n], IS_TRUNCATED)
    ensures Marker(ItemsOf(n, kids)) == TextIn(kids, ROOT + [n], NEXT_MARKER)
  {
    hide TextIn, PrefixItems, RecordOf, Buffers;
    HeaderNames();
    if n == "Contents" || n == "CommonPrefixes" {
      assert (ROOT + [n])[1] != IS_TRUNCATED[1] && (ROOT + [n])[1] != NEXT_MARKER[1];
      TextOutside(kids, ROOT + [n], IS_TRUNCATED);
      TextOutside(kids, ROOT + [n], NEXT_MARKER);
      PrefixesHaveNoHeader(kids);
      if n == "Contents" { assert [ContentsItem(RecordOf(kids))][1..] == []; }
    } else {
      var item := ItemsOf(n, kids)[0];
      assert ItemsOf(n, kids) == [item] && [item][1..] == [];
      Nothing(item.isTruncated);
      Nothing(item.nextMarker);
    }
  }

  lemma {:induction false} HeaderIsText(f: Forest)
    ensures Truncated(Items(f)) == TextIn(f, ROOT, IS_TRUNCATED) && Marker(Items(f)) == TextIn(f, ROOT, NEXT_MARKER)
    decreases f
  {
    hide ItemsOf;
    match f
    case Nil =>
    case Text(t, rest) =>
      HeaderIsText(rest);
      Nothing(TextIn(rest, ROOT, IS_TRUNCATED));
      Nothing(TextIn(rest, ROOT, NEXT_MARKER));
    case Elem(n, kids, rest) =>
      HeaderIsText(rest);
      ElementHeader(n, kids);
      HeaderAppend(ItemsOf(n, kids), Items(rest));
  }

  lemma {:induction false} ItemsChain(f: Forest, g: Forest)
    ensures Items(Chain(f, g)) == Items(f) + Items(g)
    decreases f
  {
    hide ItemsOf;
    match f
    case Nil => Nothing(Items(g));
    case Text(_, rest) => ItemsChain(rest, g);
    case Elem(n, kids, rest) =>
      ItemsChain(rest, g);
      Regroup(ItemsOf(n, kids), Items(rest), Items(g));
  }

  /** The buffers of the whole listing hold these texts. */
  ghost predicate HoldsHeader(acc: ListAcc, truncated: string, marker: string)
    requires |acc.fields| == 9
  {
    acc.fields[0] == Filled(64, truncated) && acc.fields[1] == Filled(1024, marker)
  }

  /** The batches from number n on carry this flag and this marker. */
  ghost predicate Carry(bs: seq<Batch>, n: nat, truncated: string, marker: string) {
    n <= |bs| && forall k :: n <= k < |bs| ==>
      && (bs[k].isTruncated <==> Kept(truncated, 63) == "true" || Kept(truncated, 63) == "1")
      && bs[k].nextMarker == Kept(marker, 1023)
  }

  lemma BatchCarries(acc: ListAcc, truncated: string, marker: string)
    requires WellShaped(acc) && HoldsHeader(acc, truncated, marker)
    ensures var b := MakeBatch(acc);
      && (b.isTruncated <==> Kept(truncated, 63) == "true" || Kept(truncated, 63) == "1")
      && b.nextMarker == Kept(marker, 1023)
  {
    hide Filled, Kept, ConvertAll;
    FilledKeeps(64, truncated);
    FilledKeeps(1024, marker);
  }

  lemma CarrySnoc(bs: seq<Batch>, n: nat, acc: ListAcc, truncated: string, marker: string)
    requires Carry(bs, n, truncated, marker) && WellShaped(acc) && HoldsHeader(acc, truncated, marker)
    ensures Carry(bs + [MakeBatch(acc)], n, truncated, marker)
  {
    hide Kept, HoldsHeader, MakeBatch;
    BatchCarries(acc, truncated, marker);
  }

  /** One item: it adds its texts to the buffers, and a batch that it makes carries what they held. */
  lemma ApplyHeader(reply: ListCallback, acc: ListAcc, item: Item, truncated: string, marker: string, n: nat)
    requires WellShaped(acc) && HoldsHeader(acc, truncated, marker) && Apply(reply, acc, item).1 == OK
    ensures var r := Apply(reply, acc, item).0;
      && WellShaped(r)
      && HoldsHeader(r, truncated + Truncated([item]), marker + Marker([item]))
      && (Carry(acc.state.delivered, n, truncated, marker) ==> Carry(r.state.delivered, n, truncated, marker))
  {
    hide Filled, Carry, Convert, ConvertAll, MakeBatch;
    assert [item][1..] == [];
    Nothing(truncated);
    Nothing(marker);
    match item
    case TopText(t, m) =>
      Nothing(t);
      Nothing(m);
      FilledAppend(64, truncated, t);
      FilledAppend(1024, marker, m);
    case ContentsItem(r) =>
      if |r| == 6 {
        var next := WithContents(acc.(fields := acc.fields[..2] + r + acc.fields[8..]));
        if Carry(acc.state.delivered, n, truncated, marker) {
          CarrySnoc(acc.state.delivered, n, next, truncated, marker);
        }
      }
    case PrefixItem(t) =>
      if |t| <= 1023 {
        var next := WithPrefix(acc.(fields := acc.fields[..8] + [Filled(1023, t)]));
        if Carry(acc.state.delivered, n, truncated, marker) {
          CarrySnoc(acc.state.delivered, n, next, truncated, marker);
        }
      }
  }

  /** A run of items adds their texts to the buffers. */
  lemma {:induction false} HeaderHeld(reply: ListCallback, acc: ListAcc, items: seq<Item>, truncated: string,
                                      marker: string)
    requires WellShaped(acc) && HoldsHeader(acc, truncated, marker) && ApplyAll(reply, acc, items).1 == OK
    ensures var r := ApplyAll(reply, acc, items).0;
      WellShaped(r) && HoldsHeader(r, truncated + Truncated(items), marker + Marker(items))
    decreases |items|
  {
    hide Apply, HoldsHeader, WellShaped, Carry;
    if items == [] {
      Nothing(truncated);
      Nothing(marker);
    } else {
      var x := items[0];
      ApplyHeader(reply, acc, x, truncated, marker, 0);
      HeaderHeld(reply, Apply(reply, acc, x).0, items[1..], truncated + Truncated([x]), marker + Marker([x]));
      HeaderAppend([x], items[1..]);
      assert items == [x] + items[1..];
      Regroup(truncated, Truncated([x]), Truncated(items[1..]));
      Regroup(marker, Marker([x]), Marker(items[1..]));
    }
  }

  /** When no more of them comes, all batches carry what the buffers hold. */
  lemma {:induction false} BatchesCarry(reply: ListCallback, acc: ListAcc, items: seq<Item>, truncated: string,
                                        marker: string, n: nat)
    requires WellShaped(acc) && HoldsHeader(acc, truncated, marker) && ApplyAll(reply, acc, items).1 == OK
    requires Truncated(items) == "" && Marker(items) == "" && Carry(acc.state.delivered, n, truncated, marker)
    ensures var r := ApplyAll(reply, acc, items).0;
      && WellShaped(r) && HoldsHeader(r, truncated, marker)
      && Carry(r.state.delivered, n, truncated, marker)
    decreases |items|
  {
    hide Apply, HoldsHeader, WellShaped, Carry;
    if items != [] {
      var x := items[0];
      HeaderAppend([x], items[1..]);
      assert items == [x] + items[1..];
      Nothing(truncated);
      Nothing(marker);
      ApplyHeader(reply, acc, x, truncated, marker, n);
      BatchesCarry(reply, Apply(reply, acc, x).0, items[1..], truncated, marker, n);
    }
  }

  lemma HeaderAtFirst()
    ensures WellShaped(INITIAL) && HoldsHeader(INITIAL, "", "")
  {}

  /** A reply in two parts, the second without text for IsTruncated and NextMarker: every batch that is made
      after the first part, including the one at the end of the request, tells whether the listing is
      truncated and where it goes on, as the document says. */
  lemma BatchesTellDocument(reply: ListCallback, f: Forest, g: Forest)
    requires GoodNames(Chain(f, g)) && FitsPaths([], Reply(Chain(f, g)))
    requires Eval(XmlCallback(reply), [], INITIAL, Reply(Chain(f, g))).1 == OK
    requires TextIn(g, ROOT, IS_TRUNCATED) == "" && TextIn(g, ROOT, NEXT_MARKER) == ""
    ensures var r, first := Eval(XmlCallback(reply), [], INITIAL, Reply(Chain(f, g))).0,
                            Eval(XmlCallback(reply), ROOT, INITIAL, f).0;
      && WellShaped(r)
      && Carry(Complete(r), |first.state.delivered|, TextIn(Chain(f, g), ROOT, IS_TRUNCATED),
               TextIn(Chain(f, g), ROOT, NEXT_MARKER))
  {
    hide Eval, ApplyAll, Items, Truncated, Marker, Carry, HoldsHeader, WellShaped, Clean, TextIn, FitsPaths, GoodNames,
      Bounded, Contents, Prefixes, ValidFields, Buffers;
    InitialState();
    HeaderAtFirst();
    ReplyEval(reply, Chain(f, g));
    ChainGood(f, g, ROOT);
    ItemsChain(f, g);
    ItemsEval(reply, INITIAL, Chain(f, g));
    ItemsEval(reply, INITIAL, f);
    ApplyAppend(reply, INITIAL, Items(f), Items(g));
    var a := ApplyAll(reply, INITIAL, Items(f)).0;
    HeaderIsText(f);
    HeaderIsText(g);
    TextInChain(f, g, ROOT, IS_TRUNCATED);
    TextInChain(f, g, ROOT, NEXT_MARKER);
    var t, m := TextIn(f, ROOT, IS_TRUNCATED), TextIn(f, ROOT, NEXT_MARKER);
    Nothing(t);
    Nothing(m);
    HeaderHeld(reply, INITIAL, Items(f), "", "");
    NoBatchesLater(a.state.delivered, t, m);
    BatchesCarry(reply, a, Items(g), t, m, |a.state.delivered|);
    var r := ApplyAll(reply, a, Items(g)).0;
    LastCarries(r, |a.state.delivered|, t, m);
  }

  lemma NoBatchesLater(bs: seq<Batch>, truncated: string, marker: string)
    ensures Carry(bs, |bs|, truncated, marker)
  {}

  lemma LastCarries(acc: ListAcc, n: nat, truncated: string, marker: string)
    requires WellShaped(acc) && HoldsHeader(acc, truncated, marker) && Carry(acc.state.delivered, n, truncated, marker)
    ensures Carry(Complete(acc), n, truncated, marker)
  {
    hide HoldsHeader, Carry, MakeBatch;
    CarrySnoc(acc.state.delivered, n, acc, truncated, marker);
  }
}
