/** Batched listing equals unbatched listing (src/bucket.c): the batches handed to the user carry each
    Contents and each prefix of the document exactly once, in document order. */
module ListBatches {
  import opened Strings
  import opened Status
  import opened StringBuffers
  import opened XmlDocuments
  import opened XmlRecords
  import opened ListBucket

  // ---------------------------------------------------------------- the unbatched listing

  function ContentsOf(items: seq<Item>): seq<Content> {
    if items == [] then []
    else
      (match items[0]
       case ContentsItem(r) => if |r| == 6 then [Convert(r)] else []
       case _ => []) + ContentsOf(items[1..])
  }

  /** Of a prefix of 1023 characters only 1022 are kept. */
  function PrefixesOf(items: seq<Item>): seq<string> {
    if items == [] then []
    else
      (match items[0]
       case PrefixItem(t) => [Filled(1023, t).text]
       case _ => []) + PrefixesOf(items[1..])
  }

  // ---------------------------------------------------------------- the batched listing

  function AllContents(bs: seq<Batch>): seq<Content> {
    if bs == [] then [] else AllContents(bs[..|bs| - 1]) + bs[|bs| - 1].contents
  }

  function AllPrefixes(bs: seq<Batch>): seq<string> {
    if bs == [] then [] else AllPrefixes(bs[..|bs| - 1]) + bs[|bs| - 1].commonPrefixes
  }

  /** What the user is ever handed: not empty, and within the limits. */
  predicate GoodBatch(b: Batch) {
    && (b.contents != [] || b.commonPrefixes != [])
    && |b.contents| <= 32 && |b.commonPrefixes| <= 8
  }

  ghost predicate GoodBatches(bs: seq<Batch>) { forall i :: 0 <= i < |bs| ==> GoodBatch(bs[i]) }

  /** The counts index the arrays, and what was delivered was within the limits. */
  ghost predicate Bounded(acc: ListAcc) {
    && WellShaped(acc)
    && |acc.state.contents| < MAX_CONTENTS && |acc.state.prefixes| < MAX_COMMON_PREFIXES
    && GoodBatches(acc.state.delivered)
  }

  /** Delivered and still pending together. */
  function Contents(acc: ListAcc): seq<Content>
    requires WellShaped(acc)
  {
    AllContents(acc.state.delivered) + ConvertAll(acc.state.contents)
  }

  function Prefixes(acc: ListAcc): seq<string> {
    AllPrefixes(acc.state.delivered) + acc.state.prefixes
  }

  lemma AllSnoc(bs: seq<Batch>, b: Batch)
    ensures AllContents(bs + [b]) == AllContents(bs) + b.contents
    ensures AllPrefixes(bs + [b]) == AllPrefixes(bs) + b.commonPrefixes
  {
    assert (bs + [b])[..|bs|] == bs;
  }

  lemma ConvertSnoc(rs: seq<Fields>, r: Fields)
    requires Records(rs) && |r| == 6
    ensures Records(rs + [r]) && ConvertAll(rs + [r]) == ConvertAll(rs) + [Convert(r)]
  {
    hide Convert;
    assert (rs + [r])[..|rs|] == rs;
  }

  /** A delivery moves what is pending to what has been delivered. */
  lemma DeliverCarries(reply: ListCallback, acc: ListAcc)
    requires WellShaped(acc)
    ensures var r := Deliver(reply, acc);
      && WellShaped(r.0)
      && r.0.state.delivered == acc.state.delivered + [MakeBatch(acc)]
      && (r.1 == OK ==> Contents(r.0) == Contents(acc) && Prefixes(r.0) == Prefixes(acc)
                        && r.0.state.contents == [] && r.0.state.prefixes == [])
  {
    hide AllContents, AllPrefixes, Convert;
    AllSnoc(acc.state.delivered, MakeBatch(acc));
    Nothing(AllContents(acc.state.delivered + [MakeBatch(acc)]));
    Nothing(AllPrefixes(acc.state.delivered + [MakeBatch(acc)]));
  }

  lemma GoodSnoc(bs: seq<Batch>, b: Batch)
    requires GoodBatches(bs) && GoodBatch(b)
    ensures GoodBatches(bs + [b])
  {}

  lemma EndContentsCarries(reply: ListCallback, acc: ListAcc)
    requires Bounded(acc)
    ensures var r := EndContents(reply, acc);
      r.1 == OK ==> && Bounded(r.0)
                    && Contents(r.0) == Contents(acc) + [Convert(acc.fields[2..8])]
                    && Prefixes(r.0) == Prefixes(acc)
  {
    hide AllContents, AllPrefixes, Convert, GoodBatches, ConvertAll, Deliver;
    var rec := acc.fields[2..8];
    ConvertSnoc(acc.state.contents, rec);
    Regroup(AllContents(acc.state.delivered), ConvertAll(acc.state.contents), [Convert(rec)]);
    var next := WithContents(acc);
    DeliverCarries(reply, next);
    if |next.state.contents| == MAX_CONTENTS {
      GoodSnoc(acc.state.delivered, MakeBatch(next));
    }
  }

  lemma EndPrefixCarries(reply: ListCallback, acc: ListAcc)
    requires Bounded(acc)
    ensures var r := EndPrefix(reply, acc);
      r.1 == OK ==> && Bounded(r.0)
                    && Contents(r.0) == Contents(acc)
                    && Prefixes(r.0) == Prefixes(acc) + [acc.fields[8].text]
  {
    hide AllContents, AllPrefixes, Convert, GoodBatches, ConvertAll, Deliver;
    Regroup(AllPrefixes(acc.state.delivered), acc.state.prefixes, [acc.fields[8].text]);
    var next := WithPrefix(acc);
    DeliverCarries(reply, next);
    if |next.state.prefixes| == MAX_COMMON_PREFIXES {
      GoodSnoc(acc.state.delivered, MakeBatch(next));
    }
  }

  /** An accepted item is carried once. */
  lemma ApplyCarries(reply: ListCallback, acc: ListAcc, item: Item)
    requires Bounded(acc)
    ensures var r := Apply(reply, acc, item);
      r.1 == OK ==> && Bounded(r.0)
                    && Contents(r.0) == Contents(acc) + ContentsOf([item])
                    && Prefixes(r.0) == Prefixes(acc) + PrefixesOf([item])
  {
    hide AllContents, AllPrefixes, Convert, GoodBatches, ConvertAll, EndContents, EndPrefix, Filled;
    match item
    case TopText(t, m) =>
      var next := acc.(fields := [acc.fields[0].Append(t), acc.fields[1].Append(m)] + acc.fields[2..]);
      assert Apply(reply, acc, item) == (next, OK);
    case ContentsItem(r) =>
      if |r| == 6 {
        var with := acc.(fields := acc.fields[..2] + r + acc.fields[8..]);
        assert with.fields[2..8] == r;
        EndContentsCarries(reply, with);
      }
    case PrefixItem(t) =>
      if |t| <= 1023 {
        EndPrefixCarries(reply, acc.(fields := acc.fields[..8] + [Filled(1023, t)]));
      }
  }

  lemma OfCons(items: seq<Item>)
    requires items != []
    ensures ContentsOf(items) == ContentsOf([items[0]]) + ContentsOf(items[1..])
    ensures PrefixesOf(items) == PrefixesOf([items[0]]) + PrefixesOf(items[1..])
  {
    hide Convert, Filled;
  }

  /** A run that ends well has handed over, or still holds, every content and every prefix exactly
      once and in order; whatever it has handed over was a proper batch. */
  lemma {:induction false} BatchedIsUnbatched(reply: ListCallback, acc: ListAcc, items: seq<Item>)
    requires Bounded(acc) && ApplyAll(reply, acc, items).1 == OK
    ensures var r := ApplyAll(reply, acc, items).0;
      && Bounded(r)
      && Contents(r) == Contents(acc) + ContentsOf(items)
      && Prefixes(r) == Prefixes(acc) + PrefixesOf(items)
    decreases |items|
  {
    hide Contents, Prefixes, Apply, GoodBatches, Convert, Filled, ContentsOf, PrefixesOf;
    if items == [] {
      NothingListed();
      Nothing(Contents(acc));
      Nothing(Prefixes(acc));
    } else {
      ApplyCarries(reply, acc, items[0]);
      var next := Apply(reply, acc, items[0]).0;
      BatchedIsUnbatched(reply, next, items[1..]);
      OfCons(items);
      Regroup(Contents(acc), ContentsOf([items[0]]), ContentsOf(items[1..]));
      Regroup(Prefixes(acc), PrefixesOf([items[0]]), PrefixesOf(items[1..]));
    }
  }

  lemma NothingListed()
    ensures ContentsOf([]) == [] && PrefixesOf([]) == []
  {}

  /** At the end of the request the user has everything. */
  lemma CompleteDeliversAll(acc: ListAcc)
    requires Bounded(acc)
    ensures AllContents(Complete(acc)) == Contents(acc) && AllPrefixes(Complete(acc)) == Prefixes(acc)
    ensures GoodBatches(Complete(acc))
  {
    hide AllContents, AllPrefixes, Convert, GoodBatches;
    AllSnoc(acc.state.delivered, MakeBatch(acc));
    Nothing(AllContents(acc.state.delivered));
    Nothing(AllPrefixes(acc.state.delivered));
    if Complete(acc) != acc.state.delivered {
      GoodSnoc(acc.state.delivered, MakeBatch(acc));
    }
  }

  // ---------------------------------------------------------------- when the run goes on

  ghost predicate PrefixesFit(items: seq<Item>) {
    forall i :: 0 <= i < |items| ==> items[i].PrefixItem? ==> |items[i].text| <= 1023
  }

  /** A user who accepts every batch: the run ends well exactly when every prefix fits. */
  lemma {:induction false} AcceptedRunEndsWell(reply: ListCallback, acc: ListAcc, items: seq<Item>)
    requires WellShaped(acc) && forall bs :: reply(bs) == OK
    ensures ApplyAll(reply, acc, items).1 == OK <==> PrefixesFit(items)
    decreases |items|
  {
    hide Filled, MakeBatch, Convert, WellShaped;
    if items != [] {
      OneAccepted(reply, acc, items[0]);
      ApplyShape(reply, acc, items[0]);
      var next := Apply(reply, acc, items[0]);
      if next.1 == OK {
        AcceptedRunEndsWell(reply, next.0, items[1..]);
        assert PrefixesFit(items) <==> PrefixesFit([items[0]]) && PrefixesFit(items[1..]) by {
          assert items == [items[0]] + items[1..];
        }
      } else {
        assert !PrefixesFit(items);
      }
    }
  }

  /** With such a user the only other status is XmlParseFailure. */
  lemma {:induction false} AcceptedRunFailure(reply: ListCallback, acc: ListAcc, items: seq<Item>)
    requires WellShaped(acc) && forall bs :: reply(bs) == OK
    ensures ApplyAll(reply, acc, items).1 in {OK, XmlParseFailure}
    decreases |items|
  {
    hide Filled, MakeBatch, Convert, WellShaped;
    if items != [] {
      ApplyShape(reply, acc, items[0]);
      OneFailure(reply, acc, items[0]);
      var next := Apply(reply, acc, items[0]);
      if next.1 == OK { AcceptedRunFailure(reply, next.0, items[1..]); }
    }
  }

  lemma OneFailure(reply: ListCallback, acc: ListAcc, item: Item)
    requires WellShaped(acc) && forall bs :: reply(bs) == OK
    ensures Apply(reply, acc, item).1 in {OK, XmlParseFailure}
  {
    hide MakeBatch, Filled;
  }

  lemma OneAccepted(reply: ListCallback, acc: ListAcc, item: Item)
    requires WellShaped(acc) && forall bs :: reply(bs) == OK
    ensures Apply(reply, acc, item).1 == OK <==> PrefixesFit([item])
  {
    hide MakeBatch, Filled;
    assert [item][0] == item;
  }

  /** The user hands back a status other than OK for a full batch: the parse stops with that status,
      and at the end of the request the same batch is delivered once more. */
  lemma {:induction false} RefusedBatchComesAgain(reply: ListCallback, acc: ListAcc, items: seq<Item>)
    requires Bounded(acc) && PrefixesFit(items) && ApplyAll(reply, acc, items).1 != OK
    ensures var r := ApplyAll(reply, acc, items);
      && WellShaped(r.0)
      && r.0.state.delivered != []
      && r.1 == reply(r.0.state.delivered)
      && Complete(r.0) == r.0.state.delivered + [r.0.state.delivered[|r.0.state.delivered| - 1]]
    decreases |items|
  {
    hide GoodBatches, Apply, Complete, WellShaped;
    var one := Apply(reply, acc, items[0]);
    ApplyShape(reply, acc, items[0]);
    assert PrefixesFit([items[0]]);
    if one.1 != OK {
      OneRefused(reply, acc, items[0]);
    } else {
      ApplyCarries(reply, acc, items[0]);
      RefusedBatchComesAgain(reply, one.0, items[1..]);
    }
  }

  /** n prefixes in a row. */
  function Prefixed(n: nat): (r: seq<Item>)
    ensures |r| == n && forall i :: 0 <= i < n ==> r[i] == PrefixItem("p")
  {
    if n == 0 then [] else [PrefixItem("p")] + Prefixed(n - 1)
  }

  lemma {:induction false} PrefixesRefused(reply: ListCallback, acc: ListAcc, n: nat)
    requires WellShaped(acc) && acc.state.delivered == [] && |acc.state.prefixes| + n == MAX_COMMON_PREFIXES && n > 0
    requires forall bs :: reply(bs) == Interrupted
    ensures var r := ApplyAll(reply, acc, Prefixed(n));
      r.1 == Interrupted && |r.0.state.delivered| == 1
    decreases n
  {
    hide Filled, MakeBatch, Convert, Prefixed;
    var items := Prefixed(n);
    var one := Apply(reply, acc, items[0]);
    ApplyShape(reply, acc, items[0]);
    PrefixRefused(reply, acc, items[0]);
    if n > 1 {
      PrefixedTail(n);
      PrefixesRefused(reply, one.0, n - 1);
    }
  }

  lemma PrefixedTail(n: nat)
    requires n > 0
    ensures Prefixed(n)[1..] == Prefixed(n - 1)
  {}

  lemma PrefixRefused(reply: ListCallback, acc: ListAcc, item: Item)
    requires WellShaped(acc) && acc.state.delivered == [] && |acc.state.prefixes| < MAX_COMMON_PREFIXES
    requires forall bs :: reply(bs) == Interrupted
    requires item == PrefixItem("p")
    ensures var r := Apply(reply, acc, item);
      && |r.0.state.prefixes| == |acc.state.prefixes| + 1
      && (if |acc.state.prefixes| + 1 == MAX_COMMON_PREFIXES then r.1 == Interrupted && |r.0.state.delivered| == 1
          else r.1 == OK && r.0.state.delivered == [])
  {
    hide Filled, MakeBatch, Convert;
  }

  /** The concrete listing: eight prefixes and a user who always refuses. The user gets the one batch
      twice. */
  lemma EightPrefixesTwice(reply: ListCallback)
    requires forall bs :: reply(bs) == Interrupted
    ensures var r := ApplyAll(reply, INITIAL, Prefixed(8));
      && r.1 == Interrupted && WellShaped(r.0)
      && |Complete(r.0)| == 2 && Complete(r.0)[0] == Complete(r.0)[1]
  {
    hide GoodBatches, ApplyAll, Complete, Prefixed;
    InitialState();
    PrefixesRefused(reply, INITIAL, 8);
    RefusedBatchComesAgain(reply, INITIAL, Prefixed(8));
  }

  lemma OneRefused(reply: ListCallback, acc: ListAcc, item: Item)
    requires Bounded(acc) && PrefixesFit([item]) && Apply(reply, acc, item).1 != OK
    ensures var r := Apply(reply, acc, item);
      && WellShaped(r.0)
      && r.0.state.delivered != []
      && r.1 == reply(r.0.state.delivered)
      && Complete(r.0) == r.0.state.delivered + [r.0.state.delivered[|r.0.state.delivered| - 1]]
  {
    hide GoodBatches, Filled, Convert, ConvertAll, EndContents, EndPrefix;
    assert [item][0] == item;
    match item
    case TopText(_, _) =>
    case ContentsItem(r) =>
      var with := acc.(fields := acc.fields[..2] + r + acc.fields[8..]);
      EndContentsRefused(reply, with);
    case PrefixItem(t) =>
      EndPrefixRefused(reply, acc.(fields := acc.fields[..8] + [Filled(1023, t)]));
  }

  lemma DeliverRefused(reply: ListCallback, acc: ListAcc)
    requires WellShaped(acc) && Deliver(reply, acc).1 != OK
    requires acc.state.contents != [] || acc.state.prefixes != []
    ensures var r := Deliver(reply, acc);
      && WellShaped(r.0)
      && r.0.state.delivered != []
      && r.1 == reply(r.0.state.delivered)
      && Complete(r.0) == r.0.state.delivered + [r.0.state.delivered[|r.0.state.delivered| - 1]]
  {
    hide Convert, ConvertAll;
  }

  lemma EndContentsRefused(reply: ListCallback, acc: ListAcc)
    requires WellShaped(acc) && EndContents(reply, acc).1 != OK
    ensures var r := EndContents(reply, acc);
      && WellShaped(r.0)
      && r.0.state.delivered != []
      && r.1 == reply(r.0.state.delivered)
      && Complete(r.0) == r.0.state.delivered + [r.0.state.delivered[|r.0.state.delivered| - 1]]
  {
    hide Convert, ConvertAll, Deliver, Complete;
    var next := WithContents(acc);
    DeliverRefused(reply, next);
  }

  lemma EndPrefixRefused(reply: ListCallback, acc: ListAcc)
    requires WellShaped(acc) && EndPrefix(reply, acc).1 != OK
    ensures var r := EndPrefix(reply, acc);
      && WellShaped(r.0)
      && r.0.state.delivered != []
      && r.1 == reply(r.0.state.delivered)
      && Complete(r.0) == r.0.state.delivered + [r.0.state.delivered[|r.0.state.delivered| - 1]]
  {
    hide Convert, ConvertAll, Deliver, Complete;
    var next := WithPrefix(acc);
    DeliverRefused(reply, next);
  }

  // ---------------------------------------------------------------- a whole reply

  /** The reply of a bucket listing: its only top-level element. */
  function Reply(kids: Forest): Forest { Elem("ListBucketResult", kids, Nil) }

  lemma InitialState()
    ensures Clean(INITIAL) && Bounded(INITIAL) && ValidFields(Buffers(), INITIAL.fields) && Contents(INITIAL) == []
      && Prefixes(INITIAL) == []
  {}

  /** Reading the reply is reading its children. */
  lemma ReplyEval(reply: ListCallback, kids: Forest)
    requires FitsPaths([], Reply(kids))
    ensures Eval(XmlCallback(reply), [], INITIAL, Reply(kids)) == Eval(XmlCallback(reply), ROOT, INITIAL, kids)
    ensures FitsPaths(ROOT, kids)
  {
    hide Eval, PathOf, Collect, EndContents, EndPrefix, Clean, Bounded;
    assert [] + ["ListBucketResult"] == ROOT;
    EvalElem(XmlCallback(reply), [], INITIAL, "ListBucketResult", kids, Nil);
    BuffersValid();
    PathCases(ROOT);
    EvalNothing(XmlCallback(reply), [], EvalOne(XmlCallback(reply), [], INITIAL, "ListBucketResult", kids).0);
  }

  /** The listing that the user sees is the listing in the document, however the batches fell; the
      parse ends well exactly when every batch was accepted and every prefix fits, which for an
      accepting user is a condition on the document alone. */
  lemma ListingIsDocument(reply: ListCallback, kids: Forest)
    requires GoodNames(kids) && FitsPaths([], Reply(kids))
    ensures var r, items := Eval(XmlCallback(reply), [], INITIAL, Reply(kids)), Items(kids);
      && (r.1 == OK ==> && WellShaped(r.0)
                        && AllContents(Complete(r.0)) == ContentsOf(items)
                        && AllPrefixes(Complete(r.0)) == PrefixesOf(items)
                        && GoodBatches(Complete(r.0)))
      && ((forall bs :: reply(bs) == OK) ==> r.1 == if PrefixesFit(items) then OK else XmlParseFailure)
  {
    hide Eval, PathOf, Clean, Apply, ApplyAll, Items, Complete, GoodBatches, ContentsOf, PrefixesOf, Contents, Prefixes,
         PrefixesFit, WellShaped, Bounded, AllContents, AllPrefixes;
    InitialState();
    BoundedShape(INITIAL);
    ReplyEval(reply, kids);
    ItemsEval(reply, INITIAL, kids);
    var items, r := Items(kids), Eval(XmlCallback(reply), [], INITIAL, Reply(kids));
    if r.1 == OK {
      BatchedIsUnbatched(reply, INITIAL, items);
      BoundedShape(r.0);
      CompleteDeliversAll(r.0);
      Nothing(ContentsOf(items));
      Nothing(PrefixesOf(items));
    }
    if forall bs :: reply(bs) == OK {
      AcceptedRunEndsWell(reply, INITIAL, items);
      AcceptedRunFailure(reply, INITIAL, items);
    }
  }

  lemma BoundedShape(acc: ListAcc)
    requires Bounded(acc)
    ensures WellShaped(acc)
  {}

  // ---------------------------------------------------------------- chunks

  lemma BlanksValid(fields: Fields)
    requires ValidFields(Buffers(), fields)
    ensures |fields| == 9
    ensures ValidFields(Buffers(), fields[..2] + BLANK_CONTENTS + [BLANK_PREFIX])
    ensures ValidFields(Buffers(), fields[..2] + BLANK_CONTENTS + fields[8..])
    ensures ValidFields(Buffers(), fields[..8] + [BLANK_PREFIX])
  {
    BlankSizes();
    hide Buffers;
  }

  lemma BlankSizes()
    ensures |Buffers()| == 9 && |BLANK_CONTENTS| == 6 && BLANK_PREFIX.Valid() && BLANK_PREFIX.cap == Buffers()[8].cap
    ensures forall i :: 0 <= i < 6 ==> BLANK_CONTENTS[i].Valid() && BLANK_CONTENTS[i].cap == Buffers()[2 + i].cap
  {}

  lemma DeliverKeeps(reply: ListCallback, acc: ListAcc)
    requires ValidFields(Buffers(), acc.fields) && WellShaped(acc)
    ensures ValidFields(Buffers(), Deliver(reply, acc).0.fields)
  {
    BlanksValid(acc.fields);
    hide ValidFields, Buffers, Convert, ConvertAll;
  }

  lemma EndContentsKeeps(reply: ListCallback, acc: ListAcc)
    requires ValidFields(Buffers(), acc.fields) && WellShaped(acc)
    ensures ValidFields(Buffers(), EndContents(reply, acc).0.fields)
  {
    hide ValidFields, Buffers, Deliver;
    BlanksValid(acc.fields);
    var next := WithContents(acc);
    DeliverKeeps(reply, next);
  }

  lemma EndPrefixKeeps(reply: ListCallback, acc: ListAcc)
    requires ValidFields(Buffers(), acc.fields) && WellShaped(acc)
    ensures ValidFields(Buffers(), EndPrefix(reply, acc).0.fields)
  {
    hide ValidFields, Buffers, Deliver;
    BlanksValid(acc.fields);
    var next := WithPrefix(acc);
    DeliverKeeps(reply, next);
  }

  lemma EndKeepsFields(reply: ListCallback)
    ensures KeepsFields(Buffers(), EndElement(reply))
  {
    hide PathOf, ValidFields, Buffers, EndContents, EndPrefix, WellShaped;
    forall path: string, acc: ListAcc | ValidFields(Buffers(), acc.fields)
      ensures ValidFields(Buffers(), EndElement(reply)(path, acc).0.fields)
    {
      if WellShaped(acc) {
        EndContentsKeeps(reply, acc);
        EndPrefixKeeps(reply, acc);
      }
    }
  }

  /** However libxml2 cuts the text of the reply into chunks, the outcome is the same. */
  lemma ListingIgnoresChunks(reply: ListCallback, f: Forest, g: Forest)
    requires Merge(f) == Merge(g)
    ensures Eval(XmlCallback(reply), [], INITIAL, f) == Eval(XmlCallback(reply), [], INITIAL, g)
  {
    hide Eval, Merge, Additive, Preserves, EndElement, KeepsFields, ValidFields, Buffers;
    EndKeepsFields(reply);
    ReaderAdditive(Buffers(), EndElement(reply));
    InitialState();
    SameTextSameResult(XmlCallback(reply), Intact(Buffers()), [], INITIAL, f, g);
  }

  /** A key is listed whole exactly when it has fewer than 1024 characters; of the longest keys that S3
      allows, the last character is lost. */
  lemma KeyIsWhole(kids: Forest)
    ensures var key := TextIn(kids, CONTENTS, Buffers()[2].names);
      Convert(RecordOf(kids)).key == key <==> |key| < 1024
  {
    hide Filled, TextIn;
    KeptWhole(1024, TextIn(kids, CONTENTS, Buffers()[2].names));
  }
}
