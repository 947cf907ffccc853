/** ListBucketData as the library keeps it (src/bucket.c): counted arrays that the XML callback fills,
    hands over and resets. Its methods are the transitions of module ListBucket. */
module ListBucketData {
  import opened Strings
  import opened Status
  import opened StringBuffers
  import opened XmlDocuments
  import opened XmlRecords
  import opened ListBucket

  /** The ListBucketContents structure: six string buffers. */
  type Record = Fields

  class ListBucketData {
    const listBucketCallback: ListCallback
    var isTruncated: StrBuf
    var nextMarker: StrBuf
    var contentsCount: nat
    const contents: array<Record>
    var commonPrefixesCount: nat
    const commonPrefixes: array<StrBuf>
    /** What listBucketCallback has been called with. */
    var delivered: seq<Batch>

    /** A count is at the end of its array only after the user has refused a full batch. */
    ghost predicate Valid()
      reads this, contents, commonPrefixes
    {
      && contents.Length == MAX_CONTENTS && contentsCount <= MAX_CONTENTS
      && commonPrefixes.Length == MAX_COMMON_PREFIXES && commonPrefixesCount <= MAX_COMMON_PREFIXES
      && (forall i :: 0 <= i < MAX_CONTENTS && i <= contentsCount ==> |contents[i]| == 6)
    }

    /** Neither array is full, so that both counts index their array. */
    ghost predicate Open()
      reads this, contents, commonPrefixes
    {
      Valid() && contentsCount < MAX_CONTENTS && commonPrefixesCount < MAX_COMMON_PREFIXES
    }

    ghost function PrefixTexts(n: nat): (r: seq<string>)
      reads this, commonPrefixes
      requires n <= commonPrefixes.Length
      ensures |r| == n && forall i :: 0 <= i < n ==> r[i] == commonPrefixes[i].text
    {
      seq(n, i requires 0 <= i < n reads this, commonPrefixes => commonPrefixes[i].text)
    }

    ghost function Current(): Record
      reads this, contents, commonPrefixes
      requires Valid()
    {
      if contentsCount < MAX_CONTENTS then contents[contentsCount] else BLANK_CONTENTS
    }

    ghost function CurrentPrefix(): StrBuf
      reads this, contents, commonPrefixes
      requires Valid()
    {
      if commonPrefixesCount < MAX_COMMON_PREFIXES then commonPrefixes[commonPrefixesCount] else BLANK_PREFIX
    }

    ghost function Model(): (acc: ListAcc)
      reads this, contents, commonPrefixes
      requires Valid()
      ensures WellShaped(acc)
    {
      Acc([isTruncated, nextMarker] + Current() + [CurrentPrefix()],
          ListState(contents[..contentsCount], PrefixTexts(commonPrefixesCount), delivered))
    }

    /** The initialisation in S3_list_bucket. */
    constructor (callback: ListCallback)
      ensures Open() && Model() == INITIAL && listBucketCallback == callback
      ensures fresh(contents) && fresh(commonPrefixes)
    {
      listBucketCallback := callback;
      isTruncated, nextMarker := Empty(64), Empty(1024);
      contentsCount, commonPrefixesCount, delivered := 0, 0, [];
      contents := new Record[MAX_CONTENTS](_ => BLANK_CONTENTS);
      commonPrefixes := new StrBuf[MAX_COMMON_PREFIXES](_ => BLANK_PREFIX);
    }

    /** initialize_list_bucket_data */
    method Initialize()
      requires Valid()
      modifies this`contentsCount, this`commonPrefixesCount, contents, commonPrefixes
      ensures Open() && contentsCount == 0 && commonPrefixesCount == 0
      ensures contents[0] == BLANK_CONTENTS && commonPrefixes[0] == BLANK_PREFIX
    {
      contentsCount := 0;
      contents[0] := BLANK_CONTENTS;
      commonPrefixesCount := 0;
      commonPrefixes[0] := BLANK_PREFIX;
    }

    /** make_list_bucket_callback */
    method MakeCallback() returns (status: S3Status)
      requires Valid()
      modifies this`delivered
      ensures Valid() && Model() == old(Model()).(state := old(Model()).state.(delivered := delivered))
      ensures delivered == old(delivered) + [MakeBatch(old(Model()))] && status == listBucketCallback(delivered)
    {
      hide Convert, ConvertAll;
      var truncated := isTruncated.text == "true" || isTruncated.text == "1";
      var dest: seq<Content> := [];
      var i := 0;
      while i < contentsCount
        invariant 0 <= i <= contentsCount && |dest| == i && delivered == old(delivered)
        invariant forall k :: 0 <= k < i ==> dest[k] == Convert(contents[k])
      {
        dest := dest + [Convert(contents[i])];
        i := i + 1;
      }
      var prefixes: seq<string> := [];
      i := 0;
      while i < commonPrefixesCount
        invariant 0 <= i <= commonPrefixesCount && prefixes == PrefixTexts(i) && delivered == old(delivered)
      {
        prefixes := prefixes + [commonPrefixes[i].text];
        i := i + 1;
      }
      assert dest == ConvertAll(contents[..contentsCount]);
      delivered := delivered + [Batch(truncated, nextMarker.text, dest, prefixes)];
      status := listBucketCallback(delivered);
      assert PrefixTexts(commonPrefixesCount) == old(PrefixTexts(commonPrefixesCount));
    }

    /** Text that has arrived goes to the buffer of its element. */
    method AddText(path: string, data: string) returns (status: S3Status)
      requires Open()
      modifies this`isTruncated, this`nextMarker, contents, commonPrefixes
      ensures Open()
      ensures var r := Store(Buffers(), old(Model()).fields, path, data);
        Model() == old(Model()).(fields := r.0) && status == r.1
    {
      hide PathOf, Buffers;
      ghost var fields := Model().fields;
      status := OK;
      var which := Find(Buffers(), path);
      BufferCaps();
      if which == 0 {
        isTruncated := isTruncated.Append(data);
      } else if which == 1 {
        nextMarker := nextMarker.Append(data);
      } else if which < 8 {
        var c := contents[contentsCount];
        contents[contentsCount] := c[which - 2 := c[which - 2].Append(data)];
        assert fields[which] == c[which - 2];
      } else if which == 8 {
        var p := commonPrefixes[commonPrefixesCount];
        commonPrefixes[commonPrefixesCount] := p.Append(data);
        if !p.Fits(data) {
          status := XmlParseFailure;
        }
      }
      assert contents[..contentsCount] == old(contents[..contentsCount]);
      assert PrefixTexts(commonPrefixesCount) == old(PrefixTexts(commonPrefixesCount));
      if which < 9 {
        assert forall i :: 0 <= i < 9 ==> Model().fields[i] == fields[which := fields[which].Append(data)][i];
      }
    }

    /** The callback is made, and the data initialised again when the user accepts the batch. */
    method HandOver() returns (status: S3Status)
      requires Valid()
      modifies this`contentsCount, this`commonPrefixesCount, this`delivered, contents, commonPrefixes
      ensures Valid() && (status == OK ==> Open())
      ensures (Model(), status) == Deliver(listBucketCallback, old(Model()))
    {
      hide MakeBatch;
      Slots(isTruncated, nextMarker, Current(), CurrentPrefix(), BLANK_CONTENTS, BLANK_PREFIX);
      status := MakeCallback();
      if status == OK {
        Initialize();
        assert contents[..0] == [] && PrefixTexts(0) == [];
        assert Model().fields == [isTruncated, nextMarker] + BLANK_CONTENTS + [BLANK_PREFIX];
      }
    }

    /** The current Contents is done with, and the next one is blank. */
    method NextContents()
      requires Open()
      modifies this`contentsCount, contents
      ensures Valid() && contentsCount == old(contentsCount) + 1
      ensures Model() == WithContents(old(Model()))
    {
      Slots(isTruncated, nextMarker, Current(), CurrentPrefix(), BLANK_CONTENTS, BLANK_PREFIX);
      contentsCount := contentsCount + 1;
      if contentsCount < MAX_CONTENTS {
        contents[contentsCount] := BLANK_CONTENTS;
      }
      assert contents[..contentsCount] == old(contents[..contentsCount]) + [old(contents[contentsCount])];
      assert Current() == BLANK_CONTENTS;
      assert PrefixTexts(commonPrefixesCount) == old(PrefixTexts(commonPrefixesCount));
    }

    /** The current prefix is done with, and the next one is blank. */
    method NextPrefix()
      requires Open()
      modifies this`commonPrefixesCount, commonPrefixes
      ensures Valid() && commonPrefixesCount == old(commonPrefixesCount) + 1
      ensures Model() == WithPrefix(old(Model()))
    {
      Slots(isTruncated, nextMarker, Current(), CurrentPrefix(), BLANK_CONTENTS, BLANK_PREFIX);
      commonPrefixesCount := commonPrefixesCount + 1;
      if commonPrefixesCount < MAX_COMMON_PREFIXES {
        commonPrefixes[commonPrefixesCount] := BLANK_PREFIX;
      }
      assert PrefixTexts(commonPrefixesCount)
          == old(PrefixTexts(commonPrefixesCount)) + [old(commonPrefixes[commonPrefixesCount].text)];
    }

    /** A Contents element has ended. */
    method FinishContents() returns (status: S3Status)
      requires Open()
      modifies this`contentsCount, this`commonPrefixesCount, this`delivered, contents, commonPrefixes
      ensures Valid() && (status == OK ==> Open())
      ensures (Model(), status) == EndContents(listBucketCallback, old(Model()))
    {
      hide Deliver;
      NextContents();
      status := OK;
      if contentsCount == MAX_CONTENTS {
        status := HandOver();
      }
    }

    /** A Prefix element has ended. */
    method FinishPrefix() returns (status: S3Status)
      requires Open()
      modifies this`contentsCount, this`commonPrefixesCount, this`delivered, contents, commonPrefixes
      ensures Valid() && (status == OK ==> Open())
      ensures (Model(), status) == EndPrefix(listBucketCallback, old(Model()))
    {
      hide Deliver;
      NextPrefix();
      status := OK;
      if commonPrefixesCount == MAX_COMMON_PREFIXES {
        status := HandOver();
      }
    }

    /** listBucketXmlCallback */
    method XmlCallback(path: string, data: Option<string>) returns (status: S3Status)
      requires Open()
      modifies this`isTruncated, this`nextMarker, this`contentsCount, this`commonPrefixesCount, this`delivered
      modifies contents, commonPrefixes
      ensures Valid() && (status == OK ==> Open())
      ensures (Model(), status) == ListBucket.XmlCallback(listBucketCallback)(path, data, old(Model()))
    {
      hide PathOf, EndContents, EndPrefix, Store, Valid, Buffers;
      BufferCaps();
      match data
      case Some(text) =>
        status := AddText(path, text);
      case None =>
        status := OK;
        if path == PathOf(CONTENTS) {
          status := FinishContents();
        } else if path == PathOf(PREFIX) {
          status := FinishPrefix();
        }
    }

    /** The first part of listBucketCompleteCallback. */
    method CompleteCallback()
      requires Valid()
      modifies this`delivered
      ensures delivered == Complete(old(Model()))
    {
      if contentsCount != 0 || commonPrefixesCount != 0 {
        var ignored := MakeCallback();
      }
    }
  }

  lemma Slots<T>(a: T, b: T, six: seq<T>, p: T, six': seq<T>, p': T)
    requires |six| == |six'| == 6
    ensures var f := [a, b] + six + [p];
      && f[2..8] == six && f[8] == p
      && f[..2] + six' + f[8..] == [a, b] + six' + [p]
      && f[..2] + six' + [p'] == [a, b] + six' + [p']
      && f[..8] + [p'] == [a, b] + six + [p']
  {}

  lemma BufferCaps()
    ensures |Buffers()| == 9
    ensures forall i :: 0 <= i < 8 ==> Buffers()[i].overflow == OK
    ensures Buffers()[8].overflow == XmlParseFailure
  {}
}
