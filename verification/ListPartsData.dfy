/** ListPartsData as the library keeps it (src/multipart.c): counted arrays that the XML callback fills,
    hands over and resets. Its methods are the transitions of module ListParts. */
module ListPartsData {
  import opened Strings
  import opened Status
  import opened StringBuffers
  import opened XmlDocuments
  import opened XmlRecords
  import opened ListParts

  class ListPartsData {
    const listPartsCallback: PartsCallback
    /** isTruncated, nextPartNumberMarker, storageClass, and the strings of initiator and owner. */
    const listing: array<StrBuf>
    var handlePartsStart: nat
    var partsCount: nat
    const parts: array<Fields>
    /** What listPartsCallback has been called with. */
    var delivered: seq<Batch>

    /** The count is at the end of the array only after the user has refused a full batch. */
    ghost predicate Valid()
      reads this, parts
    {
      && listing.Length == 7 && parts.Length == MAX_PARTS && partsCount <= MAX_PARTS
      && (forall i :: 0 <= i < MAX_PARTS && i <= partsCount ==> |parts[i]| == 4)
    }

    ghost function Current(): Fields
      reads this, parts
      requires Valid()
    {
      if partsCount < MAX_PARTS then parts[partsCount] else BLANK_PART
    }

    ghost function Model(): (acc: PartsAcc)
      reads this, listing, parts
      requires Valid()
      ensures WellShaped(acc)
    {
      Acc(listing[..] + Current(), PartsState(parts[..partsCount], handlePartsStart, delivered))
    }

    /** The initialisation in S3_list_parts. */
    constructor (callback: PartsCallback)
      ensures Valid() && partsCount == 0 && Model() == INITIAL && listPartsCallback == callback
      ensures fresh(listing) && fresh(parts)
    {
      listPartsCallback := callback;
      listing := new StrBuf[][Empty(64), Empty(1024), Empty(256), Empty(256), Empty(256), Empty(256), Empty(256)];
      parts := new Fields[MAX_PARTS](_ => BLANK_PART);
      handlePartsStart, partsCount, delivered := 0, 0, [];
      new;
      assert listing[..] == [Empty(64), Empty(1024), Empty(256), Empty(256), Empty(256), Empty(256), Empty(256)];
    }

    /** make_list_parts_callback */
    method MakeCallback() returns (status: S3Status)
      requires Valid()
      modifies this`delivered
      ensures delivered == old(delivered) + [MakeBatch(old(Model()))] && status == listPartsCallback(delivered)
    {
      hide Convert;
      var truncated := listing[0].text == "true" || listing[0].text == "1";
      var dest: seq<PartInfo> := [];
      var i := 0;
      while i < partsCount
        invariant 0 <= i <= partsCount && delivered == old(delivered)
        invariant Records(parts[..i]) && dest == ConvertAll(parts[..i])
      {
        ConvertSnoc(parts[..i], parts[i]);
        assert parts[..i + 1] == parts[..i] + [parts[i]];
        dest := dest + [Convert(parts[i])];
        i := i + 1;
      }
      assert forall k :: 0 <= k < 7 ==> listing[k] == Model().fields[k];
      delivered := delivered
        + [Batch(truncated, listing[1].text, listing[3].text, listing[4].text, listing[5].text, listing[6].text,
                 listing[2].text, handlePartsStart, dest)];
      status := listPartsCallback(delivered);
    }

    /** Text that has arrived goes to the buffer of its element. */
    method AddText(path: string, data: string) returns (status: S3Status)
      requires Valid() && partsCount < MAX_PARTS
      modifies listing, parts
      ensures Valid()
      ensures var r := Store(Buffers(), old(Model()).fields, path, data);
        Model() == old(Model()).(fields := r.0) && status == r.1
    {
      hide PathOf, Buffers;
      NoOverflow();
      ghost var fields := Model().fields;
      var which := Find(Buffers(), path);
      if which < 7 {
        listing[which] := listing[which].Append(data);
      } else if which < 11 {
        var p := parts[partsCount];
        assert fields[which] == p[which - 7];
        parts[partsCount] := p[which - 7 := p[which - 7].Append(data)];
      }
      assert parts[..partsCount] == old(parts[..partsCount]);
      if which < 11 {
        assert forall i :: 0 <= i < 11 ==> Model().fields[i] == fields[which := fields[which].Append(data)][i];
      }
      status := OK;
    }

    /** The current part joins the finished ones, and the next one is blank. */
    method NextPart()
      requires Valid() && partsCount < MAX_PARTS
      modifies this`partsCount, parts
      ensures Valid() && partsCount == old(partsCount) + 1
      ensures Model() == Acc(old(Model()).fields[..7] + BLANK_PART,
                             old(Model()).state.(parts := old(Model()).state.parts + [old(Model()).fields[7..]]))
    {
      assert (listing[..] + Current())[..7] == listing[..] && (listing[..] + Current())[7..] == Current();
      partsCount := partsCount + 1;
      if partsCount < MAX_PARTS {
        parts[partsCount] := BLANK_PART;
      }
      assert Current() == BLANK_PART;
      assert parts[..partsCount] == old(parts[..partsCount]) + [old(parts[partsCount])];
    }

    /** A Part element has ended. */
    method FinishPart() returns (status: S3Status)
      requires Valid() && partsCount < MAX_PARTS
      modifies this`handlePartsStart, this`partsCount, this`delivered, parts
      ensures Valid() && (status == OK ==> partsCount < MAX_PARTS)
      ensures (Model(), status) == EndPart(listPartsCallback, old(Model()))
    {
      hide MakeBatch;
      NextPart();
      ghost var next := Model();
      status := OK;
      if partsCount == MAX_PARTS {
        status := MakeCallback();
        if status == OK {
          handlePartsStart := handlePartsStart + partsCount;
          partsCount := 0;
          parts[0] := BLANK_PART;
          assert parts[..0] == [];
        }
        assert Model().fields == next.fields;
      }
    }

    /** listPartsXmlCallback */
    method XmlCallback(path: string, data: Option<string>) returns (status: S3Status)
      requires Valid() && partsCount < MAX_PARTS
      modifies this`handlePartsStart, this`partsCount, this`delivered, listing, parts
      ensures Valid() && (status == OK ==> partsCount < MAX_PARTS)
      ensures (Model(), status) == ListParts.XmlCallback(listPartsCallback)(path, data, old(Model()))
    {
      hide PathOf, EndPart, Store, Buffers;
      NoOverflow();
      match data
      case Some(text) =>
        status := AddText(path, text);
      case None =>
        status := OK;
        if path == PathOf(PART) {
          status := FinishPart();
        }
    }

    /** The first part of listPartsCompleteCallback. */
    method CompleteCallback()
      requires Valid()
      modifies this`delivered
      ensures delivered == Complete(old(Model()))
    {
      if partsCount != 0 {
        var ignored := MakeCallback();
      }
    }
  }
}
