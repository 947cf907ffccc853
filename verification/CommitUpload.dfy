/** The commit of a multipart upload (src/s3.c): the document that lists the parts, its way through
    the byte queue, and the callback that sends it. */
module CommitUpload {
  import opened Strings
  import opened UrlEncoding
  import opened XmlDocuments
  import opened XmlText
  import opened ByteQueue
  import opened GrowBuffer

  // ---------------------------------------------------------------- the document

  function PartText(seqNo: nat, etag: string): string {
    OpenTag("Part") + (Element("PartNumber", NatText(seqNo)) + Element("ETag", etag)) + CloseTag("Part")
  }

  function PartTexts(etags: seq<string>): string {
    if etags == [] then "" else PartTexts(etags[..|etags| - 1]) + PartText(|etags|, etags[|etags| - 1])
  }

  const COMMIT_START := OpenTag("CompleteMultipartUpload")
  const COMMIT_END := CloseTag("CompleteMultipartUpload")

  function CommitText(etags: seq<string>): string { COMMIT_START + PartTexts(etags) + COMMIT_END }

  /** The document, tag by tag. */
  lemma PrintedCommit(etags: seq<string>, seqNo: nat, etag: string)
    ensures PartText(seqNo, etag)
      == "<Part>" + (("<PartNumber>" + NatText(seqNo) + "</PartNumber>") + ("<ETag>" + etag + "</ETag>")) + "</Part>"
    ensures CommitText(etags) == "<CompleteMultipartUpload>" + PartTexts(etags) + "</CompleteMultipartUpload>"
  {
    CommitTags();
    PartTagTexts();
    hide OpenTag, CloseTag, NatText, PartTexts;
  }

  lemma CommitTags()
    ensures COMMIT_START == "<CompleteMultipartUpload>" && COMMIT_END == "</CompleteMultipartUpload>"
  {}

  lemma PartTagTexts()
    ensures OpenTag("Part") == "<Part>" && CloseTag("Part") == "</Part>" && OpenTag("PartNumber") == "<PartNumber>"
    ensures CloseTag("PartNumber") == "</PartNumber>" && OpenTag("ETag") == "<ETag>" && CloseTag("ETag") == "</ETag>"
  {}

  function PartTree(seqNo: nat, etag: string): Forest {
    Leaf("PartNumber", NatText(seqNo), Leaf("ETag", etag, Nil))
  }

  /** The elements for the parts from etags[from] on. */
  function PartsTree(etags: seq<string>, from: nat): Forest
    requires from <= |etags|
    decreases |etags| - from
  {
    if from == |etags| then Nil else Elem("Part", PartTree(from + 1, etags[from]), PartsTree(etags, from + 1))
  }

  function CommitTree(etags: seq<string>): Forest {
    Elem("CompleteMultipartUpload", PartsTree(etags, 0), Nil)
  }

  lemma RenderPart(seqNo: nat, etag: string)
    ensures OpenTag("Part") + Render(PartTree(seqNo, etag)) + CloseTag("Part") == PartText(seqNo, etag)
  {
    hide Render, NatText, Element;
    RenderLeaf("PartNumber", NatText(seqNo), Leaf("ETag", etag, Nil));
    RenderLeaf("ETag", etag, Nil);
    RenderNil();
    Nothing(Element("ETag", etag));
  }

  lemma {:induction false} RenderParts(etags: seq<string>, from: nat)
    requires from <= |etags|
    ensures PartTexts(etags[..from]) + Render(PartsTree(etags, from)) == PartTexts(etags)
    decreases |etags| - from
  {
    hide PartText, PartTree, OpenTag, CloseTag;
    if from == |etags| {
      assert etags[..from] == etags;
      Nothing(PartTexts(etags));
    } else {
      RenderParts(etags, from + 1);
      RenderPart(from + 1, etags[from]);
      assert etags[..from + 1][..from] == etags[..from];
      Regroup(PartTexts(etags[..from]), PartText(from + 1, etags[from]), Render(PartsTree(etags, from + 1)));
    }
  }

  lemma RenderCommit(etags: seq<string>)
    ensures Render(CommitTree(etags)) == CommitText(etags)
  {
    hide PartsTree, PartTexts, OpenTag, CloseTag;
    RenderParts(etags, 0);
    NoParts(etags);
    Nothing(PartTexts(etags));
    Nothing(CommitText(etags));
  }

  lemma NoParts(etags: seq<string>)
    ensures PartTexts(etags[..0]) == ""
  {}

  /** Which parts a document lists: their numbers and entity tags. */
  function Listed(f: Forest): seq<(nat, string)> {
    match f
    case Elem("Part", Elem("PartNumber", Text(n, Nil), Elem("ETag", Text(e, Nil), Nil)), rest) =>
      (if forall i :: 0 <= i < |n| ==> IsDigit(n[i]) then [(Number(n), e)] else []) + Listed(rest)
    case _ => []
  }

  lemma {:induction false} PartsAreListed(etags: seq<string>, from: nat)
    requires from <= |etags| && forall i :: 0 <= i < |etags| ==> etags[i] != ""
    ensures var l := Listed(PartsTree(etags, from));
      |l| == |etags| - from && forall i :: 0 <= i < |l| ==> l[i] == (from + i + 1, etags[from + i])
    decreases |etags| - from
  {
    hide NatText, Number;
    if from < |etags| {
      NumberOfText(from + 1);
      PartsAreListed(etags, from + 1);
    }
  }

  lemma {:induction false} PartsPrintable(etags: seq<string>, from: nat)
    requires from <= |etags| && forall i :: 0 <= i < |etags| ==> Plain(etags[i])
    ensures Printable(PartsTree(etags, from))
    decreases |etags| - from
  {
    hide Plain, TagName, NatText, Leaf;
    PartTags();
    if from < |etags| {
      NumberPlain(from + 1);
      PartPrintable(from + 1, etags[from]);
      PartsPrintable(etags, from + 1);
    }
  }

  lemma PartPrintable(seqNo: nat, etag: string)
    requires Plain(etag)
    ensures Printable(PartTree(seqNo, etag))
  {
    hide Plain, TagName, NatText;
    PartTags();
    NumberPlain(seqNo);
    assert Printable(TextNode(NatText(seqNo)));
    assert Printable(TextNode(etag));
    assert Printable(Leaf("ETag", etag, Nil));
  }

  lemma PartTags()
    ensures TagName("Part") && TagName("PartNumber") && TagName("ETag") && TagName("CompleteMultipartUpload")
  {}

  lemma NumberPlain(n: nat)
    ensures Plain(NatText(n))
  {
    hide NatText;
  }

  /** The commit document, read back, lists the parts 1, 2, ... in ascending order, each with its
      entity tag. */
  lemma CommitListsParts(etags: seq<string>)
    requires forall i :: 0 <= i < |etags| ==> etags[i] != "" && Plain(etags[i])
    ensures Scan(CommitText(etags)) == Events(CommitTree(etags))
    ensures CommitTree(etags).Elem?
      && Listed(CommitTree(etags).kids) == seq(|etags|, i requires 0 <= i < |etags| => (i + 1, etags[i]))
  {
    hide Scan, Render, PartsTree, Plain, TagName, CommitText, Listed;
    RenderCommit(etags);
    PartTags();
    PartsPrintable(etags, 0);
    ScanRender(CommitTree(etags), "");
    Nothing(CommitText(etags));
    ScanNothing();
    Nothing(Events(CommitTree(etags)));
    PartsAreListed(etags, 0);
  }

  // ---------------------------------------------------------------- building and sending it

  lemma PartTextsSnoc(etags: seq<string>, i: nat)
    requires i < |etags|
    ensures PartTexts(etags[..i + 1]) == PartTexts(etags[..i]) + PartText(i + 1, etags[i])
  {
    hide PartText;
    assert etags[..i + 1][..i] == etags[..i];
  }

  /** char buf[256], into which each part is printed first. */
  const PART_SIZE: nat := 256

  ghost predicate PartsFit(etags: seq<string>, n: nat)
    requires n <= |etags|
  {
    forall i :: 0 <= i < n ==> |PartText(i + 1, etags[i])| < PART_SIZE
  }

  lemma PartsFitStep(etags: seq<string>, i: nat)
    requires i < |etags|
    ensures PartsFit(etags, 0)
    ensures PartsFit(etags, i) && |PartText(i + 1, etags[i])| < PART_SIZE ==> PartsFit(etags, i + 1)
    ensures |PartText(i + 1, etags[i])| >= PART_SIZE ==> !PartsFit(etags, |etags|)
  {}

  lemma NoPartsFit(etags: seq<string>)
    ensures PartsFit(etags, 0)
  {}

  /** The commit document goes into the queue piece by piece; each part is printed into a buffer of 256
      characters first. What is appended is as many characters as snprintf reports: when a part does not
      fit, they are not those of its text, and complete is false. */
  method BuildCommit(etags: seq<string>, gb: GrowBuffer) returns (size: nat, complete: bool)
    requires gb.Valid() && gb.Model() == EMPTY
    modifies gb, Repr(gb.nodes)
    ensures gb.Valid() && gb.Model().Valid()
    ensures complete <==> PartsFit(etags, |etags|)
    ensures complete ==> gb.Model().Contents() == CommitText(etags) && size == |CommitText(etags)|
    ensures forall o <- Repr(gb.nodes) :: o in old(Repr(gb.nodes)) || fresh(o)
  {
    hide PartText, PartsFit, PartTexts, Queue.Append, Queue.Contents, Queue.CanAppend, GrowBuffer.Valid,
      GrowBuffer.Model, Repr;
    EmptyQueue();
    NoParts(etags);
    NoPartsFit(etags);
    size := Extend(gb, COMMIT_START, "");
    Nothing(COMMIT_START);
    var i := 0;
    while i < |etags|
      invariant 0 <= i <= |etags| && gb.Valid() && gb.Model().CanAppend()
      invariant PartsFit(etags, i)
      invariant gb.Model().Contents() == COMMIT_START + PartTexts(etags[..i]) && size == |gb.Model().Contents()|
      invariant forall o <- Repr(gb.nodes) :: o in old(Repr(gb.nodes)) || fresh(o)
    {
      PartsFitStep(etags, i);
      if |PartText(i + 1, etags[i])| >= PART_SIZE { return size, false; }
      PartTextsSnoc(etags, i);
      Regroup(COMMIT_START, PartTexts(etags[..i]), PartText(i + 1, etags[i]));
      var n := Extend(gb, PartText(i + 1, etags[i]), gb.Model().Contents());
      size := size + n;
      i := i + 1;
    }
    assert etags[..i] == etags;
    var n := Extend(gb, COMMIT_END, gb.Model().Contents());
    size, complete := size + n, true;
  }

  lemma EmptyQueue()
    ensures EMPTY.Valid() && EMPTY.CanAppend() && EMPTY.Contents() == ""
  {}

  method Extend(gb: GrowBuffer, piece: string, ghost before: string) returns (n: nat)
    requires gb.Valid() && gb.Model().CanAppend() && gb.Model().Contents() == before
    modifies gb, Repr(gb.nodes)
    ensures gb.Valid() && gb.Model().CanAppend() && gb.Model().Contents() == before + piece && n == |piece|
    ensures forall o <- Repr(gb.nodes) :: o in old(Repr(gb.nodes)) || fresh(o)
  {
    hide Queue.Append, Queue.Contents, Queue.CanAppend, GrowBuffer.Valid, GrowBuffer.Model, Repr;
    AppendContents(gb.Model(), piece);
    AppendNothing(gb.Model());
    var sound;
    n, sound := gb.Append(piece);
  }

  /** The fields of an UploadManager that the commit uses. */
  class UploadManager {
    const gb: GrowBuffer
    var remaining: nat

    ghost predicate Valid()
      reads this, gb, gb.nodes, Arrays(gb.nodes)
    {
      gb.Valid() && this !in Repr(gb.nodes) && remaining == |gb.Model().Contents()|
    }

    constructor (gb: GrowBuffer, size: nat)
      requires gb.Valid() && size == |gb.Model().Contents()|
      ensures Valid() && this.gb == gb && remaining == size
    {
      this.gb := gb;
      remaining := size;
    }

    /** multipartPutXmlCallback: what is handed over and what remains make up what there was, and while
        something remains a buffer that is not empty gets something. */
    method PutXmlCallback(bufferSize: nat, buffer: array<char>) returns (ret: nat)
      requires Valid() && bufferSize <= buffer.Length && buffer !in Repr(gb.nodes)
      modifies this, gb, gb.nodes, buffer
      ensures Valid() && ret <= bufferSize && ret <= old(remaining) && remaining == old(remaining) - ret
      ensures buffer[..ret] + gb.Model().Contents() == old(gb.Model().Contents())
      ensures ret == 0 <==> bufferSize == 0 || old(remaining) == 0
      ensures Repr(gb.nodes) <= old(Repr(gb.nodes))
    {
      hide Queue.Contents, Queue.Read, GrowBuffer.Valid, GrowBuffer.Model;
      ret := 0;
      if remaining != 0 {
        var toRead := if remaining > bufferSize then bufferSize else remaining;
        ReadContents(gb.Model(), toRead);
        ret := gb.Read(toRead, buffer);
      }
      remaining := remaining - ret;
    }
  }

  /** One call of the callback with a buffer of the given size, and what curl takes from it. */
  method Ask(m: UploadManager, size: nat) returns (piece: string)
    requires m.Valid() && size > 0
    modifies m, m.gb, Repr(m.gb.nodes)
    ensures m.Valid() && Repr(m.gb.nodes) <= old(Repr(m.gb.nodes))
    ensures piece + m.gb.Model().Contents() == old(m.gb.Model().Contents())
    ensures m.remaining == 0 || m.remaining < old(m.remaining)
  {
    hide Queue.Contents, Queue.Read, GrowBuffer.Valid, GrowBuffer.Model;
    var buffer := new char[size];
    var n := m.PutXmlCallback(size, buffer);
    piece := buffer[..n];
  }

  /** Everything has been sent exactly when nothing is left. */
  lemma SentAll(body: string, left: string, all: string)
    requires body + left == all
    ensures left == "" <==> body == all
  {
    assert |body| + |left| == |all|;
    Nothing(body);
  }

  /** The body of the commit request: curl asks with buffers of any sizes that are not empty. What it has
      received and what is left make up the document at any time, and it has the whole document after at
      most as many calls as the document has bytes. */
  method SendCommit(m: UploadManager, sizes: seq<nat>) returns (body: string)
    requires m.Valid() && forall i :: 0 <= i < |sizes| ==> sizes[i] > 0
    modifies m, m.gb, Repr(m.gb.nodes)
    ensures m.Valid() && body + m.gb.Model().Contents() == old(m.gb.Model().Contents())
    ensures m.remaining == 0 <==> body == old(m.gb.Model().Contents())
    ensures |sizes| >= old(m.remaining) ==> m.remaining == 0
  {
    hide Queue.Contents, GrowBuffer.Valid, GrowBuffer.Model, Repr;
    ghost var all := m.gb.Model().Contents();
    body := "";
    var i := 0;
    while i < |sizes|
      invariant 0 <= i <= |sizes| && m.Valid()
      invariant body + m.gb.Model().Contents() == all
      invariant m.remaining == 0 || m.remaining + i <= old(m.remaining)
      invariant Repr(m.gb.nodes) <= old(Repr(m.gb.nodes))
    {
      var piece := Ask(m, sizes[i]);
      Regroup(body, piece, m.gb.Model().Contents());
      body := body + piece;
      i := i + 1;
    }
    SentAll(body, m.gb.Model().Contents(), all);
  }
}
