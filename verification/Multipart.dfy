/** The multipart upload of src/s3.c: how an object is cut into parts, and which ranges a copy requests. */
module Multipart {
  import opened UrlEncoding

  /** MULTIPART_CHUNK_SIZE */
  const CHUNK: nat := 805306368

  /** The count of parts is a C int. */
  const MAX_PARTS: nat := 0x7fff_ffff

  // ---------------------------------------------------------------- the parts

  /** Part number seq: where its bytes begin, and how many there are. */
  datatype Part = Part(seqNo: nat, start: nat, length: nat)

  /** Part i, counted from 0, of an object of the given length. */
  function PartAt(length: nat, i: nat): Part
    requires i * CHUNK <= length
  {
    Part(i + 1, i * CHUNK, if length - i * CHUNK > CHUNK then CHUNK else length - i * CHUNK)
  }

  function TotalSeq(length: nat): nat { (length + CHUNK - 1) / CHUNK }

  lemma PartIndex(length: nat, i: nat)
    ensures i < TotalSeq(length) <==> i * CHUNK < length
  {}

  function Parts(length: nat): (r: seq<Part>)
    ensures |r| == TotalSeq(length)
  {
    seq(TotalSeq(length), i requires 0 <= i < TotalSeq(length) => (PartIndex(length, i); PartAt(length, i)))
  }

  /** The parts tile the object: numbered from 1, not empty, none above the chunk size, each beginning
      where the one before ended, the first at 0 and the last ending at the end. */
  ghost predicate Tiles(ps: seq<Part>, length: nat) {
    && ps != [] && ps[0].start == 0
    && ps[|ps| - 1].start + ps[|ps| - 1].length == length
    && (forall i :: 0 <= i < |ps| ==> ps[i].seqNo == i + 1 && 0 < ps[i].length <= CHUNK)
    && (forall i :: 0 <= i < |ps| - 1 ==> ps[i + 1].start == ps[i].start + ps[i].length)
  }

  lemma PartsTile(length: nat)
    requires length > 0
    ensures Tiles(Parts(length), length)
    ensures forall i :: 0 <= i < |Parts(length)| - 1 ==> Parts(length)[i].length == CHUNK
  {
    var ps, n := Parts(length), TotalSeq(length);
    forall i | 0 <= i < n
      ensures 0 < ps[i].length <= CHUNK
      ensures ps[i].start + ps[i].length == if i + 1 < n then ps[i + 1].start else length
    {
      PartIndex(length, i);
      PartIndex(length, i + 1);
    }
    PartIndex(length, 0);
  }

  function Total(ps: seq<Part>): nat {
    if ps == [] then 0 else Total(ps[..|ps| - 1]) + ps[|ps| - 1].length
  }

  /** A tiling accounts for every byte. */
  lemma {:induction false} TilingTotal(ps: seq<Part>, length: nat)
    requires Tiles(ps, length)
    ensures Total(ps) == length
  {
    var n := |ps| - 1;
    if n > 0 {
      assert ps[n].start == ps[n - 1].start + ps[n - 1].length;
      TilingTotal(ps[..n], ps[n].start);
    } else {
      assert ps[..0] == [];
    }
  }

  /** Every byte of the object is in exactly one part. */
  lemma EachByteOnce(length: nat, at: nat)
    requires at < length
    ensures var i := at / CHUNK;
      && i < TotalSeq(length)
      && (forall j :: 0 <= j < TotalSeq(length) ==>
            (Parts(length)[j].start <= at < Parts(length)[j].start + Parts(length)[j].length <==> j == i))
  {
    var i := at / CHUNK;
    PartIndex(length, i);
    forall j | 0 <= j < TotalSeq(length)
      ensures Parts(length)[j].start <= at < Parts(length)[j].start + Parts(length)[j].length <==> j == i
    {
      PartIndex(length, j);
      assert j < i ==> (j + 1) * CHUNK <= i * CHUNK;
      assert j > i ==> (i + 1) * CHUNK <= j * CHUNK;
    }
  }

  /** The loop of put_object over the parts of a fresh upload; what is left over is a uint64_t, which
      wraps around after a last part that is not full. */
  method SendParts(contentLength: nat) returns (sent: seq<Part>)
    requires CHUNK < contentLength <= CHUNK * MAX_PARTS
    ensures sent == Parts(contentLength)
  {
    var remaining := contentLength;
    var totalSeq := (contentLength + CHUNK - 1) / CHUNK;
    sent := [];
    var offset := 0;
    var seqNo := 1;
    while seqNo <= totalSeq
      invariant 1 <= seqNo <= totalSeq + 1 && |sent| == seqNo - 1
      invariant seqNo <= totalSeq ==> remaining == contentLength - (seqNo - 1) * CHUNK && offset == (seqNo - 1) * CHUNK
      invariant forall i :: 0 <= i < seqNo - 1 ==> sent[i] == Parts(contentLength)[i]
    {
      PartIndex(contentLength, seqNo - 1);
      PartIndex(contentLength, seqNo);
      var partContentLength := if remaining > CHUNK then CHUNK else remaining;
      sent := sent + [Part(seqNo, offset, partContentLength)];
      offset := offset + partContentLength;
      remaining := (remaining - CHUNK) % TWO_TO_64;
      seqNo := seqNo + 1;
    }
  }

  // ---------------------------------------------------------------- copying by ranges

  /** The bytes of the source object that the server copies for a part: S3_copy_object_range is given
      the part's start and its length minus one, and the range header is sent only when that is
      positive; without it the whole object is copied. The upper end is exclusive. */
  function Copied(p: Part, length: nat): (int, int) {
    var count := p.length - 1;
    if count > 0 then (p.start, p.start + count + 1) else (0, length)
  }

  /** The copied ranges are exactly the parts if and only if the last part is not a single byte. */
  lemma CopyTiles(length: nat)
    requires length > CHUNK
    ensures (forall i :: 0 <= i < TotalSeq(length) ==>
               Copied(Parts(length)[i], length)
                 == (Parts(length)[i].start, Parts(length)[i].start + Parts(length)[i].length))
       <==> length % CHUNK != 1
  {
    var n := TotalSeq(length) - 1;
    PartIndex(length, n);
    PartIndex(length, n + 1);
    forall i | 0 <= i < n
      ensures Parts(length)[i].length == CHUNK
    {
      PartIndex(length, i + 1);
      assert (i + 1) * CHUNK <= n * CHUNK;
    }
    assert Copied(Parts(length)[n], length)
      == (Parts(length)[n].start, Parts(length)[n].start + Parts(length)[n].length)
      <==> Parts(length)[n].length != 1;
  }

}
