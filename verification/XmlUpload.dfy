/** Sending a document as the body of a request (src/bucket_metadata.c): setXmlDataCallback supplies it
    piece by piece, while the request counts down what remains. */
module XmlUpload {
  import opened Strings
  import opened Status
  import opened Requests

  /** SetXmlData; the whole document is there from the start. */
  class SetXmlData {
    const xmlDocument: string
    var xmlDocumentBytesWritten: nat

    ghost predicate Valid()
      reads this
    {
      xmlDocumentBytesWritten <= |xmlDocument|
    }

    constructor (xmlDocument: string)
      ensures Valid() && this.xmlDocument == xmlDocument && xmlDocumentBytesWritten == 0
    {
      this.xmlDocument := xmlDocument;
      xmlDocumentBytesWritten := 0;
    }

    /** setXmlDataCallback */
    method DataCallback(bufferSize: nat, buffer: array<char>) returns (toCopy: nat)
      requires Valid() && bufferSize <= buffer.Length
      modifies this, buffer
      ensures Valid() && toCopy == Supply(xmlDocument, old(xmlDocumentBytesWritten), bufferSize)
      ensures xmlDocumentBytesWritten == old(xmlDocumentBytesWritten) + toCopy
      ensures buffer[..toCopy] == xmlDocument[old(xmlDocumentBytesWritten)..xmlDocumentBytesWritten]
    {
      var remaining := |xmlDocument| - xmlDocumentBytesWritten;
      toCopy := if bufferSize > remaining then remaining else bufferSize;
      var i := 0;
      while i < toCopy
        invariant 0 <= i <= toCopy && xmlDocumentBytesWritten == old(xmlDocumentBytesWritten)
        invariant forall j :: 0 <= j < i ==> buffer[j] == xmlDocument[xmlDocumentBytesWritten + j]
      {
        buffer[i] := xmlDocument[xmlDocumentBytesWritten + i];
        i := i + 1;
      }
      xmlDocumentBytesWritten := xmlDocumentBytesWritten + toCopy;
    }
  }

  /** How much the callback copies when `written` bytes have been written before. */
  function Supply(doc: string, written: nat, bufferSize: int): int {
    if bufferSize > |doc| - written then |doc| - written else bufferSize
  }

  /** The bytes it copies. */
  function Copied(doc: string, written: nat, bufferSize: nat): (r: string)
    requires written <= |doc|
    ensures |r| == Supply(doc, written, bufferSize)
  {
    doc[written..written + Supply(doc, written, bufferSize)]
  }

  // ---------------------------------------------------------------- request and callback together

  /** A request that sends a document: the request with its own count of what remains, the callback's
      counter xmlDocumentBytesWritten, and what curl has received. Nothing ties the two counts together. */
  datatype Upload = Upload(request: State, written: int, body: string)

  /** The initialisation in request_get and in the function that makes the request. */
  function Fresh(doc: string): Upload { Upload(Initial(|doc|), 0, "") }

  ghost predicate InRange(doc: string, u: Upload) {
    0 <= u.written <= |doc| && 0 <= u.request.toS3BytesRemaining
  }

  /** The outside of the request when its upload callback is setXmlDataCallback with that counter. */
  function Sending(env: Environment, doc: string, written: nat): Environment {
    env.(toS3 := Some((log: seq<Event>, len: int) => Supply(doc, written, len)))
  }

  /** curl_read_func with setXmlDataCallback: when the callback is called it advances its counter by all
      that it copies, while curl receives as many of the copied bytes as the request says. */
  function ReadStep(env: Environment, doc: string, u: Upload, size: nat): (v: Upload)
    requires InRange(doc, u)
    ensures InRange(doc, v)
  {
    var (s, taken) := ReadFunc(Sending(env, doc, u.written), u.request, size);
    if s.log == u.request.log then u.(request := s)
    else
      var copied := Copied(doc, u.written, s.log[|u.request.log|].asked);
      Upload(s, u.written + |copied|, u.body + copied[..taken.value])
  }

  /** curl_write_func leaves the upload alone. */
  function WriteStep(env: Environment, doc: string, u: Upload, data: string, http: Option<int>): (v: Upload)
    requires InRange(doc, u)
    ensures InRange(doc, v)
  {
    u.(request := WriteFunc(Sending(env, doc, u.written), u.request, data, http).0)
  }

  function UploadStep(env: Environment, doc: string, u: Upload, step: Step): (v: Upload)
    requires InRange(doc, u)
    ensures InRange(doc, v)
  {
    match step
    case Read(size) => ReadStep(env, doc, u, size)
    case Write(data, http) => WriteStep(env, doc, u, data, http)
  }

  function UploadSteps(env: Environment, doc: string, u: Upload, steps: seq<Step>): (v: Upload)
    requires InRange(doc, u)
    ensures InRange(doc, v)
    decreases |steps|
  {
    if steps == [] then u else UploadSteps(env, doc, UploadStep(env, doc, u, steps[0]), steps[1..])
  }

  // ---------------------------------------------------------------- the body is the document

  /** The callback's counter and the request's count move in lock-step, and curl has received what the
      callback has written. */
  ghost predicate LockStep(doc: string, u: Upload) {
    && InRange(doc, u)
    && u.written + u.request.toS3BytesRemaining == |doc|
    && u.body == doc[..u.written]
  }

  lemma SliceExtends<T>(s: seq<T>, i: nat, j: nat)
    requires i <= j <= |s|
    ensures s[..i] + s[i..j] == s[..j]
  {}

  /** In lock-step a read gets exactly what it asks for: the callback never runs short, and the request
      never has to cut off what it was given. */
  lemma ReadTakesAll(env: Environment, doc: string, u: Upload, size: nat)
    requires LockStep(doc, u) && u.request.status == OK && u.request.toS3BytesRemaining > 0
    ensures var n := if size > u.request.toS3BytesRemaining then u.request.toS3BytesRemaining else size;
      && Supply(doc, u.written, n) == n <= u.request.toS3BytesRemaining
      && ReadFunc(Sending(env, doc, u.written), u.request, size).1 == Some(n)
      && ReadStep(env, doc, u, size)
         == Upload(u.request.(toS3BytesRemaining := u.request.toS3BytesRemaining - n,
                              log := u.request.log + [ToS3(n, n)]),
                   u.written + n, doc[..u.written + n])
  {
    var n := if size > u.request.toS3BytesRemaining then u.request.toS3BytesRemaining else size;
    var s := ReadFunc(Sending(env, doc, u.written), u.request, size).0;
    assert s.log == u.request.log + [ToS3(n, n)];
    SliceExtends(doc, u.written, u.written + n);
    assert Copied(doc, u.written, n)[..n] == Copied(doc, u.written, n);
  }

  lemma ReadNothing(env: Environment, doc: string, u: Upload, size: nat)
    requires InRange(doc, u) && (u.request.status != OK || u.request.toS3BytesRemaining == 0)
    ensures ReadStep(env, doc, u, size) == u
  {}

  lemma WriteKeepsCount(env: Environment, r: State, data: string, http: Option<int>)
    ensures WriteFunc(env, r, data, http).0.toS3BytesRemaining == r.toS3BytesRemaining
  {}

  lemma StepLockStep(env: Environment, doc: string, u: Upload, step: Step)
    requires LockStep(doc, u)
    ensures LockStep(doc, UploadStep(env, doc, u, step))
  {
    hide ReadStep, ReadFunc, WriteFunc;
    match step
    case Read(size) =>
      if u.request.status == OK && u.request.toS3BytesRemaining > 0 {
        ReadTakesAll(env, doc, u, size);
      } else {
        ReadNothing(env, doc, u, size);
      }
    case Write(data, http) =>
      WriteKeepsCount(Sending(env, doc, u.written), u.request, data, http);
  }

  lemma {:induction false} StepsLockStep(env: Environment, doc: string, u: Upload, steps: seq<Step>)
    requires LockStep(doc, u)
    ensures LockStep(doc, UploadSteps(env, doc, u, steps))
    decreases |steps|
  {
    hide LockStep, UploadStep;
    LockStepRange(doc, u);
    if steps != [] {
      StepLockStep(env, doc, u, steps[0]);
      StepsLockStep(env, doc, UploadStep(env, doc, u, steps[0]), steps[1..]);
    }
  }

  lemma LockStepRange(doc: string, u: Upload)
    requires LockStep(doc, u)
    ensures InRange(doc, u)
  {}

  lemma FreshLockStep(doc: string)
    ensures InRange(doc, Fresh(doc)) && LockStep(doc, Fresh(doc))
  {}

  /** At every moment of every run what the callback has written and what the request still wants make
      up the document, curl has received exactly what was written, and it has the whole document once
      nothing remains. */
  lemma BodyIsDocument(env: Environment, doc: string, steps: seq<Step>)
    ensures InRange(doc, Fresh(doc)) &&
      var u := UploadSteps(env, doc, Fresh(doc), steps);
      && u.written + u.request.toS3BytesRemaining == |doc|
      && u.body == doc[..u.written]
      && (u.body == doc <==> u.request.toS3BytesRemaining == 0)
  {
    FreshLockStep(doc);
    StepsLockStep(env, doc, Fresh(doc), steps);
  }

  /** While something remains, a call with room makes progress. */
  lemma UploadProgresses(env: Environment, doc: string, u: Upload, size: nat)
    requires LockStep(doc, u) && u.request.status == OK && u.request.toS3BytesRemaining > 0 && size > 0
    ensures ReadStep(env, doc, u, size).request.toS3BytesRemaining < u.request.toS3BytesRemaining
  {
    ReadTakesAll(env, doc, u, size);
  }

  /** The two counts are tied by nothing but the total that the request is told: told one byte more than
      the document has, it still waits for that byte when the callback has nothing left. */
  lemma LongerTotal(env: Environment)
    ensures var u := Upload(Initial(3), 0, "");
      InRange("ab", u) &&
      var v := UploadSteps(env, "ab", u, [Read(2), Read(2)]);
      v.body == "ab" && v.request.toS3BytesRemaining == 1
  {
    var u := Upload(Initial(3), 0, "");
    var v := ReadStep(env, "ab", u, 2);
    assert Copied("ab", 0, 2) == "ab";
    assert v == Upload(State(OK, false, 0, 1, "", [ToS3(2, 2)]), 2, "ab");
    var w := ReadStep(env, "ab", v, 2);
    assert w.request.log == [ToS3(2, 2), ToS3(1, 0)];
    assert w.request.toS3BytesRemaining == 1 && w.body == "ab";
    assert [Read(2), Read(2)][1..] == [Read(2)];
    assert [Read(2)][1..] == [];
    assert UploadSteps(env, "ab", w, []) == w;
    assert UploadSteps(env, "ab", v, [Read(2)]) == UploadSteps(env, "ab", w, []);
  }
}
