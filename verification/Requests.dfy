/** The life of a request (src/request.c): curl calls back to read, to write and at the end, and these
    calls drive a status, a "headers done" flag and the user's callbacks. curl stands outside: it may
    call in any order and with any sizes. */
module Requests {
  import opened Strings
  import opened Status

  // ---------------------------------------------------------------- what happens outside

  /** A call that the library makes, with the answer it got: the user's callbacks, and the feeding of
      an error document to the error parser. */
  datatype Event =
    | Properties(answer: S3Status)
    | ToS3(asked: int, taken: int)   // the bytes taken from the user's callback, negative for an abort
    | FromS3(data: string, answer: S3Status)
    | ErrorBody(data: string, answer: S3Status)
    | Complete(status: S3Status)

  /** The user and the error parser: each answer is a function of everything that has happened so far.
      A callback that was not given is None. The error parser also tells what text it has collected for
      the Code element of the error document. */
  datatype Environment = Environment(
    properties: Option<seq<Event> -> S3Status>,
    toS3: Option<(seq<Event>, int) -> int>,
    fromS3: Option<(seq<Event>, string) -> S3Status>,
    parse: (seq<Event>, string) -> (S3Status, string))

  /** The observable part of a Request. */
  datatype State = State(
    status: S3Status,
    headersDone: bool,       // propertiesCallbackMade
    httpResponseCode: int,
    toS3BytesRemaining: int,
    errorCode: string,       // errorParser.code
    log: seq<Event>)

  function Initial(toS3TotalSize: int): State { State(OK, false, 0, toS3TotalSize, "", []) }

  predicate Success(code: int) { 200 <= code <= 299 }

  // ---------------------------------------------------------------- the callbacks of curl

  /** request_headers_done; http is what curl_easy_getinfo gives, None when it fails. */
  function HeadersDone(env: Environment, r: State, http: Option<int>): State {
    if r.headersDone then r
    else
      var s := r.(headersDone := true, httpResponseCode := http.GetOr(0));
      if http.None? then s.(status := InternalError)
      else if env.properties.Some? && Success(http.value) then
        var a := env.properties.value(s.log);
        s.(status := a, log := s.log + [Properties(a)])
      else s
  }

  /** curl_read_func: the number of bytes handed to curl, None for CURL_READFUNC_ABORT. */
  function ReadFunc(env: Environment, r: State, size: nat): (State, Option<int>) {
    if r.status != OK then (r, None)
    else if env.toS3.None? || r.toS3BytesRemaining == 0 then (r, Some(0))
    else
      var len := if size > r.toS3BytesRemaining then r.toS3BytesRemaining else size;
      var a := env.toS3.value(r.log, len);
      if a < 0 then (r.(status := AbortedByCallback, log := r.log + [ToS3(len, a)]), None)
      else
        var ret := if a > r.toS3BytesRemaining then r.toS3BytesRemaining else a;
        (r.(toS3BytesRemaining := r.toS3BytesRemaining - ret, log := r.log + [ToS3(len, ret)]), Some(ret))
  }

  /** curl_write_func */
  function WriteFunc(env: Environment, r: State, data: string, http: Option<int>): (State, nat) {
    var s := HeadersDone(env, r, http);
    if s.status != OK then (s, 0)
    else
      var t :=
        if !Success(s.httpResponseCode) then
          var a := env.parse(s.log, data);
          s.(status := a.0, errorCode := a.1, log := s.log + [ErrorBody(data, a.0)])
        else if env.fromS3.Some? then
          var a := env.fromS3.value(s.log, data);
          s.(status := a, log := s.log + [FromS3(data, a)])
        else s.(status := InternalError);
      (t, if t.status == OK then |data| else 0)
  }

  /** What has become of the transfer when request_finish is called: curl is done with a result that
      translates to a status, or the request context is destroyed. */
  datatype Ending = CurlDone(result: S3Status) | ContextDestroyed

  function End(r: State, e: Ending): State {
    match e
    case CurlDone(result) => if r.status == OK then r.(status := result) else r
    case ContextDestroyed => r.(status := Interrupted)
  }

  // ---------------------------------------------------------------- the final status

  /** The codes that error_parser_convert_status knows. */
  const KNOWN_CODES := [
    "AccessDenied", "AccountProblem", "AmbiguousGrantByEmailAddress", "BadDigest", "BucketAlreadyExists",
    "BucketAlreadyOwnedByYou", "BucketNotEmpty", "CredentialsNotSupported", "CrossLocationLoggingProhibited",
    "EntityTooSmall", "EntityTooLarge", "ExpiredToken", "IllegalVersioningConfigurationException", "IncompleteBody",
    "IncorrectNumberOfFilesInPostRequest", "InlineDataTooLarge", "InternalError", "InvalidAccessKeyId",
    "InvalidAddressingHeader", "InvalidArgument", "InvalidBucketName", "InvalidBucketState", "InvalidDigest",
    "InvalidEncryptionAlgorithmError", "InvalidLocationConstraint", "InvalidObjectState", "InvalidPart",
    "InvalidPartOrder", "InvalidPayer", "InvalidPolicyDocument", "InvalidRange", "InvalidRequest", "InvalidSecurity",
    "InvalidSOAPRequest", "InvalidStorageClass", "InvalidTargetBucketForLogging", "InvalidToken", "InvalidURI",
    "KeyTooLong", "MalformedACLError", "MalformedPOSTRequest", "MalformedXML", "MaxMessageLengthExceeded",
    "MaxPostPreDataLengthExceededError", "MetadataTooLarge", "MethodNotAllowed", "MissingAttachment",
    "MissingContentLength", "MissingRequestBodyError", "MissingSecurityElement", "MissingSecurityHeader",
    "NoLoggingStatusForKey", "NoSuchBucket", "NoSuchKey", "NoSuchLifecycleConfiguration", "NoSuchUpload",
    "NoSuchVersion", "NotImplemented", "NotSignedUp", "NoSuchBucketPolicy", "OperationAborted", "PermanentRedirect",
    "PreconditionFailed", "Redirect", "RestoreAlreadyInProgress", "RequestIsNotMultiPartContent", "RequestTimeout",
    "RequestTimeTooSkewed", "RequestTorrentOfBucketError", "SignatureDoesNotMatch", "ServiceUnavailable", "SlowDown",
    "TemporaryRedirect", "TokenRefreshRequired", "TooManyBuckets", "UnexpectedContent",
    "UnresolvableGrantByEmailAddress", "UserKeyMustBeSpecified", "QuotaExceeded"]

  /** error_parser_convert_status */
  function ConvertStatus(code: string, status: S3Status): (r: S3Status)
    ensures r == OK <==> code == "" && status == OK
    ensures code == "" ==> r == status
  {
    if code == "" then status
    else if code in KNOWN_CODES then ErrorFromService(code)
    else ErrorUnknown
  }

  /** The status for a response code outside 200 to 299 when nothing else is known. */
  function HttpStatus(code: int): (r: S3Status)
    ensures r == OK <==> code == 100
  {
    match code
    case 0 => ConnectionFailed
    case 100 => OK
    case 301 => ErrorFromService("PermanentRedirect")
    case 307 => HttpErrorMovedTemporarily
    case 400 => HttpErrorBadRequest
    case 403 => HttpErrorForbidden
    case 404 => HttpErrorNotFound
    case 405 => ErrorFromService("MethodNotAllowed")
    case 409 => HttpErrorConflict
    case 411 => ErrorFromService("MissingContentLength")
    case 412 => ErrorFromService("PreconditionFailed")
    case 416 => ErrorFromService("InvalidRange")
    case 500 => ErrorFromService("InternalError")
    case 501 => ErrorFromService("NotImplemented")
    case 503 => ErrorFromService("SlowDown")
    case _ => HttpErrorUnknown
  }

  function FinalStatus(r: State): S3Status {
    if r.status != OK then r.status
    else
      var s := ConvertStatus(r.errorCode, OK);
      if s != OK || Success(r.httpResponseCode) then s else HttpStatus(r.httpResponseCode)
  }

  /** request_finish */
  function Finish(env: Environment, r: State, http: Option<int>): State {
    var s := HeadersDone(env, r, http);
    var status := FinalStatus(s);
    s.(status := status, log := s.log + [Complete(status)])
  }

  // ---------------------------------------------------------------- whole runs

  datatype Step = Read(size: nat) | Write(data: string, http: Option<int>)

  function DoStep(env: Environment, r: State, step: Step): State {
    match step
    case Read(size) => ReadFunc(env, r, size).0
    case Write(data, http) => WriteFunc(env, r, data, http).0
  }

  function Steps(env: Environment, r: State, steps: seq<Step>): State
    decreases |steps|
  {
    if steps == [] then r else Steps(env, DoStep(env, r, steps[0]), steps[1..])
  }

  /** A request from its start to its release. */
  function Perform(env: Environment, total: int, steps: seq<Step>, ending: Ending, http: Option<int>): State {
    Finish(env, End(Steps(env, Initial(total), steps), ending), http)
  }

  // ---------------------------------------------------------------- what every step keeps

  /** The bytes of the request body that curl has been given. */
  function Supplied(log: seq<Event>): int {
    if log == [] then 0
    else
      (match log[|log| - 1]
       case ToS3(_, taken) => if taken < 0 then 0 else taken
       case _ => 0) + Supplied(log[..|log| - 1])
  }

  /** The calls that are made only once the headers are there. */
  predicate NeedsHeaders(e: Event) { e.Properties? || e.FromS3? || e.ErrorBody? }

  ghost predicate PropertiesMade(log: seq<Event>) { exists i :: 0 <= i < |log| && log[i].Properties? }

  ghost predicate Quiet(log: seq<Event>) { forall i :: 0 <= i < |log| ==> !NeedsHeaders(log[i]) }

  /** The order of the calls: the properties callback at most once and in front of everything else that
      is about the reply, data only for a successful reply, an error document only for another one. */
  ghost predicate Orderly(env: Environment, log: seq<Event>, code: int) {
    && (forall i :: 0 <= i < |log| ==> !log[i].Complete?)
    && (forall i, j :: 0 <= i < |log| && 0 <= j < |log| && log[i].Properties? && NeedsHeaders(log[j]) ==> i <= j)
    && (forall i :: 0 <= i < |log| ==> log[i].Properties? ==> env.properties.Some?)
    && (forall i :: 0 <= i < |log| ==> log[i].Properties? || log[i].FromS3? ==> Success(code))
    && (forall i :: 0 <= i < |log| ==> log[i].ErrorBody? ==> !Success(code))
    && (forall i :: 0 <= i < |log| ==> log[i].FromS3? && env.properties.Some? ==> PropertiesMade(log))
  }

  /** Every answer about the reply was OK. */
  ghost predicate Satisfied(log: seq<Event>) {
    forall i :: 0 <= i < |log| ==> NeedsHeaders(log[i]) ==> log[i].answer == OK
  }

  /** The invariant of a request that is not finished. */
  ghost predicate Inv(env: Environment, r: State) {
    && Orderly(env, r.log, r.httpResponseCode)
    && (!r.headersDone ==> Quiet(r.log))
    && (r.headersDone && Success(r.httpResponseCode) && env.properties.Some? ==> PropertiesMade(r.log))
    && (r.status == OK ==> Satisfied(r.log))
  }

  /** One more call. */
  lemma OrderlySnoc(env: Environment, log: seq<Event>, code: int, e: Event)
    requires Orderly(env, log, code) && !e.Complete?
    requires e.Properties? ==> Quiet(log) && env.properties.Some? && Success(code)
    requires e.FromS3? ==> Success(code) && (env.properties.Some? ==> PropertiesMade(log))
    requires e.ErrorBody? ==> !Success(code)
    ensures Orderly(env, log + [e], code)
  {
    LogSnoc(log, e);
  }

  lemma LogSnoc(log: seq<Event>, e: Event)
    ensures PropertiesMade(log + [e]) <==> PropertiesMade(log) || e.Properties?
    ensures Quiet(log + [e]) <==> Quiet(log) && !NeedsHeaders(e)
    ensures Satisfied(log + [e]) <==> Satisfied(log) && (NeedsHeaders(e) ==> e.answer == OK)
  {
    var more := log + [e];
    assert more[|log|] == e;
    assert forall i :: 0 <= i < |log| ==> more[i] == log[i];
    if PropertiesMade(log) {
      var i :| 0 <= i < |log| && log[i].Properties?;
      assert more[i] == log[i];
    }
  }

  /** While nothing about the reply has been called, the response code does not matter. */
  lemma QuietOrderly(env: Environment, log: seq<Event>, code: int, code': int)
    requires Orderly(env, log, code) && Quiet(log)
    ensures Orderly(env, log, code') && Satisfied(log) && !PropertiesMade(log)
  {}

  lemma HeadersDoneInv(env: Environment, r: State, http: Option<int>)
    requires Inv(env, r)
    ensures Inv(env, HeadersDone(env, r, http)) && HeadersDone(env, r, http).headersDone
  {
    hide Orderly, Quiet, Satisfied, PropertiesMade;
    if !r.headersDone {
      QuietOrderly(env, r.log, r.httpResponseCode, http.GetOr(0));
      if http.Some? && env.properties.Some? && Success(http.value) {
        var e := Properties(env.properties.value(r.log));
        OrderlySnoc(env, r.log, http.value, e);
        LogSnoc(r.log, e);
      }
    }
  }

  lemma ReadInv(env: Environment, r: State, size: nat)
    requires Inv(env, r)
    ensures Inv(env, ReadFunc(env, r, size).0)
  {
    hide Orderly, Quiet, Satisfied, PropertiesMade;
    var s := ReadFunc(env, r, size).0;
    if s.log != r.log {
      var e := s.log[|r.log|];
      assert s.log == r.log + [e] && e.ToS3?;
      OrderlySnoc(env, r.log, r.httpResponseCode, e);
      LogSnoc(r.log, e);
    }
  }

  lemma WriteInv(env: Environment, r: State, data: string, http: Option<int>)
    requires Inv(env, r)
    ensures Inv(env, WriteFunc(env, r, data, http).0)
  {
    HeadersDoneInv(env, r, http);
    hide Orderly, Quiet, Satisfied, PropertiesMade, HeadersDone;
    var s, t := HeadersDone(env, r, http), WriteFunc(env, r, data, http).0;
    if t.log != s.log {
      var e := t.log[|s.log|];
      assert t.log == s.log + [e] && (e.FromS3? || e.ErrorBody?) && e.answer == t.status;
      OrderlySnoc(env, s.log, s.httpResponseCode, e);
      LogSnoc(s.log, e);
    }
  }

  lemma {:induction false} StepsInv(env: Environment, r: State, steps: seq<Step>)
    requires Inv(env, r)
    ensures Inv(env, Steps(env, r, steps))
    decreases |steps|
  {
    hide Inv, ReadFunc, WriteFunc;
    if steps != [] {
      match steps[0] {
        case Read(size) => ReadInv(env, r, size);
        case Write(data, http) => WriteInv(env, r, data, http);
      }
      StepsInv(env, DoStep(env, r, steps[0]), steps[1..]);
    }
  }

  /** The state in which the final status is decided. */
  function AtFinish(env: Environment, total: int, steps: seq<Step>, ending: Ending, http: Option<int>): State {
    HeadersDone(env, End(Steps(env, Initial(total), steps), ending), http)
  }

  lemma FinishInv(env: Environment, total: int, steps: seq<Step>, ending: Ending, http: Option<int>)
    ensures Inv(env, AtFinish(env, total, steps, ending, http)) && AtFinish(env, total, steps, ending, http).headersDone
  {
    hide Steps, HeadersDone;
    StepsInv(env, Initial(total), steps);
    var r := Steps(env, Initial(total), steps);
    HeadersDoneInv(env, End(r, ending), http);
  }

  // ---------------------------------------------------------------- the protocol of a whole run

  /** In every run: the properties callback is made at most once, and before any data is handed over;
      data is handed over only for a successful reply; and the complete callback is made exactly once,
      as the last call, with the status that the run ends with. */
  lemma CallbackProtocol(env: Environment, total: int, steps: seq<Step>, ending: Ending, http: Option<int>)
    ensures var r := Perform(env, total, steps, ending, http);
      var n := |r.log| - 1;
      && n >= 0 && r.log[n] == Complete(r.status)
      && Orderly(env, r.log[..n], r.httpResponseCode)
      && r.headersDone
  {
    hide Orderly, HeadersDone, Steps, FinalStatus;
    FinishInv(env, total, steps, ending, http);
    var s := AtFinish(env, total, steps, ending, http);
    assert (s.log + [Complete(FinalStatus(s))])[..|s.log|] == s.log;
  }

  /** A run is reported as OK exactly when nothing has gone wrong by the time the headers are done, no
      error code was parsed, and the reply was successful, or had the code 100 that some versions of
      libcurl leave behind. Then every call about the reply was answered with OK. */
  lemma ReportedOK(env: Environment, total: int, steps: seq<Step>, ending: Ending, http: Option<int>)
    ensures var r, s := Perform(env, total, steps, ending, http), AtFinish(env, total, steps, ending, http);
      && (r.status == OK <==> && s.status == OK && s.errorCode == ""
                              && (Success(r.httpResponseCode) || r.httpResponseCode == 100))
      && (r.status == OK ==> r.errorCode == "" && Satisfied(r.log))
  {
    hide Orderly, HeadersDone, Steps, Satisfied, KNOWN_CODES;
    FinishInv(env, total, steps, ending, http);
    var s := AtFinish(env, total, steps, ending, http);
    LogSnoc(s.log, Complete(OK));
  }

  /** When nothing has gone wrong and no error code was parsed, the response code alone decides what is
      reported, and every status stands for its own response codes. */
  lemma ReportedForResponse(env: Environment, total: int, steps: seq<Step>, ending: Ending, http: Option<int>)
    requires AtFinish(env, total, steps, ending, http).status == OK
    requires AtFinish(env, total, steps, ending, http).errorCode == ""
    ensures var r := Perform(env, total, steps, ending, http);
      var status, code := r.status, r.httpResponseCode;
      && (status == OK <==> 200 <= code <= 299 || code == 100)
      && (status == ConnectionFailed <==> code == 0)
      && (status == ErrorFromService("PermanentRedirect") <==> code == 301)
      && (status == HttpErrorMovedTemporarily <==> code == 307)
      && (status == HttpErrorBadRequest <==> code == 400)
      && (status == HttpErrorForbidden <==> code == 403)
      && (status == HttpErrorNotFound <==> code == 404)
      && (status == ErrorFromService("MethodNotAllowed") <==> code == 405)
      && (status == HttpErrorConflict <==> code == 409)
      && (status == ErrorFromService("MissingContentLength") <==> code == 411)
      && (status == ErrorFromService("PreconditionFailed") <==> code == 412)
      && (status == ErrorFromService("InvalidRange") <==> code == 416)
      && (status == ErrorFromService("InternalError") <==> code == 500)
      && (status == ErrorFromService("NotImplemented") <==> code == 501)
      && (status == ErrorFromService("SlowDown") <==> code == 503)
      && (status == HttpErrorUnknown <==>
            !(200 <= code <= 299)
            && code !in {0, 100, 301, 307, 400, 403, 404, 405, 409, 411, 412, 416, 500, 501, 503})
  {
    hide HeadersDone, Steps, KNOWN_CODES;
    ServiceCodesDiffer();
  }

  lemma ServiceCodesDiffer()
    ensures "PermanentRedirect"[0] == 'P' && "MethodNotAllowed"[1] == 'e' && "MissingContentLength"[1] == 'i'
    ensures "PreconditionFailed"[1] == 'r' && "InvalidRange"[2] == 'v' && "InternalError"[2] == 't'
    ensures "NotImplemented"[0] == 'N' && "SlowDown"[0] == 'S'
  {}

  /** When an error code was parsed, it decides: a code that the library knows is reported as itself, and
      any other as unknown, whatever the response code. */
  lemma ReportedForErrorCode(env: Environment, total: int, steps: seq<Step>, ending: Ending, http: Option<int>)
    requires AtFinish(env, total, steps, ending, http).status == OK
    requires AtFinish(env, total, steps, ending, http).errorCode != ""
    ensures var r := Perform(env, total, steps, ending, http);
      && (r.status == ErrorFromService(r.errorCode) <==> r.errorCode in KNOWN_CODES)
      && (r.status == ErrorUnknown <==> r.errorCode !in KNOWN_CODES)
  {
    hide HeadersDone, Steps, KNOWN_CODES;
  }

  // ---------------------------------------------------------------- the data of the reply

  /** All data that was handed to the user or to the error parser. */
  function ReplyData(log: seq<Event>): string {
    if log == [] then ""
    else
      var e := log[|log| - 1];
      ReplyData(log[..|log| - 1]) + if e.FromS3? || e.ErrorBody? then e.data else ""
  }

  /** All data that curl hands over. */
  function DataOf(steps: seq<Step>): string
    decreases |steps|
  {
    if steps == [] then "" else (if steps[0].Write? then steps[0].data else "") + DataOf(steps[1..])
  }

  lemma ReplyDataSnoc(log: seq<Event>, e: Event)
    ensures ReplyData(log + [e]) == ReplyData(log) + if e.FromS3? || e.ErrorBody? then e.data else ""
  {
    assert (log + [e])[..|log|] == log;
  }

  lemma StepData(env: Environment, r: State, step: Step)
    ensures var s := DoStep(env, r, step);
      var d := if step.Write? then step.data else "";
      && (ReplyData(s.log) == ReplyData(r.log) + d || (ReplyData(s.log) == ReplyData(r.log) && step.Write?))
      && (step.Write? ==> s.headersDone && (s.status == OK ==> ReplyData(s.log) == ReplyData(r.log) + d))
  {
    hide ReplyData;
    Nothing(ReplyData(r.log));
    match step
    case Read(size) =>
      var s := ReadFunc(env, r, size).0;
      if s.log != r.log { ReplyDataSnoc(r.log, s.log[|r.log|]); }
    case Write(data, http) =>
      var s := HeadersDone(env, r, http);
      var t := WriteFunc(env, r, data, http).0;
      if s.log != r.log { ReplyDataSnoc(r.log, s.log[|r.log|]); }
      if t.log != s.log { ReplyDataSnoc(s.log, t.log[|s.log|]); }
  }

  /** What curl hands over is passed on in order, without gaps, and nothing else is; all of it, as long as
      the status is OK. */
  lemma {:induction false} DataIsPassedOn(env: Environment, r: State, steps: seq<Step>)
    ensures var s := Steps(env, r, steps);
      && ReplyData(r.log) <= ReplyData(s.log) <= ReplyData(r.log) + DataOf(steps)
      && (s.status == OK ==> ReplyData(s.log) == ReplyData(r.log) + DataOf(steps))
    decreases |steps|
  {
    hide ReplyData, DoStep;
    if steps == [] {
      Nothing(ReplyData(r.log));
    } else {
      var q := DoStep(env, r, steps[0]);
      var d, rest := if steps[0].Write? then steps[0].data else "", DataOf(steps[1..]);
      StepData(env, r, steps[0]);
      DataIsPassedOn(env, q, steps[1..]);
      Regroup(ReplyData(r.log), d, rest);
      if ReplyData(q.log) != ReplyData(r.log) + d {
        StatusSticks(env, q, steps[1..]);
        assert ReplyData(r.log) <= ReplyData(r.log) + (d + rest);
      }
    }
  }

  lemma {:induction false} NothingWithoutHeaders(env: Environment, r: State, steps: seq<Step>)
    ensures !Steps(env, r, steps).headersDone ==> DataOf(steps) == ""
    ensures r.headersDone ==> Steps(env, r, steps).headersDone
    decreases |steps|
  {
    hide DoStep;
    if steps != [] {
      StepHeaders(env, r, steps[0]);
      NothingWithoutHeaders(env, DoStep(env, r, steps[0]), steps[1..]);
    }
  }

  lemma StepHeaders(env: Environment, r: State, step: Step)
    ensures r.headersDone || step.Write? ==> DoStep(env, r, step).headersDone
  {}

  /** In a whole run: the user, or the error parser, gets a prefix of what curl hands over, and all of it when
      the run is reported OK. */
  lemma ReplyIsPassedOn(env: Environment, total: int, steps: seq<Step>, ending: Ending, http: Option<int>)
    ensures var r := Perform(env, total, steps, ending, http);
      && ReplyData(r.log) <= DataOf(steps)
      && (r.status == OK ==> ReplyData(r.log) == DataOf(steps))
  {
    hide ReplyData, Steps, DataOf, ConvertStatus, HttpStatus;
    var q := Steps(env, Initial(total), steps);
    var s := End(q, ending);
    DataIsPassedOn(env, Initial(total), steps);
    NothingWithoutHeaders(env, Initial(total), steps);
    NoReplyData();
    Nothing(DataOf(steps));
    var h := HeadersDone(env, s, http);
    if h.log != s.log { ReplyDataSnoc(s.log, h.log[|s.log|]); }
    ReplyDataSnoc(h.log, Complete(FinalStatus(h)));
    Nothing(ReplyData(s.log));
  }

  lemma NoReplyData()
    ensures ReplyData([]) == ""
  {}

  /** curl is told that all data was taken exactly while the status is OK; otherwise that none was, and
      then nothing more is passed on. */
  lemma RefusedDataEndsIt(env: Environment, r: State, data: string, http: Option<int>, steps: seq<Step>)
    requires data != ""
    ensures var w := WriteFunc(env, r, data, http);
      && (w.1 == |data| <==> w.0.status == OK)
      && (w.1 != |data| ==> w.1 == 0 && Steps(env, w.0, steps) == w.0)
  {
    var w := WriteFunc(env, r, data, http);
    if w.0.status != OK { StatusSticks(env, w.0, steps); }
  }

  /** A read hands data to curl or tells it that there is no more, and it aborts exactly when the status is
      not OK afterwards. There is no more without a callback, when nothing remains, and when the callback
      gives nothing. */
  lemma ReadResult(env: Environment, r: State, size: nat)
    requires r.toS3BytesRemaining >= 0
    ensures var (s, n) := ReadFunc(env, r, size);
      && (n == None <==> s.status != OK)
      && (n.Some? ==> 0 <= n.value && s.toS3BytesRemaining == r.toS3BytesRemaining - n.value)
      && (r.status == OK && (env.toS3 == None || r.toS3BytesRemaining == 0) ==> n == Some(0) && s == r)
      && (n.Some? && n.value > 0 ==> |s.log| == |r.log| + 1 && s.log[|r.log|].taken == n.value
                                     && s.log[|r.log|].asked <= size)
  {}

  /** When the response code cannot be got, the request is reported as an internal error, whatever has
      happened before, as long as its context is not destroyed. */
  lemma {:induction false} InfoFails(env: Environment, r: State, steps: seq<Step>, http: Option<int>)
    requires !r.headersDone && FirstInfo(steps, http) == None
    ensures var s := Steps(env, r, steps);
      if Writes(steps) then s.headersDone && s.status == InternalError else !s.headersDone
    decreases |steps|
  {
    hide Writes;
    if steps == [] {
      NoWrites(steps);
    } else {
      WritesStep(steps);
      if steps[0].Write? {
        StatusSticks(env, DoStep(env, r, steps[0]), steps[1..]);
      } else {
        InfoFails(env, DoStep(env, r, steps[0]), steps[1..], http);
      }
    }
  }

  lemma FailingInfoIsReported(env: Environment, total: int, steps: seq<Step>, result: S3Status, http: Option<int>)
    requires FirstInfo(steps, http) == None
    ensures Perform(env, total, steps, CurlDone(result), http).status == InternalError
  {
    hide Writes, Steps, FirstInfo, ConvertStatus, HttpStatus;
    InfoFails(env, Initial(total), steps, http);
    if !Writes(steps) { InfoWithoutWrites(steps, http); }
  }

  /** Data of a successful reply that nobody asked for is an internal error, and it stays one. */
  lemma UnexpectedData(env: Environment, r: State, data: string, http: Option<int>, steps: seq<Step>)
    requires env.fromS3 == None && HeadersDone(env, r, http).status == OK
    requires Success(HeadersDone(env, r, http).httpResponseCode)
    ensures var w := WriteFunc(env, r, data, http);
      w.0.status == InternalError && Steps(env, w.0, steps) == w.0
  {
    hide HeadersDone;
    HeadersAreDone(env, r, http);
    StatusSticks(env, WriteFunc(env, r, data, http).0, steps);
  }

  lemma HeadersAreDone(env: Environment, r: State, http: Option<int>)
    ensures HeadersDone(env, r, http).headersDone
  {}

  /** What curl fails with is reported when nothing else has gone wrong by then. */
  lemma CurlFailureIsReported(env: Environment, total: int, steps: seq<Step>, result: S3Status, http: Option<int>)
    requires Steps(env, Initial(total), steps).status == OK && Steps(env, Initial(total), steps).headersDone
    requires result != OK
    ensures Perform(env, total, steps, CurlDone(result), http).status == result
  {
    hide Steps;
  }

  /** Once the headers are done, a status other than OK stays, and no callback but the last is made. */
  lemma {:induction false} StatusSticks(env: Environment, r: State, steps: seq<Step>)
    requires r.headersDone && r.status != OK
    ensures Steps(env, r, steps) == r
    decreases |steps|
  {
    if steps != [] {
      assert DoStep(env, r, steps[0]) == r;
      StatusSticks(env, r, steps[1..]);
    }
  }

  /** It is then what the user is told, unless the request context is destroyed first. */
  lemma StickyStatusIsReported(env: Environment, r: State, steps: seq<Step>, ending: Ending, http: Option<int>)
    requires r.headersDone && r.status != OK
    ensures var f := Finish(env, End(Steps(env, r, steps), ending), http);
      && f.log == r.log + [Complete(f.status)]
      && f.status == if ending.ContextDestroyed? then Interrupted else r.status
  {
    StatusSticks(env, r, steps);
  }

  /** What the first curl_easy_getinfo gives: that of the first write, or else that of request_finish. */
  function FirstInfo(steps: seq<Step>, http: Option<int>): Option<int>
    decreases |steps|
  {
    if steps == [] then http else if steps[0].Write? then steps[0].http else FirstInfo(steps[1..], http)
  }

  ghost predicate Writes(steps: seq<Step>) { exists i :: 0 <= i < |steps| && steps[i].Write? }

  lemma WritesStep(steps: seq<Step>)
    requires steps != []
    ensures Writes(steps) <==> steps[0].Write? || Writes(steps[1..])
  {
    if Writes(steps) && !steps[0].Write? {
      var i :| 0 <= i < |steps| && steps[i].Write?;
      assert steps[1..][i - 1] == steps[i];
    }
    if Writes(steps[1..]) {
      var i :| 0 <= i < |steps[1..]| && steps[1..][i].Write?;
      assert steps[i + 1] == steps[1..][i];
    }
  }

  /** After an abort nothing happens until the headers are done, and nothing after that if the status is
      then not OK. */
  lemma {:induction false} AbortedSteps(env: Environment, r: State, steps: seq<Step>, http: Option<int>)
    requires r.status == AbortedByCallback && !r.headersDone
    requires HeadersDone(env, r, FirstInfo(steps, http)).status != OK
    ensures Steps(env, r, steps) == if Writes(steps) then HeadersDone(env, r, FirstInfo(steps, http)) else r
    decreases |steps|
  {
    hide Writes;
    if steps == [] {
      NoWrites(steps);
    } else {
      WritesStep(steps);
      if steps[0].Write? {
        StatusSticks(env, HeadersDone(env, r, steps[0].http), steps[1..]);
      } else {
        AbortedSteps(env, r, steps[1..], http);
      }
    }
  }

  lemma NoWrites(steps: seq<Step>)
    requires steps == []
    ensures !Writes(steps)
  {}

  lemma {:induction false} InfoWithoutWrites(steps: seq<Step>, http: Option<int>)
    requires !Writes(steps)
    ensures FirstInfo(steps, http) == http
    decreases |steps|
  {
    if steps != [] {
      WritesStep(steps);
      InfoWithoutWrites(steps[1..], http);
    }
  }

  /** What such a run is reported as. */
  lemma AbortedRun(env: Environment, r: State, steps: seq<Step>, ending: Ending, http: Option<int>)
    requires r.status == AbortedByCallback && !r.headersDone
    requires HeadersDone(env, r, FirstInfo(steps, http)).status != OK
    ensures var f := Finish(env, End(Steps(env, r, steps), ending), http);
      && (ending.CurlDone? ==> f.status == HeadersDone(env, r, FirstInfo(steps, http)).status)
      && (ending.ContextDestroyed? && env.properties.None? ==> f.status != AbortedByCallback)
      && (ending.ContextDestroyed? && env.properties.Some? && env.properties.value(r.log) == Interrupted ==>
            f.status != AbortedByCallback)
  {
    hide Writes, ConvertStatus, HttpStatus, FirstInfo;
    AbortedSteps(env, r, steps, http);
    if !Writes(steps) { InfoWithoutWrites(steps, http); }
  }

  /** The user is told of an abort from r on, whatever a properties callback, if there is one, answers. */
  ghost predicate SurelyAborted(env: Environment, r: State, steps: seq<Step>, ending: Ending, http: Option<int>) {
    forall p: Option<seq<Event> -> S3Status> :: (p.Some? <==> env.properties.Some?) ==>
      Finish(env.(properties := p), End(Steps(env.(properties := p), r, steps), ending), http).status
        == AbortedByCallback
  }

  /** A status that is set before the headers are done need not last. An upload that the user's callback
      has aborted by then is sure to be reported as aborted, whatever curl still does, exactly when curl
      comes to an end by itself, the response code can be got, and it either is not one of success or no
      properties callback was given: otherwise that callback's answer replaces the status. */
  lemma AbortIsReported(env: Environment, r: State, steps: seq<Step>, ending: Ending, http: Option<int>)
    requires r.status == AbortedByCallback && !r.headersDone
    ensures SurelyAborted(env, r, steps, ending, http) <==>
      var info := FirstInfo(steps, http);
      ending.CurlDone? && info.Some? && (Success(info.value) ==> env.properties.None?)
  {
    hide Finish, Steps, End, FirstInfo;
    var info := FirstInfo(steps, http);
    if ending.CurlDone? && info.Some? && (Success(info.value) ==> env.properties.None?) {
      forall p: Option<seq<Event> -> S3Status> | p.Some? <==> env.properties.Some?
        ensures Finish(env.(properties := p), End(Steps(env.(properties := p), r, steps), ending), http).status
          == AbortedByCallback
      {
        AbortedRun(env.(properties := p), r, steps, ending, http);
      }
    } else {
      var interrupt: seq<Event> -> S3Status := (log: seq<Event>) => Interrupted;
      var p := if env.properties.Some? then Some(interrupt) else None;
      AbortedRun(env.(properties := p), r, steps, ending, http);
      assert Finish(env.(properties := p), End(Steps(env.(properties := p), r, steps), ending), http).status
        != AbortedByCallback;
    }
  }

  /** So it is with an upload callback that gives up before the headers are done. */
  lemma AbortingUpload(env: Environment, r: State, size: nat, later: seq<Step>, ending: Ending, http: Option<int>)
    requires r.status == OK && !r.headersDone && r.toS3BytesRemaining > 0 && env.toS3.Some?
    requires forall len: int {:trigger env.toS3.value(r.log, len)} :: env.toS3.value(r.log, len) < 0
    ensures ReadFunc(env, r, size).1 == None
    ensures SurelyAborted(env, DoStep(env, r, Read(size)), later, ending, http) <==>
      var info := FirstInfo(later, http);
      ending.CurlDone? && info.Some? && (Success(info.value) ==> env.properties.None?)
  {
    hide SurelyAborted, FirstInfo;
    AbortIsReported(env, DoStep(env, r, Read(size)), later, ending, http);
  }

  /** Such a run: the upload callback gives up, the server answers 200, and the run is reported OK. */
  lemma LostAbort(env: Environment)
    requires env.properties.Some? && env.properties.value([ToS3(4, -1)]) == OK
    requires env.toS3.Some? && env.toS3.value([], 4) == -1
    ensures var r := Perform(env, 10, [Read(4)], CurlDone(ErrorUnknown), Some(200));
      r.status == OK && r.log == [ToS3(4, -1), Properties(OK), Complete(OK)]
  {
    var r1 := ReadFunc(env, Initial(10), 4).0;
    assert r1.log == [ToS3(4, -1)];
    assert Steps(env, Initial(10), [Read(4)]) == Steps(env, r1, []) == r1 by {
      assert [Read(4)][1..] == [];
    }
    assert r1.log + [Properties(OK)] + [Complete(OK)] == [ToS3(4, -1), Properties(OK), Complete(OK)];
  }

  // ---------------------------------------------------------------- the body of an upload

  lemma SuppliedSnoc(log: seq<Event>, e: Event)
    ensures Supplied(log + [e]) == Supplied(log) + if e.ToS3? && e.taken > 0 then e.taken else 0
  {
    assert (log + [e])[..|log|] == log;
  }

  lemma StepConserves(env: Environment, r: State, step: Step)
    requires r.toS3BytesRemaining >= 0
    ensures var s := DoStep(env, r, step);
      && 0 <= s.toS3BytesRemaining <= r.toS3BytesRemaining
      && Supplied(s.log) + s.toS3BytesRemaining == Supplied(r.log) + r.toS3BytesRemaining
  {
    hide Supplied;
    match step
    case Read(size) =>
      var s := ReadFunc(env, r, size).0;
      if s.log != r.log { SuppliedSnoc(r.log, s.log[|r.log|]); }
    case Write(data, http) =>
      var s := HeadersDone(env, r, http);
      var t := WriteFunc(env, r, data, http).0;
      if s.log != r.log { SuppliedSnoc(r.log, s.log[|r.log|]); }
      if t.log != s.log { SuppliedSnoc(s.log, t.log[|s.log|]); }
  }

  /** Whatever buffers curl offers: the bytes handed to it and the bytes that remain always make up the
      declared size of the body. */
  lemma {:induction false} UploadConserved(env: Environment, r: State, steps: seq<Step>)
    requires r.toS3BytesRemaining >= 0
    ensures var s := Steps(env, r, steps);
      && 0 <= s.toS3BytesRemaining <= r.toS3BytesRemaining
      && Supplied(s.log) + s.toS3BytesRemaining == Supplied(r.log) + r.toS3BytesRemaining
    decreases |steps|
  {
    hide DoStep, Supplied;
    if steps != [] {
      StepConserves(env, r, steps[0]);
      UploadConserved(env, DoStep(env, r, steps[0]), steps[1..]);
    }
  }

  // ---------------------------------------------------------------- the callbacks on the structure

  class Request {
    const env: Environment
    var status: S3Status
    var propertiesCallbackMade: bool
    var httpResponseCode: int
    var toS3CallbackBytesRemaining: int
    var errorCode: string
    var log: seq<Event>

    function Model(): State
      reads this
    {
      State(status, propertiesCallbackMade, httpResponseCode, toS3CallbackBytesRemaining, errorCode, log)
    }

    /** The initialisation in request_get. */
    constructor (env: Environment, toS3CallbackTotalSize: int)
      ensures Model() == Initial(toS3CallbackTotalSize) && this.env == env
    {
      this.env := env;
      status, propertiesCallbackMade, httpResponseCode := OK, false, 0;
      toS3CallbackBytesRemaining, errorCode, log := toS3CallbackTotalSize, "", [];
    }

    method RequestHeadersDone(getinfo: Option<int>)
      modifies this
      ensures Model() == HeadersDone(env, old(Model()), getinfo)
    {
      if propertiesCallbackMade {
        return;
      }
      propertiesCallbackMade := true;
      httpResponseCode := 0;
      if getinfo.None? {
        status := InternalError;
        return;
      } else {
        httpResponseCode := getinfo.value;
      }
      if env.properties.Some? && httpResponseCode >= 200 && httpResponseCode <= 299 {
        status := env.properties.value(log);
        log := log + [Properties(status)];
      }
    }

    method CurlReadFunc(size: nat) returns (result: Option<int>)
      modifies this
      ensures (Model(), result) == ReadFunc(env, old(Model()), size)
    {
      if status != OK {
        return None;
      }
      if env.toS3.None? || toS3CallbackBytesRemaining == 0 {
        return Some(0);
      }
      var len: int := size;
      if len > toS3CallbackBytesRemaining {
        len := toS3CallbackBytesRemaining;
      }
      var ret := env.toS3.value(log, len);
      if ret < 0 {
        status, log := AbortedByCallback, log + [ToS3(len, ret)];
        return None;
      } else {
        if ret > toS3CallbackBytesRemaining {
          ret := toS3CallbackBytesRemaining;
        }
        toS3CallbackBytesRemaining, log := toS3CallbackBytesRemaining - ret, log + [ToS3(len, ret)];
        return Some(ret);
      }
    }

    method CurlWriteFunc(data: string, getinfo: Option<int>) returns (result: nat)
      modifies this
      ensures (Model(), result) == WriteFunc(env, old(Model()), data, getinfo)
    {
      RequestHeadersDone(getinfo);
      if status != OK {
        return 0;
      }
      if httpResponseCode < 200 || httpResponseCode > 299 {
        var a := env.parse(log, data);
        status, errorCode, log := a.0, a.1, log + [ErrorBody(data, a.0)];
      } else if env.fromS3.Some? {
        status := env.fromS3.value(log, data);
        log := log + [FromS3(data, status)];
      } else {
        status := InternalError;
      }
      result := if status == OK then |data| else 0;
    }

    method RequestFinish(getinfo: Option<int>)
      modifies this
      ensures Model() == Finish(env, old(Model()), getinfo)
    {
      hide KNOWN_CODES, HttpStatus, ConvertStatus;
      RequestHeadersDone(getinfo);
      if status == OK {
        status := ConvertStatus(errorCode, status);
        if status == OK && (httpResponseCode < 200 || httpResponseCode > 299) {
          status := HttpStatus(httpResponseCode);
        }
      }
      log := log + [Complete(status)];
    }
  }
}
