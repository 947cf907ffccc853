/** The query strings that S3_list_bucket, S3_list_parts and S3_list_multipart_uploads compose with
    safe_append (src/bucket.c, src/multipart.c). */
module QueryComposer {
  import opened Strings
  import opened Status
  import opened StringBuffers
  import opened UrlEncoding

  datatype Param = Param(name: string, value: string)

  const QUERY_SIZE: nat := 4096
  const MAX_VALUE: nat := 1024

  ghost predicate ValidParam(p: Param) {
    && '&' !in p.name && '=' !in p.name && NUL !in p.name
    && p.value != [] && Bytes(p.value) && NUL !in p.value
  }

  ghost predicate ValidParams(ps: seq<Param>) { forall i :: 0 <= i < |ps| ==> ValidParam(ps[i]) }

  function Piece(p: Param): string
    requires Bytes(p.value)
  {
    p.name + "=" + Encode(p.value, true)
  }

  function Pieces(ps: seq<Param>): (r: seq<string>)
    requires ValidParams(ps)
    ensures |r| == |ps|
    ensures forall i :: 0 <= i < |ps| ==> r[i] == Piece(ps[i])
  {
    if ps == [] then [] else Pieces(ps[..|ps| - 1]) + [Piece(ps[|ps| - 1])]
  }

  /** name=value pairs, percent-encoded and joined with '&'. */
  function QueryText(ps: seq<Param>): string
    requires ValidParams(ps)
  {
    Join(Pieces(ps), '&')
  }

  lemma QuerySnoc(ps: seq<Param>, p: Param)
    requires ValidParams(ps) && ValidParam(p)
    ensures ValidParams(ps + [p])
    ensures QueryText(ps + [p])
      == QueryText(ps) + (if ps == [] then "" else "&") + (p.name + "=") + Encode(p.value, true)
  {
    hide Encode, Bytes, Join;
    assert (ps + [p])[..|ps|] == ps;
    if ps == [] {
      JoinOne(Piece(p), '&');
      JoinNone('&');
      assert Pieces(ps + [p]) == [Piece(p)];
    } else {
      JoinSnoc(Pieces(ps), Piece(p), '&');
      assert QueryText(ps) + ['&'] + Piece(p) == QueryText(ps) + "&" + (p.name + "=") + Encode(p.value, true);
    }
  }

  lemma JoinOne(s: string, d: char) ensures Join([s], d) == s {}

  lemma JoinNone(d: char) ensures Join([], d) == "" {}

  // ---------------------------------------------------------------- the composer

  /** char encoded[3 * 1024] of safe_append: enough for every character of a value, and no more. */
  const ENCODED_SIZE: nat := 3 * MAX_VALUE

  /** The encoding of a value goes into that array, terminator included. */
  predicate EncodesInside(v: string)
    requires Bytes(v)
  {
    |Encode(v, true)| < ENCODED_SIZE
  }

  /** safe_append: appends one parameter, or reports that it does not fit. amp says whether a
      parameter is there already. inside is false when urlEncode writes the terminator behind the
      array; the encoding is then taken to end with the array. */
  method SafeAppend(queryParams: StringBuffer, amp: bool, p: Param, ghost done: seq<Param>)
    returns (ok: bool, inside: bool)
    requires ValidParams(done) && ValidParam(p) && amp == (done != []) && |QueryText(done)| <= QUERY_SIZE
    requires queryParams.Valid() && queryParams.Value() == Filled(QUERY_SIZE, QueryText(done))
    modifies queryParams, queryParams.sb
    ensures queryParams.Valid()
    ensures ok <==> |p.value| <= MAX_VALUE && |QueryText(done + [p])| <= QUERY_SIZE
    ensures ok ==> queryParams.Value() == Filled(QUERY_SIZE, QueryText(done + [p]))
    ensures ok ==> (inside <==> EncodesInside(p.value))
    ensures inside <==>
      (|QueryText(done)| + (if amp then 1 else 0) + |p.name| + 1 > QUERY_SIZE
       || (Bytes(Allowed(p.value, MAX_VALUE)) && EncodesInside(Allowed(p.value, MAX_VALUE))))
  {
    hide QueryText, Filled, Encode, Bytes, Decode, Holds, Unreserved, CString;
    ghost var t, e := QueryText(done), Encode(p.value, true);
    EncodeBound(p.value, MAX_VALUE);
    QuerySnoc(done, p);
    assert t + "" == t;
    inside := true;
    if amp {
      var fit := queryParams.Append("&");
      FilledFits(QUERY_SIZE, t, "&");
      if !fit { return false, true; }
      t := t + "&";
    }
    ok := AppendName(queryParams, p.name, t);
    if !ok { return; }
    t := t + (p.name + "=");
    var encoded := new char[ENCODED_SIZE];
    ok, inside := UrlEncode(encoded, p.value, MAX_VALUE, true);
    if !ok { return; }
    EncodeNulFree(p.value, true);
    assert !inside ==> encoded[..|e|] == encoded[..];
    EncodedText(encoded[..], e);
    ok := queryParams.Append(CString(encoded[..], 0));
    FilledFits(QUERY_SIZE, t, e);
  }

  /** What strlen and a copy find in the array. */
  lemma EncodedText(mem: seq<char>, e: string)
    requires Holds(mem, 0, e) || (mem == e && NUL !in e)
    ensures CString(mem, 0) == e
  {
    if Holds(mem, 0, e) {
      HoldsCString(mem, 0, e);
    } else {
      FullCString(mem, 0);
    }
  }

  lemma {:induction false} FullCString(mem: seq<char>, p: nat)
    requires NUL !in mem && p <= |mem|
    ensures CString(mem, p) == mem[p..]
    decreases |mem| - p
  {
    if p < |mem| { FullCString(mem, p + 1); }
  }

  /** Of the values that safe_append accepts, exactly those of 1024 characters that are all encoded
      make urlEncode write behind the array. */
  lemma FullValueOverflows(v: string)
    requires Bytes(v) && |v| <= MAX_VALUE
    ensures EncodesInside(v) <==> |v| < MAX_VALUE || exists i :: 0 <= i < |v| && Unreserved(v[i])
  {
    hide Encode, Unreserved;
    EncodeLength(v);
  }

  lemma {:induction false} EncodeLength(v: string)
    requires Bytes(v)
    ensures |Encode(v, true)| == 3 * |v| <==> forall i :: 0 <= i < |v| ==> !Unreserved(v[i])
  {
    hide Unreserved;
    if v != [] {
      var n := |v| - 1;
      EncodeLength(v[..n]);
      CharLength(v[n]);
    }
  }

  lemma CharLength(c: char)
    requires c as int < 256
    ensures |EncodeChar(c, true)| == if Unreserved(c) then 1 else 3
  {}

  /** The concrete value: 1024 blanks are accepted and do not go into the array. */
  lemma BlanksOverflow()
    ensures |Blanks(MAX_VALUE)| <= MAX_VALUE && !EncodesInside(Blanks(MAX_VALUE))
  {
    BlanksEncoded(MAX_VALUE);
  }

  function Blanks(n: nat): (s: string)
    ensures |s| == n && Plain(s)
  {
    if n == 0 then [] else Blanks(n - 1) + [' ']
  }

  /** A blank takes three characters in a query. */
  lemma {:induction false} BlanksEncoded(n: nat)
    ensures |Encode(Blanks(n), true)| == 3 * n
  {
    if n > 0 {
      assert Blanks(n)[..n - 1] == Blanks(n - 1);
      BlanksEncoded(n - 1);
    }
  }

  method AppendName(queryParams: StringBuffer, name: string, ghost t: string) returns (fit: bool)
    requires queryParams.Valid() && queryParams.Value() == Filled(QUERY_SIZE, t) && |t| <= QUERY_SIZE
    requires NUL !in name
    modifies queryParams, queryParams.sb
    ensures queryParams.Valid() && fit == (|t + (name + "=")| <= QUERY_SIZE)
    ensures queryParams.Value() == Filled(QUERY_SIZE, t + (name + "="))
  {
    hide Filled, Holds;
    assert NUL !in name + "=";
    fit := queryParams.Append(name + "=");
    FilledFits(QUERY_SIZE, t, name + "=");
  }

  lemma EncodeBound(s: string, max: nat)
    requires Bytes(s)
    ensures Bytes(Allowed(s, max)) && |Encode(Allowed(s, max), true)| <= 3 * max
    ensures |s| <= max ==> Allowed(s, max) == s
  {}

  lemma FilledFits(cap: nat, t: string, x: string)
    ensures Filled(cap, t).Append(x) == Filled(cap, t + x)
    ensures |t| <= cap ==> (Filled(cap, t).Fits(x) <==> |t + x| <= cap)
  {
    FilledAppend(cap, t, x);
  }

  // ---------------------------------------------------------------- the three request functions

  /** What snprintf prints for "%d". */
  function IntText(n: int): string { if n < 0 then "-" + NatText(-n) else NatText(n) }

  ghost predicate Plain(s: string) { Bytes(s) && NUL !in s }

  /** The text of a nonzero number, or nothing. */
  function NumberText(n: int): (r: string)
    ensures Plain(r) && (n == 0 <==> r == [])
    ensures n != 0 ==> r == IntText(n)
  {
    if n == 0 then [] else IntText(n)
  }

  // The parameters each function passes to safe_append, in order. One whose value is empty, or
  // whose number is zero, is left out.

  function ListBucketArguments(prefix: string, marker: string, delimiter: string, maxkeys: int): seq<Param> {
    [Param("prefix", prefix), Param("marker", marker), Param("delimiter", delimiter),
     Param("max-keys", NumberText(maxkeys))]
  }

  function ListPartsArguments(partNumberMarker: string, encodingType: string, maxParts: int): seq<Param> {
    [Param("part-number-marker", partNumberMarker), Param("encoding-type", encodingType),
     Param("max-parts", NumberText(maxParts))]
  }

  function ListUploadsArguments(prefix: string, keyMarker: string, delimiter: string, uploadIdMarker: string,
                                encodingType: string, maxUploads: int): seq<Param>
  {
    [Param("prefix", prefix), Param("key-marker", keyMarker), Param("delimiter", delimiter),
     Param("upload-id-marker", uploadIdMarker), Param("encoding-type", encodingType),
     Param("max-uploads", NumberText(maxUploads))]
  }

  function Given(arguments: seq<Param>): seq<Param> {
    if arguments == [] then []
    else
      var p := arguments[|arguments| - 1];
      Given(arguments[..|arguments| - 1]) + (if p.value == [] then [] else [p])
  }

  ghost predicate LiteralName(n: string) { '&' !in n && '=' !in n && NUL !in n }

  /** What safe_append's callers pass: literal names, and C strings as values. */
  ghost predicate Arguments(arguments: seq<Param>) {
    forall i :: 0 <= i < |arguments| ==> LiteralName(arguments[i].name) && Plain(arguments[i].value)
  }

  lemma {:induction false} GivenValid(arguments: seq<Param>)
    requires Arguments(arguments)
    ensures ValidParams(Given(arguments))
  {
    if arguments != [] {
      GivenValid(arguments[..|arguments| - 1]);
    }
  }

  lemma GivenStep(arguments: seq<Param>, i: nat)
    requires i < |arguments| && Arguments(arguments)
    ensures Given(arguments[..i + 1])
         == Given(arguments[..i]) + (if arguments[i].value == [] then [] else [arguments[i]])
    ensures arguments[i].value != [] ==> ValidParam(arguments[i])
    ensures ValidParams(Given(arguments[..i])) && ValidParams(Given(arguments[..i + 1]))
  {
    assert arguments[..i + 1][..i] == arguments[..i];
    GivenValid(arguments[..i]);
    GivenValid(arguments[..i + 1]);
  }

  /** The parameters fit: no value is too long, and the text goes into the buffer. */
  ghost predicate Composable(ps: seq<Param>)
    requires ValidParams(ps)
  {
    (forall i :: 0 <= i < |ps| ==> |ps[i].value| <= MAX_VALUE) && |QueryText(ps)| <= QUERY_SIZE
  }

  lemma ComposableSnoc(ps: seq<Param>, p: Param)
    requires ValidParams(ps) && ValidParam(p)
    ensures ValidParams(ps + [p])
    ensures Composable(ps + [p]) <==> Composable(ps) && |p.value| <= MAX_VALUE && |QueryText(ps + [p])| <= QUERY_SIZE
  {
    hide QueryText;
    QuerySnoc(ps, p);
    assert (ps + [p])[|ps|] == p;
    assert forall i :: 0 <= i < |ps| ==> (ps + [p])[i] == ps[i];
  }

  lemma NoParams(ps: seq<Param>)
    requires ps == []
    ensures ValidParams(ps) && Composable(ps) && Filled(QUERY_SIZE, QueryText(ps)) == Empty(QUERY_SIZE)
  {}

  /** Every encoded value goes into its array. */
  ghost predicate AllInside(ps: seq<Param>)
    requires ValidParams(ps)
  {
    forall i :: 0 <= i < |ps| ==> EncodesInside(ps[i].value)
  }

  lemma AllInsideSnoc(ps: seq<Param>, p: Param)
    requires ValidParams(ps) && ValidParam(p)
    ensures ValidParams(ps + [p]) && (AllInside(ps + [p]) <==> AllInside(ps) && EncodesInside(p.value))
  {
    hide EncodesInside;
    assert (ps + [p])[|ps|] == p;
    assert forall i :: 0 <= i < |ps| ==> (ps + [p])[i] == ps[i];
  }

  lemma NoneInside(ps: seq<Param>)
    requires ps == []
    ensures AllInside(ps)
  {}

  /** The query string a request function composes from its arguments, and whether every write on the
      way goes where it should. */
  method ComposeQuery(arguments: seq<Param>) returns (status: S3Status, query: string, inside: bool)
    requires Arguments(arguments)
    ensures ValidParams(Given(arguments))
    ensures status == if Composable(Given(arguments)) then OK else QueryParamsTooLong
    ensures status == OK ==> query == Clip(QUERY_SIZE, QueryText(Given(arguments)))
    ensures status == OK ==> (inside <==> AllInside(Given(arguments)))
  {
    hide QueryText, Composable, Filled, Given, Arguments, ValidParams, ValidParam, AllInside, EncodesInside;
    var queryParams := new StringBuffer(QUERY_SIZE);
    inside := true;
    NoneInside([]);
    var ok, amp, i := true, false, 0;
    GivenNone(arguments);
    NoParams([]);
    while i < |arguments|
      invariant i <= |arguments| && queryParams.Valid() && fresh(queryParams) && fresh(queryParams.sb)
      invariant ValidParams(Given(arguments[..i])) && amp == (Given(arguments[..i]) != [])
      invariant ok == Composable(Given(arguments[..i]))
      invariant ok ==> queryParams.Value() == Filled(QUERY_SIZE, QueryText(Given(arguments[..i])))
      invariant ok ==> inside == AllInside(Given(arguments[..i]))
    {
      ghost var done := Given(arguments[..i]);
      GivenStep(arguments, i);
      assert done + [] == done;
      if arguments[i].value != [] {
        ComposableSnoc(done, arguments[i]);
        AllInsideSnoc(done, arguments[i]);
        if ok {
          ComposableText(done);
          var written;
          ok, written := SafeAppend(queryParams, amp, arguments[i], done);
          inside := inside && written;
        }
        amp := true;
      }
      i := i + 1;
    }
    assert arguments[..i] == arguments;
    status, query := Result(queryParams, ok, Given(arguments));
  }

  lemma GivenNone(arguments: seq<Param>)
    ensures Given(arguments[..0]) == []
  {}

  lemma ComposableText(ps: seq<Param>)
    requires ValidParams(ps) && Composable(ps)
    ensures |QueryText(ps)| <= QUERY_SIZE
  {}

  method Result(queryParams: StringBuffer, ok: bool, ghost ps: seq<Param>) returns (status: S3Status, query: string)
    requires queryParams.Valid() && ValidParams(ps) && ok == Composable(ps)
    requires ok ==> queryParams.Value() == Filled(QUERY_SIZE, QueryText(ps))
    ensures status == if Composable(ps) then OK else QueryParamsTooLong
    ensures status == OK ==> query == Clip(QUERY_SIZE, QueryText(ps))
  {
    hide QueryText, Composable;
    HoldsCString(queryParams.sb[..], 0, queryParams.text);
    status := if ok then OK else QueryParamsTooLong;
    query := CString(queryParams.sb[..], 0);
  }

  // ---------------------------------------------------------------- reading a query string back

  function DecodePiece(t: string): Param {
    var n := Before(t, '=');
    Param(n, if |n| < |t| then Decode(t[|n| + 1..]) else [])
  }

  function DecodeAll(ts: seq<string>): (r: seq<Param>)
    ensures |r| == |ts|
    ensures forall i :: 0 <= i < |ts| ==> r[i] == DecodePiece(ts[i])
  {
    if ts == [] then [] else DecodeAll(ts[..|ts| - 1]) + [DecodePiece(ts[|ts| - 1])]
  }

  /** What a server makes of a query string: split at '&', then at '=', then percent-decode. */
  function DecodeQuery(q: string): seq<Param> {
    if q == [] then [] else DecodeAll(Split(q, '&'))
  }

  lemma PieceDecodes(p: Param)
    requires ValidParam(p)
    ensures DecodePiece(Piece(p)) == p && '&' !in Piece(p) && Piece(p) != []
  {
    hide Encode, Decode, Bytes;
    var e := Encode(p.value, true);
    assert Piece(p) == p.name + ['='] + e;
    BeforeIs(p.name, '=', e);
    assert Piece(p)[|p.name| + 1..] == e;
    EncodingRoundTrip(p.value, true);
    EncodingLacksAmp(p.value);
  }

  lemma EncodingLacksAmp(v: string)
    requires Bytes(v)
    ensures '&' !in Encode(v, true)
  {
    EncodeAlphabet(v, true);
  }

  lemma PiecesSplit(ps: seq<Param>)
    requires ValidParams(ps) && ps != []
    ensures Split(QueryText(ps), '&') == Pieces(ps) && QueryText(ps) != []
  {
    hide Piece, Split, Decode, DecodePiece;
    forall i | 0 <= i < |ps| ensures '&' !in Pieces(ps)[i] && Pieces(ps)[i] != [] {
      PieceDecodes(ps[i]);
    }
    SplitJoin(Pieces(ps), '&');
    assert Pieces(ps)[0] != [];
  }

  /** Splitting and decoding a composed query gives the parameters back. */
  lemma QueryRoundTrip(ps: seq<Param>)
    requires ValidParams(ps)
    ensures DecodeQuery(QueryText(ps)) == ps
  {
    hide Piece, Split, DecodePiece, QueryText;
    if ps == [] {
      NoParams(ps);
      EmptyQuery(ps);
    } else {
      PiecesSplit(ps);
      forall i | 0 <= i < |ps| ensures DecodeAll(Pieces(ps))[i] == ps[i] {
        PieceDecodes(ps[i]);
      }
    }
  }

  lemma EmptyQuery(ps: seq<Param>)
    requires ps == []
    ensures QueryText(ps) == []
  {}

  // ---------------------------------------------------------------- which argument goes where

  /** The value that a server finds under a name; nothing when there is no such parameter. */
  function ValueOf(ps: seq<Param>, name: string): string {
    if ps == [] then ""
    else if ps[|ps| - 1].name == name then ps[|ps| - 1].value
    else ValueOf(ps[..|ps| - 1], name)
  }

  lemma ValueSnoc(ps: seq<Param>, p: Param, name: string)
    ensures ValueOf(ps + [p], name) == if p.name == name then p.value else ValueOf(ps, name)
  {
    assert (ps + [p])[..|ps|] == ps;
  }

  ghost predicate DifferentNames(arguments: seq<Param>) {
    forall i, j :: 0 <= i < j < |arguments| ==> arguments[i].name != arguments[j].name
  }

  lemma LastGiven(arguments: seq<Param>)
    requires arguments != []
    ensures var p := arguments[|arguments| - 1];
      Given(arguments) == Given(arguments[..|arguments| - 1]) + if p.value == [] then [] else [p]
  {}

  lemma {:induction false} GivenValue(arguments: seq<Param>, name: string)
    requires DifferentNames(arguments)
    ensures (forall i :: 0 <= i < |arguments| ==> arguments[i].name != name) ==> ValueOf(Given(arguments), name) == ""
    ensures forall i :: 0 <= i < |arguments| && arguments[i].name == name ==>
      ValueOf(Given(arguments), name) == arguments[i].value
  {
    hide Given, ValueOf;
    if arguments == [] {
      NothingGiven(arguments, name);
    } else {
      var n := |arguments| - 1;
      var front, p := arguments[..n], arguments[n];
      GivenValue(front, name);
      LastGiven(arguments);
      ValueSnoc(Given(front), p, name);
      Nothing(Given(front));
      assert forall i :: 0 <= i < n ==> front[i] == arguments[i];
    }
  }

  lemma NothingGiven(arguments: seq<Param>, name: string)
    requires arguments == []
    ensures ValueOf(Given(arguments), name) == ""
  {}

  /** A server that decodes the query finds argument i under its name. */
  lemma ArgumentIsFound(arguments: seq<Param>, i: nat)
    requires Arguments(arguments) && i < |arguments| && DifferentNames(arguments)
    ensures ValidParams(Given(arguments))
    ensures ValueOf(DecodeQuery(QueryText(Given(arguments))), arguments[i].name) == arguments[i].value
  {
    hide QueryText, DecodeQuery, Given, ValueOf;
    GivenValid(arguments);
    QueryRoundTrip(Given(arguments));
    GivenValue(arguments, arguments[i].name);
  }

  /** The text of a number argument. */
  lemma NumberArgument(n: int)
    ensures Plain(NumberText(n)) && (n > 0 ==> NumberText(n) == NatText(n)) && (n == 0 ==> NumberText(n) == "")
    ensures n < 0 ==> NumberText(n) == "-" + NatText(-n)
  {}

  /** Names of the given lengths, all different. */
  lemma DifferentLengths(arguments: seq<Param>, lengths: seq<nat>)
    requires |arguments| == |lengths| && forall i :: 0 <= i < |lengths| ==> |arguments[i].name| == lengths[i]
    requires forall i, j :: 0 <= i < j < |lengths| ==> lengths[i] != lengths[j]
    ensures DifferentNames(arguments)
  {
    forall i, j | 0 <= i < j < |arguments| ensures arguments[i].name != arguments[j].name {
      assert |arguments[i].name| == lengths[i] && |arguments[j].name| == lengths[j];
    }
  }

  lemma BucketNames()
    ensures LiteralName("prefix") && |"prefix"| == 6
    ensures LiteralName("marker") && |"marker"| == 6
    ensures LiteralName("delimiter") && |"delimiter"| == 9
    ensures LiteralName("max-keys") && |"max-keys"| == 8
  {}

  lemma PartNumberName()
    ensures LiteralName("part-number-marker") && |"part-number-marker"| == 18
  {}

  lemma MarkerNames()
    ensures LiteralName("key-marker") && |"key-marker"| == 10
    ensures LiteralName("upload-id-marker") && |"upload-id-marker"| == 16
  {}

  lemma NumberNames()
    ensures LiteralName("encoding-type") && |"encoding-type"| == 13
    ensures LiteralName("max-parts") && |"max-parts"| == 9
    ensures LiteralName("max-uploads") && |"max-uploads"| == 11
  {}

  lemma BucketArguments(prefix: string, marker: string, delimiter: string, maxkeys: int)
    requires Plain(prefix) && Plain(marker) && Plain(delimiter)
    ensures var a := ListBucketArguments(prefix, marker, delimiter, maxkeys);
      && a == [Param("prefix", prefix), Param("marker", marker), Param("delimiter", delimiter),
               Param("max-keys", NumberText(maxkeys))]
      && Arguments(a) && DifferentNames(a)
  {
    hide Plain, NumberText, LiteralName;
    NumberArgument(maxkeys);
    BucketNames();
    assert "prefix"[0] != "marker"[0];
  }

  /** What a server finds in the query of S3_list_bucket. */
  lemma BucketQueryRead(prefix: string, marker: string, delimiter: string, maxkeys: int)
    requires Plain(prefix) && Plain(marker) && Plain(delimiter)
    ensures var arguments := ListBucketArguments(prefix, marker, delimiter, maxkeys);
      ValidParams(Given(arguments)) &&
      var ps := DecodeQuery(QueryText(Given(arguments)));
      && ValueOf(ps, "prefix") == prefix && ValueOf(ps, "marker") == marker
      && ValueOf(ps, "delimiter") == delimiter
      && (maxkeys > 0 ==> ValueOf(ps, "max-keys") == NatText(maxkeys))
      && (maxkeys == 0 ==> ValueOf(ps, "max-keys") == "")
  {
    hide QueryText, DecodeQuery, Given, ValueOf, Plain, NatText, NumberText, ListBucketArguments, Arguments,
      DifferentNames;
    var arguments := ListBucketArguments(prefix, marker, delimiter, maxkeys);
    BucketArguments(prefix, marker, delimiter, maxkeys);
    NumberArgument(maxkeys);
    ArgumentIsFound(arguments, 0);
    ArgumentIsFound(arguments, 1);
    ArgumentIsFound(arguments, 2);
    ArgumentIsFound(arguments, 3);
  }

  lemma PartsArguments(partNumberMarker: string, encodingType: string, maxParts: int)
    requires Plain(partNumberMarker) && Plain(encodingType)
    ensures var a := ListPartsArguments(partNumberMarker, encodingType, maxParts);
      && a == [Param("part-number-marker", partNumberMarker), Param("encoding-type", encodingType),
               Param("max-parts", NumberText(maxParts))]
      && Arguments(a) && DifferentNames(a)
  {
    hide Plain, NumberText, LiteralName, DifferentNames;
    NumberArgument(maxParts);
    PartNumberName();
    NumberNames();
    DifferentLengths(ListPartsArguments(partNumberMarker, encodingType, maxParts), [18, 13, 9]);
  }

  /** What a server finds in the query of S3_list_parts. */
  lemma PartsQueryRead(partNumberMarker: string, encodingType: string, maxParts: int)
    requires Plain(partNumberMarker) && Plain(encodingType)
    ensures var arguments := ListPartsArguments(partNumberMarker, encodingType, maxParts);
      ValidParams(Given(arguments)) &&
      var ps := DecodeQuery(QueryText(Given(arguments)));
      && ValueOf(ps, "part-number-marker") == partNumberMarker && ValueOf(ps, "encoding-type") == encodingType
      && (maxParts > 0 ==> ValueOf(ps, "max-parts") == NatText(maxParts))
      && (maxParts == 0 ==> ValueOf(ps, "max-parts") == "")
  {
    hide QueryText, DecodeQuery, Given, ValueOf, Plain, NatText, NumberText, ListPartsArguments, Arguments,
      DifferentNames;
    var arguments := ListPartsArguments(partNumberMarker, encodingType, maxParts);
    PartsArguments(partNumberMarker, encodingType, maxParts);
    NumberArgument(maxParts);
    ArgumentIsFound(arguments, 0);
    ArgumentIsFound(arguments, 1);
    ArgumentIsFound(arguments, 2);
  }

  lemma UploadsArguments(prefix: string, keyMarker: string, delimiter: string, uploadIdMarker: string,
                         encodingType: string, maxUploads: int)
    requires Plain(prefix) && Plain(keyMarker) && Plain(delimiter) && Plain(uploadIdMarker) && Plain(encodingType)
    ensures var a := ListUploadsArguments(prefix, keyMarker, delimiter, uploadIdMarker, encodingType, maxUploads);
      && a == [Param("prefix", prefix), Param("key-marker", keyMarker), Param("delimiter", delimiter),
               Param("upload-id-marker", uploadIdMarker), Param("encoding-type", encodingType),
               Param("max-uploads", NumberText(maxUploads))]
      && Arguments(a) && DifferentNames(a)
  {
    hide Plain, NumberText, LiteralName, DifferentNames;
    NumberArgument(maxUploads);
    BucketNames();
    MarkerNames();
    NumberNames();
    DifferentLengths(ListUploadsArguments(prefix, keyMarker, delimiter, uploadIdMarker, encodingType, maxUploads),
                     [6, 10, 9, 16, 13, 11]);
  }

  /** What a server finds in the query of S3_list_multipart_uploads. */
  lemma UploadsQueryRead(prefix: string, keyMarker: string, delimiter: string, uploadIdMarker: string,
                         encodingType: string, maxUploads: int)
    requires Plain(prefix) && Plain(keyMarker) && Plain(delimiter) && Plain(uploadIdMarker) && Plain(encodingType)
    ensures var arguments :=
        ListUploadsArguments(prefix, keyMarker, delimiter, uploadIdMarker, encodingType, maxUploads);
      ValidParams(Given(arguments)) &&
      var ps := DecodeQuery(QueryText(Given(arguments)));
      && ValueOf(ps, "prefix") == prefix && ValueOf(ps, "key-marker") == keyMarker
      && ValueOf(ps, "delimiter") == delimiter && ValueOf(ps, "upload-id-marker") == uploadIdMarker
      && ValueOf(ps, "encoding-type") == encodingType
      && (maxUploads > 0 ==> ValueOf(ps, "max-uploads") == NatText(maxUploads))
      && (maxUploads == 0 ==> ValueOf(ps, "max-uploads") == "")
  {
    hide QueryText, DecodeQuery, Given, ValueOf, Plain, NatText, NumberText, ListUploadsArguments, Arguments,
      DifferentNames;
    var arguments := ListUploadsArguments(prefix, keyMarker, delimiter, uploadIdMarker, encodingType, maxUploads);
    UploadsArguments(prefix, keyMarker, delimiter, uploadIdMarker, encodingType, maxUploads);
    NumberArgument(maxUploads);
    ArgumentIsFound(arguments, 0);
    ArgumentIsFound(arguments, 1);
    ArgumentIsFound(arguments, 2);
    ArgumentIsFound(arguments, 3);
    ArgumentIsFound(arguments, 4);
    ArgumentIsFound(arguments, 5);
  }

  /** An encoding that lost its last character decodes to something else. */
  lemma CutEncoding(v: string)
    requires Bytes(v) && v != []
    ensures Encode(v, true) != [] && Decode(Encode(v, true)[..|Encode(v, true)| - 1]) != v
  {
    hide Encode, EncodeChar, Decode, Bytes;
    var n := |v| - 1;
    EncodeStep(v, n, true);
    assert v[..n + 1] == v;
    var e, c := Encode(v[..n], true), EncodeChar(v[n], true);
    CutChar(v[n]);
    assert (e + c)[..|e + c| - 1] == e + c[..|c| - 1];
    DecodeEncode(v[..n], true, c[..|c| - 1]);
  }

  lemma CutChar(c: char)
    requires c as int < 256
    ensures EncodeChar(c, true) != []
    ensures var e := EncodeChar(c, true); |Decode(e[..|e| - 1])| != 1
  {
    var e := EncodeChar(c, true);
    if !PassedThrough(c, true) {
      assert e[..2][1..] == [e[1]] && e[..2][1..][1..] == [];
      assert |Decode(e[..2][1..])| == 1;
      assert |Decode(e[..2])| == 2;
    }
  }

  /** A query that lost its last character decodes to something else. */
  lemma CutQuery(ps: seq<Param>)
    requires ValidParams(ps) && ps != []
    ensures QueryText(ps) != [] && DecodeQuery(QueryText(ps)[..|QueryText(ps)| - 1]) != ps
  {
    hide Encode, Decode, Bytes, Join, Split, DecodePiece, QueryText;
    var n := |ps| - 1;
    var front, p := ps[..n], ps[n];
    assert ps == front + [p];
    QuerySnoc(front, p);
    CutEncoding(p.value);
    var e := Encode(p.value, true);
    var e' := e[..|e| - 1];
    CutPiece(p, e');
    var t := QueryText(front) + (if front == [] then "" else "&");
    assert QueryText(ps)[..|QueryText(ps)| - 1] == t + (p.name + "=" + e');
    CutSplit(front, p.name + "=" + e');
    assert DecodeAll(Pieces(front) + [p.name + "=" + e'])[n] == DecodePiece(p.name + "=" + e');
  }

  lemma CutPiece(p: Param, e: string)
    requires ValidParam(p) && e <= Encode(p.value, true) && Decode(e) != p.value
    ensures var cut := p.name + "=" + e; '&' !in cut && cut != [] && DecodePiece(cut) != p
  {
    hide Encode, Decode, Bytes;
    EncodingLacksAmp(p.value);
    assert p.name + "=" + e == p.name + ['='] + e;
    BeforeIs(p.name, '=', e);
    assert (p.name + "=" + e)[|p.name| + 1..] == e;
  }

  lemma CutSplit(front: seq<Param>, cut: string)
    requires ValidParams(front) && '&' !in cut && cut != []
    ensures var q := QueryText(front) + (if front == [] then "" else "&") + cut;
      q != [] && Split(q, '&') == Pieces(front) + [cut]
  {
    hide Piece, Split, Join;
    var ss := Pieces(front) + [cut];
    forall i | 0 <= i < |ss| ensures '&' !in ss[i] {
      if i < |front| { PieceDecodes(front[i]); }
    }
    SplitJoin(ss, '&');
    if front == [] {
      JoinNone('&');
      JoinOne(cut, '&');
      assert ss == [cut] && "" + "" + cut == cut;
    } else {
      JoinSnoc(Pieces(front), cut, '&');
    }
  }

  /** What a request function composes decodes to the arguments it was given exactly when the text
      is shorter than the buffer. At the full 4096 characters the buffer reports a fit, the last
      character is lost, and so is the last argument. */
  lemma ComposedQueryDecodes(ps: seq<Param>)
    requires ValidParams(ps) && Composable(ps)
    ensures DecodeQuery(Clip(QUERY_SIZE, QueryText(ps))) == ps <==> |QueryText(ps)| < QUERY_SIZE
  {
    hide DecodeQuery, Join;
    var t := QueryText(ps);
    if |t| < QUERY_SIZE {
      assert Clip(QUERY_SIZE, t) == t;
      QueryRoundTrip(ps);
    } else {
      if ps == [] { EmptyQuery(ps); }
      assert Clip(QUERY_SIZE, t) == t[..|t| - 1];
      CutQuery(ps);
    }
  }

  /** The concrete listing: its query has 4096 characters, is accepted, and decodes to something else. */
  lemma FullQueryLosesEnd()
    ensures var ps := [Param("prefix", Blanks(1000)), Param("marker", Blanks(360) + "a")];
      && ps == Given(ListBucketArguments(Blanks(1000), Blanks(360) + "a", "", 0))
      && ValidParams(ps) && Composable(ps) && DecodeQuery(Clip(QUERY_SIZE, QueryText(ps))) != ps
  {
    hide Blanks, Encode, Bytes, QueryText, IntText, DecodeQuery;
    var v := Blanks(360) + "a";
    MarkerGiven(v);
    FullText(v);
    ComposedQueryDecodes([Param("prefix", Blanks(1000)), Param("marker", v)]);
  }

  lemma MarkerGiven(v: string)
    requires v != []
    ensures Given(ListBucketArguments(Blanks(1000), v, "", 0)) == [Param("prefix", Blanks(1000)), Param("marker", v)]
  {
    hide Blanks, IntText;
    var a := ListBucketArguments(Blanks(1000), v, "", 0);
    var p, m := Param("prefix", Blanks(1000)), Param("marker", v);
    GivenNone(a);
    assert a[..1][..0] == [] && a[..2][..1] == a[..1] && a[..3][..2] == a[..2] && a[..4][..3] == a[..3] && a[..4] == a;
    assert Given(a[..1]) == [p];
    assert Given(a[..2]) == [p, m] && Given(a[..3]) == [p, m];
  }

  /** The length of a query of two parameters. */
  lemma TwoParams(p: Param, m: Param)
    requires ValidParam(p) && ValidParam(m)
    ensures ValidParams([p, m])
    ensures |QueryText([p, m])|
         == |p.name| + 1 + |Encode(p.value, true)| + 1 + (|m.name| + 1 + |Encode(m.value, true)|)
  {
    hide Encode, QueryText, Bytes, ValidParam;
    var none: seq<Param> := [];
    EmptyQuery(none);
    assert none + [p] == [p] && [p] + [m] == [p, m];
    QuerySnoc(none, p);
    QuerySnoc([p], m);
  }

  lemma BlankParam(name: string, n: nat)
    requires '&' !in name && '=' !in name && NUL !in name && n > 0
    ensures var p := Param(name, Blanks(n)); ValidParam(p) && |Encode(p.value, true)| == 3 * n
  {
    hide Encode, Blanks, Bytes;
    BlanksEncoded(n);
  }

  lemma FullText(v: string)
    requires v == Blanks(360) + "a"
    ensures var ps := [Param("prefix", Blanks(1000)), Param("marker", v)];
      ValidParams(ps) && Composable(ps) && |QueryText(ps)| == 4096
  {
    hide Blanks, Encode, QueryText;
    BlankParam("prefix", 1000);
    BlanksEncoded(360);
    assert v[..360] == Blanks(360);
    EncodeStep(v, 360, true);
    assert v[..361] == v;
    assert ValidParam(Param("marker", v));
    TwoParams(Param("prefix", Blanks(1000)), Param("marker", v));
  }
}
