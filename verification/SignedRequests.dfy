/** When what is signed is what is sent, for the requests the library makes: any bucket, key and URI
    style, and every argument combination of the list requests. */
module SignedRequests {
  import opened Strings
  import opened KvSort
  import opened StringBuffers
  import opened BucketNames
  import opened UrlEncoding
  import opened QueryComposer
  import opened CanonicalQuery
  import opened RequestUri
  import opened StandardHeaders

  // ---------------------------------------------------------------- the path

  lemma ValidBucketUndelimited(name: string, style: UriStyle)
    requires ValidName(name, style)
    ensures Undelimited(name)
  {}

  lemma EncodedKeyChars(k: string)
    requires Bytes(k)
    ensures '?' !in Encode(k, false) && '#' !in Encode(k, false) && NUL !in Encode(k, false)
  {
    EncodeAlphabet(k, false);
  }

  /** setup_request rejects a bucket name that S3_validate_bucket_name does not accept. */
  ghost predicate Accepted(c: BucketContext) {
    c.bucketName.Some? ==> ValidName(c.bucketName.value, c.uriStyle)
  }

  /** For every key that encode_key accepts and every bucket that setup_request accepts, the path of
      the URI is the canonical URI, the query of the URI is the query handed over, and the canonical
      URI fits into its buffer. */
  lemma SignedPathIsSent(c: BucketContext, defaultHost: string, k: string, subResource: string,
                         queryParams: Option<string>)
    requires Accepted(c) && Undelimited(Host(c, defaultHost)) && Bytes(k) && |k| <= MAX_KEY_SIZE
    requires '#' !in subResource && queryParams != Some("") && (queryParams.Some? ==> '#' !in queryParams.value)
    ensures var key := Encode(k, false);
      var uri := UriText(c, defaultHost, key, subResource, queryParams);
      && UriPath(uri) == CanonicalUri(c, key)
      && UriQuery(uri) == SentQuery(queryParams.GetOr(""), subResource)
      && |CanonicalUri(c, key)| < MAX_RESOURCE_SIZE + 1
  {
    hide Encode, Undelimited, UriText, UriPath, UriQuery, SentQuery, Bytes;
    EncodedKeyChars(k);
    EmptyUndelimited();
    if c.bucketName.Some? { ValidBucketUndelimited(c.bucketName.value, c.uriStyle); }
    UriParts(c, defaultHost, Encode(k, false), subResource, queryParams);
  }

  /** For every accepted bucket and every key that encode_key accepts, the service reads exactly that bucket
      and that key in the Host header and the URI. */
  lemma RequestReachesObject(c: BucketContext, defaultHost: string, k: string, subResource: string,
                             queryParams: Option<string>)
    requires Accepted(c) && c.bucketName.Some? && Undelimited(Host(c, defaultHost)) && Bytes(k)
    requires '#' !in subResource && queryParams != Some("") && (queryParams.Some? ==> '#' !in queryParams.value)
    ensures var uri := UriText(c, defaultHost, Encode(k, false), subResource, queryParams);
      var service := if c.hostName == None then defaultHost else c.hostName.value;
      && UriPath(uri) != ""
      && var a := AddressOf(service, NamedHost(c, defaultHost), UriPath(uri));
         a.bucket == c.bucketName.value && Decode(a.key) == k
  {
    hide Encode, Decode, Undelimited, UriText, UriPath, Bytes, AddressOf, NamedHost;
    EncodedKeyChars(k);
    ValidBucketUndelimited(c.bucketName.value, c.uriStyle);
    AcceptedNotEmpty(c);
    EncodingRoundTrip(k, false);
    RequestAddressed(c, defaultHost, Encode(k, false), subResource, queryParams);
  }

  lemma AcceptedNotEmpty(c: BucketContext)
    requires Accepted(c) && c.bucketName.Some?
    ensures c.bucketName.value != ""
  {}

  lemma EmptyUndelimited()
    ensures Undelimited("")
  {}

  // ---------------------------------------------------------------- the query

  ghost predicate DistinctParams(ps: seq<Param>) {
    forall i, j :: 0 <= i < j < |ps| ==> ps[i].name != ps[j].name
  }

  /** Every parameter name comes before the sub-resource's name. */
  ghost predicate NamesBelow(ps: seq<Param>, subResource: string) {
    forall i :: 0 <= i < |ps| ==> Less(ps[i].name, Key(WithEquals(subResource), '='))
  }

  lemma PieceKey(p: Param)
    requires ValidParam(p)
    ensures Key(Piece(p), '=') == p.name && '=' in Piece(p) && Piece(p) != []
  {
    hide Encode, Bytes;
    assert Piece(p) == p.name + ['='] + Encode(p.value, true);
    BeforeIs(p.name, '=', Encode(p.value, true));
  }

  lemma ComposedTokens(ps: seq<Param>)
    requires ValidParams(ps) && ps != []
    ensures var q := QueryText(ps);
      && q != [] && Tokens(q) && Split(q, '&') == Pieces(ps) && ServerTokens(q) == Pieces(ps)
  {
    hide QueryText, Split, Piece, WithEquals;
    PiecesSplit(ps);
    forall i | 0 <= i < |ps|
      ensures Pieces(ps)[i] != [] && '=' in Pieces(ps)[i] && WithEquals(Pieces(ps)[i]) == Pieces(ps)[i]
    {
      PieceKey(ps[i]);
      HasEquals(Pieces(ps)[i]);
    }
    assert WithEqualsAll(Pieces(ps)) == Pieces(ps);
  }

  lemma SubResourceTokens(subResource: string)
    requires subResource != [] && '&' !in subResource
    ensures ServerTokens(subResource) == [WithEquals(subResource)]
  {
    hide WithEquals;
    assert Split(subResource, '&') == [subResource];
  }

  lemma PieceBelow(p: Param, u: string)
    requires ValidParam(p) && Less(p.name, Key(u, '='))
    ensures NameBefore(Piece(p), u) && Key(Piece(p), '=') != Key(u, '=')
  {
    hide Piece, Less, Key;
    PieceKey(p);
    LessTotal(Key(u, '='), Key(u, '='));
  }

  lemma PiecesDistinct(ps: seq<Param>)
    requires ValidParams(ps) && DistinctParams(ps)
    ensures DistinctNames(Pieces(ps))
  {
    hide Piece, Key, ValidParam;
    forall i, j | 0 <= i < j < |ps| ensures Key(Pieces(ps)[i], '=') != Key(Pieces(ps)[j], '=') {
      PieceKey(ps[i]);
      PieceKey(ps[j]);
    }
  }

  lemma DistinctCons(u: string, ts: seq<string>)
    requires DistinctNames(ts) && forall i :: 0 <= i < |ts| ==> Key(ts[i], '=') != Key(u, '=')
    ensures DistinctNames([u] + ts)
  {
    hide Key;
    var r := [u] + ts;
    forall i, j | 0 <= i < j < |r| ensures Key(r[i], '=') != Key(r[j], '=') {
      assert r[j] == ts[j - 1];
      assert i > 0 ==> r[i] == ts[i - 1];
    }
  }

  /** The sent tokens have distinct names, and the sub-resource's is the last. */
  lemma SentNames(ps: seq<Param>, subResource: string)
    requires ValidParams(ps) && DistinctParams(ps) && NamesBelow(ps, subResource)
    ensures DistinctNames([WithEquals(subResource)] + Pieces(ps))
    ensures forall i :: 0 <= i < |ps| ==> NameBefore(Pieces(ps)[i], WithEquals(subResource))
  {
    hide Piece, WithEquals, Key, Less, ValidParam, DistinctNames, NameBefore;
    var u := WithEquals(subResource);
    forall i | 0 <= i < |ps| ensures NameBefore(Pieces(ps)[i], u) && Key(Pieces(ps)[i], '=') != Key(u, '=') {
      PieceBelow(ps[i], u);
    }
    PiecesDistinct(ps);
    DistinctCons(u, Pieces(ps));
  }

  /** The size of canonicalQueryString, the buffer for the signed query. */
  const CANONICAL_QUERY_SIZE: nat := MAX_RESOURCE_SIZE + 1

  /** What the buffer holds is the canonical form of the query that is sent. */
  ghost predicate QuerySigned(q: string, subResource: string) {
    IsSigV4Query(Clip(CANONICAL_QUERY_SIZE, CanonicalQueryString(q, subResource)), SentQuery(q, subResource))
  }

  /** A whole request: the path that a server reads in the URI is the signed one, and the signed query is
      the canonical form of the query that a server reads there, exactly when the sub-resource sorts last
      and the text goes into its buffer. That holds whether or not the URI fits its own, larger buffer. */
  lemma RequestSignedAsSent(c: BucketContext, defaultHost: string, k: string, subResource: string,
                            queryParams: Option<string>)
    requires Accepted(c) && Undelimited(Host(c, defaultHost)) && Bytes(k) && |k| <= MAX_KEY_SIZE
    requires '#' !in subResource && '&' !in subResource
    requires queryParams.Some? ==> '#' !in queryParams.value && Tokens(queryParams.value) && queryParams.value != []
    requires DistinctNames(ServerTokens(SentQuery(queryParams.GetOr(""), subResource)))
    ensures var key, q := Encode(k, false), queryParams.GetOr("");
      var uri := UriText(c, defaultHost, key, subResource, queryParams);
      && UriPath(uri) == CanonicalUri(c, key)
      && (IsSigV4Query(Clip(CANONICAL_QUERY_SIZE, CanonicalQueryString(q, subResource)), UriQuery(uri)) <==>
            SubResourceLast(q, subResource) && CanonicalLength(q, subResource) < CANONICAL_QUERY_SIZE)
  {
    hide Encode, Undelimited, UriText, UriPath, UriQuery, SentQuery, Bytes, Tokens, DistinctNames, ServerTokens,
      SubResourceLast, CanonicalLength, CanonicalQueryString, IsSigV4Query, Clip, CanonicalUri, Accepted;
    SignedPathIsSent(c, defaultHost, k, subResource, queryParams);
    BufferIsCanonical(CANONICAL_QUERY_SIZE, queryParams.GetOr(""), subResource);
  }

  /** A query that is composed of parameters with distinct names, all below the sub-resource's name. */
  lemma ComposedForm(ps: seq<Param>, subResource: string)
    requires ValidParams(ps) && DistinctParams(ps) && '&' !in subResource
    requires subResource == [] || NamesBelow(ps, subResource)
    ensures var q := QueryText(ps);
      && (q != [] ==> Tokens(q)) && DistinctNames(ServerTokens(SentQuery(q, subResource)))
      && SubResourceLast(q, subResource)
  {
    hide QueryText, Split, Pieces, WithEquals, NameBefore, ValidParams, DistinctParams, NamesBelow, DistinctNames,
      Tokens, ServerTokens;
    var q, u := QueryText(ps), WithEquals(subResource);
    if ps == [] {
      EmptyQuery(ps);
      if subResource == [] {
        NoNames();
      } else {
        SubResourceTokens(subResource);
        OneName(subResource);
      }
    } else {
      ComposedTokens(ps);
      if subResource == [] {
        PiecesDistinct(ps);
      } else {
        SentTokens(q, subResource);
        SentNames(ps, subResource);
      }
    }
  }

  lemma NoNames()
    ensures DistinctNames(ServerTokens(""))
  {}

  /** A composed query whose names are distinct and below the sub-resource's name has a canonical text
      that is the canonical form of what is sent. The buffer holds it exactly when it is short enough. */
  lemma ComposedQuerySigned(ps: seq<Param>, subResource: string)
    requires ValidParams(ps) && DistinctParams(ps) && '&' !in subResource
    requires subResource == [] || NamesBelow(ps, subResource)
    ensures IsSigV4Query(CanonicalQueryString(QueryText(ps), subResource), SentQuery(QueryText(ps), subResource))
    ensures QuerySigned(QueryText(ps), subResource) <==>
      CanonicalLength(QueryText(ps), subResource) < CANONICAL_QUERY_SIZE
  {
    hide QueryText, IsSigV4Query, CanonicalQueryString, SentQuery, SubResourceLast, NamesBelow, Tokens, DistinctNames,
      CanonicalLength, Clip;
    ComposedForm(ps, subResource);
    SignedQueryIsSent(QueryText(ps), subResource);
    BufferIsCanonical(CANONICAL_QUERY_SIZE, QueryText(ps), subResource);
  }

  lemma OneName(subResource: string)
    ensures SentQuery("", subResource) == subResource && DistinctNames([WithEquals(subResource)])
  {}

  // ---------------------------------------------------------------- the list requests

  lemma GivenMembers(arguments: seq<Param>, i: nat)
    requires i < |Given(arguments)|
    ensures exists j :: 0 <= j < |arguments| && arguments[j] == Given(arguments)[i]
  {
    var n := |arguments| - 1;
    if i < |Given(arguments[..n])| {
      GivenMembers(arguments[..n], i);
      var j :| 0 <= j < n && arguments[..n][j] == Given(arguments[..n])[i];
      assert arguments[j] == Given(arguments)[i];
    } else {
      assert arguments[n] == Given(arguments)[i];
    }
  }

  lemma {:induction false} GivenDistinct(arguments: seq<Param>)
    requires DistinctParams(arguments)
    ensures DistinctParams(Given(arguments))
  {
    if arguments != [] {
      var n := |arguments| - 1;
      GivenDistinct(arguments[..n]);
      var g := Given(arguments[..n]);
      forall i | 0 <= i < |g| ensures g[i].name != arguments[n].name {
        GivenMembers(arguments[..n], i);
      }
    }
  }

  /** The query that a list function composes is signed as it is sent exactly when its canonical text
      goes into the buffer, whichever arguments are left out. */
  lemma ListSigned(arguments: seq<Param>, subResource: string)
    requires Arguments(arguments) && DistinctParams(arguments) && '&' !in subResource
    requires subResource == [] || NamesBelow(arguments, subResource)
    ensures ValidParams(Given(arguments))
    ensures var q := Clip(QUERY_SIZE, QueryText(Given(arguments)));
      QuerySigned(q, subResource) <==> CanonicalLength(q, subResource) < CANONICAL_QUERY_SIZE
  {
    hide Given, Less, Key, WithEquals, QueryText, QuerySigned, DistinctParams, ValidParams, CanonicalLength;
    var ps := Given(arguments);
    GivenValid(arguments);
    GivenDistinct(arguments);
    if subResource != [] {
      forall i | 0 <= i < |ps| ensures Less(ps[i].name, Key(WithEquals(subResource), '=')) {
        GivenMembers(arguments, i);
      }
    }
    ComposedQuerySigned(ps, subResource);
    var t := QueryText(ps);
    if |t| < QUERY_SIZE {
      assert Clip(QUERY_SIZE, t) == t;
    } else {
      LongQueryCut(Clip(QUERY_SIZE, t), subResource);
    }
  }

  lemma LongQueryCut(q: string, subResource: string)
    requires '&' !in subResource && |q| >= CANONICAL_QUERY_SIZE
    ensures CanonicalLength(q, subResource) >= CANONICAL_QUERY_SIZE && !QuerySigned(q, subResource)
  {
    hide IsSigV4Query, CanonicalQueryString, Clip, WithEquals;
    LongIsNotCanonical(CANONICAL_QUERY_SIZE, q, subResource);
  }

  lemma UploadIdName(uploadId: string)
    ensures Key(WithEquals("uploadId=" + uploadId), '=') == "uploadId"
  {
    assert "uploadId=" + uploadId == "uploadId" + ['='] + uploadId;
    BeforeIs("uploadId", '=', uploadId);
  }

  lemma UploadsName()
    ensures Key(WithEquals("uploads"), '=') == "uploads"
  {
    assert WithEquals("uploads") == "uploads" + ['='] + "";
    BeforeIs("uploads", '=', "");
  }

  /** A literal parameter name that comes before the sub-resource's name. */
  ghost predicate NameOf(n: string, below: string) {
    '&' !in n && '=' !in n && NUL !in n && Less(n, below)
  }

  lemma PartsNames()
    ensures NameOf("part-number-marker", "uploadId") && NameOf("encoding-type", "uploadId")
    ensures NameOf("max-parts", "uploadId")
  {
    hide Less;
    LessAt("part-number-marker", "uploadId", 0);
    LessAt("encoding-type", "uploadId", 0);
    LessAt("max-parts", "uploadId", 0);
  }

  lemma UploadsNames()
    ensures NameOf("prefix", "uploads") && NameOf("key-marker", "uploads") && NameOf("delimiter", "uploads")
    ensures NameOf("upload-id-marker", "uploads") && NameOf("encoding-type", "uploads")
    ensures NameOf("max-uploads", "uploads")
  {
    hide Less, NameOf;
    UploadsMarkers();
    UploadsOptions();
    UploadsNumbers();
  }

  lemma UploadsMarkers()
    ensures NameOf("key-marker", "uploads") && NameOf("upload-id-marker", "uploads")
  {
    hide Less;
    LessAt("key-marker", "uploads", 0);
    LessAt("upload-id-marker", "uploads", 6);
  }

  lemma UploadsOptions()
    ensures NameOf("prefix", "uploads") && NameOf("delimiter", "uploads")
  {
    hide Less;
    LessAt("prefix", "uploads", 0);
    LessAt("delimiter", "uploads", 0);
  }

  lemma UploadsNumbers()
    ensures NameOf("encoding-type", "uploads") && NameOf("max-uploads", "uploads")
  {
    hide Less;
    LessAt("encoding-type", "uploads", 0);
    LessAt("max-uploads", "uploads", 0);
  }

  lemma NamedArguments(arguments: seq<Param>, subResource: string, below: string)
    requires forall i :: 0 <= i < |arguments| ==> NameOf(arguments[i].name, below) && Plain(arguments[i].value)
    requires subResource == [] || Key(WithEquals(subResource), '=') == below
    ensures Arguments(arguments) && (subResource == [] || NamesBelow(arguments, subResource))
  {
    hide Less, Key, WithEquals, Bytes;
    forall i | 0 <= i < |arguments| ensures Less(arguments[i].name, below) {
      assert NameOf(arguments[i].name, below);
    }
  }

  lemma BucketNamesBelow()
    ensures NameOf("prefix", "z") && NameOf("marker", "z") && NameOf("delimiter", "z") && NameOf("max-keys", "z")
  {
    hide Less;
    LessAt("prefix", "z", 0);
    LessAt("marker", "z", 0);
    LessAt("delimiter", "z", 0);
    LessAt("max-keys", "z", 0);
  }

  /** A request of S3_list_bucket is signed as it is sent exactly when its query, as it was composed,
      has at most 3338 characters. */
  lemma ListBucketSigned(prefix: string, marker: string, delimiter: string, maxkeys: int)
    requires Plain(prefix) && Plain(marker) && Plain(delimiter)
    ensures var arguments := ListBucketArguments(prefix, marker, delimiter, maxkeys);
      ValidParams(Given(arguments)) &&
      var q := Clip(QUERY_SIZE, QueryText(Given(arguments)));
      QuerySigned(q, "") <==> |q| <= 3338
  {
    hide Given, QueryText, QuerySigned, Plain, Clip, NameOf, Arguments, NamesBelow, ValidParams, IntText;
    var arguments := ListBucketArguments(prefix, marker, delimiter, maxkeys);
    BucketNamesBelow();
    NamedArguments(arguments, "", "z");
    ListSigned(arguments, "");
  }

  /** A request of S3_list_parts is signed as it is sent exactly when the composed query, a separator
      and the sub-resource have at most 3338 characters together. The sub-resource is cut to the 511
      characters its buffer holds; the upload ID in it is not percent-encoded. */
  lemma ListPartsSigned(partNumberMarker: string, encodingType: string, maxParts: int, uploadId: string)
    requires Plain(partNumberMarker) && Plain(encodingType) && '&' !in uploadId
    ensures var arguments := ListPartsArguments(partNumberMarker, encodingType, maxParts);
      var sub := Clip(512, "uploadId=" + uploadId);
      ValidParams(Given(arguments)) &&
      var q := Clip(QUERY_SIZE, QueryText(Given(arguments)));
      QuerySigned(q, sub) <==> q == [] || |q| + 1 + |sub| <= 3338
  {
    hide Given, QueryText, QuerySigned, Plain, Clip, NameOf, Key, Arguments, NamesBelow, ValidParams, IntText;
    var arguments := ListPartsArguments(partNumberMarker, encodingType, maxParts);
    var sub := Clip(512, "uploadId=" + uploadId);
    ClipUploadId(uploadId);
    PartsNames();
    NamedArguments(arguments, sub, "uploadId");
    ListSigned(arguments, sub);
  }

  lemma ClipUploadId(uploadId: string)
    requires '&' !in uploadId
    ensures var sub := Clip(512, "uploadId=" + uploadId);
      && sub != [] && '&' !in sub && '=' in sub && |sub| < 512
      && Key(WithEquals(sub), '=') == "uploadId"
  {
    hide Key, WithEquals;
    var full := "uploadId=" + uploadId;
    var sub := Clip(512, full);
    assert '&' !in full;
    assert sub == "uploadId=" + sub[9..];
    assert sub[8] == '=';
    UploadIdName(sub[9..]);
  }

  /** A request of S3_list_multipart_uploads is signed as it is sent exactly when its query, as it was
      composed, has at most 3329 characters: "&uploads=" takes nine more. */
  lemma ListUploadsSigned(prefix: string, keyMarker: string, delimiter: string, uploadIdMarker: string,
                          encodingType: string, maxUploads: int)
    requires Plain(prefix) && Plain(keyMarker) && Plain(delimiter) && Plain(uploadIdMarker) && Plain(encodingType)
    ensures var arguments :=
        ListUploadsArguments(prefix, keyMarker, delimiter, uploadIdMarker, encodingType, maxUploads);
      ValidParams(Given(arguments)) &&
      var q := Clip(QUERY_SIZE, QueryText(Given(arguments)));
      QuerySigned(q, "uploads") <==> |q| <= 3329
  {
    hide Given, QueryText, QuerySigned, Plain, NameOf, Key, WithEquals, Arguments, NamesBelow, ValidParams, IntText,
      Clip;
    var arguments := ListUploadsArguments(prefix, keyMarker, delimiter, uploadIdMarker, encodingType, maxUploads);
    UploadsName();
    UploadsNames();
    NamedArguments(arguments, "uploads", "uploads");
    assert "uploads" != [] && '&' !in "uploads";
    UploadsLength();
    ListSigned(arguments, "uploads");
  }

  lemma UploadsLength()
    ensures |WithEquals("uploads")| == 8
  {}

  // ---------------------------------------------------------------- a query that is too long

  /** The arguments of the witness: a prefix of 1000 blanks and a key marker of 110. */
  function LongArguments(): seq<Param> { ListUploadsArguments(Blanks(1000), Blanks(110), "", "", "", 0) }

  lemma LongGiven()
    ensures Given(LongArguments()) == [Param("prefix", Blanks(1000)), Param("key-marker", Blanks(110))]
  {
    hide Blanks, IntText;
    var a := LongArguments();
    var p, k := Param("prefix", Blanks(1000)), Param("key-marker", Blanks(110));
    GivenNone(a);
    assert a[..1][..0] == [] && a[..2][..1] == a[..1] && a[..3][..2] == a[..2];
    assert a[..4][..3] == a[..3] && a[..5][..4] == a[..4] && a[..6][..5] == a[..5] && a[..6] == a;
    assert Given(a[..1]) == [p];
    assert Given(a[..2]) == [p, k];
    assert Given(a[..3]) == [p, k] && Given(a[..4]) == [p, k] && Given(a[..5]) == [p, k];
  }

  lemma LongText()
    ensures var ps := [Param("prefix", Blanks(1000)), Param("key-marker", Blanks(110))];
      ValidParams(ps) && Composable(ps) && |QueryText(ps)| == 3349
  {
    hide Blanks, Encode, Bytes, QueryText, ValidParam;
    BlankParam("prefix", 1000);
    BlankParam("key-marker", 110);
    TwoParams(Param("prefix", Blanks(1000)), Param("key-marker", Blanks(110)));
  }

  /** A multipart upload listing that is composed without an error and whose URI fits, so that the
      request is sent, while the signed query is cut off and a write goes behind its buffer. */
  lemma LongListNotSigned()
    ensures var arguments, c := LongArguments(), BucketContext(None, Some("bucket"), false, VirtualHost);
      ValidParams(Given(arguments)) && Composable(Given(arguments)) &&
      var q := Clip(QUERY_SIZE, QueryText(Given(arguments)));
      && |q| == 3349
      && |UriText(c, "s3.amazonaws.com", "", "uploads", Some(q))| < MAX_URI_SIZE + 1
      && !QuerySigned(q, "uploads") && !WritesInside(q, "uploads", CANONICAL_QUERY_SIZE)
  {
    hide Given, QueryText, QuerySigned, Composable, Blanks, IntText;
    LongGiven();
    LongText();
    ListUploadsSigned(Blanks(1000), Blanks(110), "", "", "", 0);
    var q := QueryText(Given(LongArguments()));
    assert Clip(QUERY_SIZE, q) == q;
    LongUri(q);
  }

  lemma LongUri(q: string)
    requires |q| == 3349
    ensures var c := BucketContext(None, Some("bucket"), false, VirtualHost);
      |UriText(c, "s3.amazonaws.com", "", "uploads", Some(q))| < MAX_URI_SIZE + 1
    ensures !WritesInside(q, "uploads", CANONICAL_QUERY_SIZE)
  {}
}
