/** The URI a request is sent to and the canonical URI that is signed, which src/request.c composes
    in two separate functions. */
module RequestUri {
  import opened Strings
  import opened Status
  import opened BucketNames
  import opened CanonicalQuery

  datatype BucketContext = BucketContext(
    hostName: Option<string>,
    bucketName: Option<string>,
    http: bool,
    uriStyle: UriStyle)

  /** S3_MAX_KEY_SIZE, MAX_URI_SIZE and MAX_CANONICALIZED_RESOURCE_SIZE. */
  const MAX_KEY_SIZE: nat := 1024
  const MAX_URI_SIZE: nat := 9 + 255 + 255 + 1 + 3 * 1024 + 8 + 1
  const MAX_RESOURCE_SIZE: nat := 1 + 255 + 1 + 3 * 1024 + 8 + 1

  function Bucket(c: BucketContext): string { if c.bucketName.Some? then c.bucketName.value else "" }

  function Host(c: BucketContext, defaultHost: string): string {
    if c.hostName.Some? then c.hostName.value else defaultHost
  }

  // ---------------------------------------------------------------- the two texts

  function Scheme(c: BucketContext): string { (if c.http then "http" else "https") + "://" }

  /** The host part of the URI; the bucket goes in front of it when that gives a plain host name. */
  function Authority(c: BucketContext, defaultHost: string): string {
    if Bucket(c) != [] && c.uriStyle == VirtualHost && '.' !in Bucket(c)
    then Bucket(c) + "." + Host(c, defaultHost)
    else Host(c, defaultHost)
  }

  function BucketPath(c: BucketContext): string {
    if Bucket(c) != [] && c.uriStyle == UriStyle.Path then "/" + Bucket(c) else ""
  }

  /** What canonicalize_resource leaves in its buffer. */
  function CanonicalUri(c: BucketContext, urlEncodedKey: string): string {
    BucketPath(c) + "/" + urlEncodedKey
  }

  function SubResourcePart(subResource: string): string { if subResource == [] then "" else "?" + subResource }

  function ParamsPart(subResource: string, queryParams: Option<string>): string {
    if queryParams.None? then "" else (if subResource == [] then "?" else "&") + queryParams.value
  }

  function QueryPart(subResource: string, queryParams: Option<string>): string {
    SubResourcePart(subResource) + ParamsPart(subResource, queryParams)
  }

  /** What compose_uri leaves in its buffer. */
  function UriText(c: BucketContext, defaultHost: string, urlEncodedKey: string, subResource: string,
                   queryParams: Option<string>): string
  {
    Scheme(c) + (Authority(c, defaultHost) + BucketPath(c)) + "/" + urlEncodedKey + QueryPart(subResource, queryParams)
  }

  // ---------------------------------------------------------------- composing

  /** uri_append: len += snprintf(...), and failure when that does not fit. */
  method UriAppend(buffer: array<char>, len: nat, s: string, ghost text: string) returns (ok: bool, newLen: nat)
    requires len == |text| && Holds(buffer[..], 0, text) && NUL !in s
    modifies buffer
    ensures ok <==> |text + s| < buffer.Length
    ensures newLen == |text + s|
    ensures ok ==> Holds(buffer[..], 0, text + s)
  {
    newLen := AppendAt(buffer, len, s, text);
    ok := newLen < buffer.Length;
  }

  method ComposeUri(buffer: array<char>, c: BucketContext, defaultHost: string, urlEncodedKey: string,
                    subResource: string, queryParams: Option<string>)
    returns (status: S3Status)
    requires buffer.Length > 0
    requires NUL !in Bucket(c) && NUL !in Host(c, defaultHost) && NUL !in urlEncodedKey && NUL !in subResource
    requires queryParams.Some? ==> NUL !in queryParams.value
    modifies buffer
    ensures var uri := UriText(c, defaultHost, urlEncodedKey, subResource, queryParams);
      && status == (if |uri| < buffer.Length then OK else UriTooLong)
      && (status == OK ==> Holds(buffer[..], 0, uri))
  {
    hide Holds, QueryPart, Scheme;
    buffer[0] := NUL;
    NothingHeld(buffer[..]);
    SchemeNulFree(c);
    ghost var text := Scheme(c);
    assert "" + text == text;
    var ok, len := UriAppend(buffer, 0, Scheme(c), "");
    if !ok { return UriTooLong; }
    var host := Host(c, defaultHost);
    var name := if Bucket(c) == [] then host
      else if c.uriStyle == VirtualHost then
        if '.' !in Bucket(c) then Bucket(c) + "." + host else host
      else host + "/" + Bucket(c);
    assert name == Authority(c, defaultHost) + BucketPath(c);
    ok, len := UriAppend(buffer, len, name, text);
    if !ok { return UriTooLong; }
    text := text + name;
    status := ComposePathAndQuery(buffer, len, urlEncodedKey, subResource, queryParams, text);
  }

  method ComposePathAndQuery(buffer: array<char>, start: nat, urlEncodedKey: string, subResource: string,
                             queryParams: Option<string>, ghost text: string)
    returns (status: S3Status)
    requires start == |text| && Holds(buffer[..], 0, text)
    requires NUL !in urlEncodedKey && NUL !in subResource && (queryParams.Some? ==> NUL !in queryParams.value)
    modifies buffer
    ensures var uri := text + "/" + urlEncodedKey + QueryPart(subResource, queryParams);
      && status == (if |uri| < buffer.Length then OK else UriTooLong)
      && (status == OK ==> Holds(buffer[..], 0, uri))
  {
    hide Holds;
    var ok, len := UriAppend(buffer, start, "/", text);
    if !ok { return UriTooLong; }
    ok, len := UriAppend(buffer, len, urlEncodedKey, text + "/");
    if !ok { return UriTooLong; }
    status := ComposeQueryPart(buffer, len, subResource, queryParams, text + "/" + urlEncodedKey);
  }

  method ComposeQueryPart(buffer: array<char>, start: nat, subResource: string, queryParams: Option<string>,
                          ghost text: string)
    returns (status: S3Status)
    requires start == |text| && Holds(buffer[..], 0, text)
    requires NUL !in subResource && (queryParams.Some? ==> NUL !in queryParams.value)
    modifies buffer
    ensures var uri := text + QueryPart(subResource, queryParams);
      && status == (if |uri| < buffer.Length then OK else UriTooLong)
      && (status == OK ==> Holds(buffer[..], 0, uri))
  {
    hide Holds, Fitting, SubResourcePart, ParamsPart;
    HoldsRoom(buffer[..], text);
    PartsNulFree(subResource, queryParams);
    var sub, more := SubResourcePart(subResource), ParamsPart(subResource, queryParams);
    assert text + sub + more == text + (sub + more);
    var ok, len := true, start;
    if subResource != [] {
      ok, len := UriAppend(buffer, len, sub, text);
      if !ok { return UriTooLong; }
    } else {
      assert text + sub == text;
    }
    if queryParams.Some? {
      ok, len := UriAppend(buffer, len, more, text + sub);
      if !ok { return UriTooLong; }
    } else {
      assert text + sub + more == text + sub;
    }
    return OK;
  }

  lemma PartsNulFree(subResource: string, queryParams: Option<string>)
    requires NUL !in subResource && (queryParams.Some? ==> NUL !in queryParams.value)
    ensures NUL !in SubResourcePart(subResource) && NUL !in ParamsPart(subResource, queryParams)
    ensures subResource == [] ==> SubResourcePart(subResource) == []
    ensures queryParams.None? ==> ParamsPart(subResource, queryParams) == []
  {}

  lemma HoldsRoom(mem: seq<char>, s: string)
    requires Holds(mem, 0, s)
    ensures |s| < |mem|
  {}

  lemma NothingHeld(mem: seq<char>)
    requires mem != [] && mem[0] == NUL
    ensures Holds(mem, 0, "")
  {}

  lemma SchemeNulFree(c: BucketContext)
    ensures NUL !in Scheme(c)
  {}

  /** canonicalize_resource. The result has to go into the buffer: nothing in the code checks that. */
  method CanonicalizeResource(c: BucketContext, urlEncodedKey: string, buffer: array<char>)
    requires NUL !in Bucket(c) && NUL !in urlEncodedKey
    requires |CanonicalUri(c, urlEncodedKey)| < buffer.Length
    modifies buffer
    ensures Holds(buffer[..], 0, CanonicalUri(c, urlEncodedKey))
  {
    hide Holds;
    buffer[0] := NUL;
    NothingHeld(buffer[..]);
    ghost var text := "";
    var len := 0;
    if c.uriStyle == UriStyle.Path && Bucket(c) != [] {
      len := AppendAt(buffer, len, "/", text);
      text := text + "/";
      len := AppendAt(buffer, len, Bucket(c), text);
      text := text + Bucket(c);
    }
    assert text == BucketPath(c);
    len := AppendAt(buffer, len, "/", text);
    text := text + "/";
    if urlEncodedKey != [] {
      len := AppendAt(buffer, len, urlEncodedKey, text);
    }
    assert text + [] == text;
  }

  // ---------------------------------------------------------------- what is signed is what is sent

  /** A URI without its scheme and authority, and without a fragment. */
  function Target(uri: string): string {
    var scheme := Before(uri, ':');
    var rest := if |scheme| + 3 <= |uri| then uri[|scheme| + 3..] else [];
    Before(rest[|Before(rest, '/')|..], '#')
  }

  function UriPath(uri: string): string { Before(Target(uri), '?') }

  function UriQuery(uri: string): string {
    var t, p := Target(uri), UriPath(uri);
    if |p| < |t| then t[|p| + 1..] else []
  }

  function UriScheme(uri: string): string { Before(uri, ':') }

  /** What stands between "://" and the path. */
  function UriHost(uri: string): string {
    var scheme := Before(uri, ':');
    var rest := if |scheme| + 3 <= |uri| then uri[|scheme| + 3..] else [];
    Before(rest, '/')
  }

  /** A string without the characters that separate the parts of a URI. */
  predicate Undelimited(s: string) { '/' !in s && '?' !in s && '#' !in s }

  lemma TargetOf(s: string, authority: string, target: string)
    requires ':' !in s && '/' !in authority && '#' !in target && target != [] && target[0] == '/'
    ensures Target(s + "://" + authority + target) == target
  {
    hide Before;
    var uri, tail := s + "://" + authority + target, authority + target;
    assert uri == s + [':'] + ("//" + tail);
    BeforeIs(s, ':', "//" + tail);
    assert uri[|s| + 3..] == tail;
    assert tail == authority + ['/'] + target[1..];
    BeforeIs(authority, '/', target[1..]);
    assert tail[|authority|..] == target;
  }

  /** The path and query a server sees in the composed URI. */
  lemma UriParts(c: BucketContext, defaultHost: string, key: string, subResource: string, queryParams: Option<string>)
    requires Undelimited(Bucket(c)) && Undelimited(Host(c, defaultHost)) && '?' !in key && '#' !in key
    requires '#' !in subResource && queryParams != Some("") && (queryParams.Some? ==> '#' !in queryParams.value)
    ensures var uri := UriText(c, defaultHost, key, subResource, queryParams);
      && UriPath(uri) == CanonicalUri(c, key)
      && UriQuery(uri) == SentQuery(queryParams.GetOr(""), subResource)
  {
    hide Target, Before, QueryPart, Authority, CanonicalUri, SentQuery, Undelimited, UriText;
    var uri := UriText(c, defaultHost, key, subResource, queryParams);
    var path, query, authority := CanonicalUri(c, key), QueryPart(subResource, queryParams), Authority(c, defaultHost);
    Delimiters(c, defaultHost, key);
    QueryPartIs(subResource, queryParams);
    var target := path + query;
    var s := if c.http then "http" else "https";
    TextParts(c, defaultHost, key, subResource, queryParams);
    TargetOf(s, authority, target);
    if query == [] {
      assert target == path;
    } else {
      assert target == path + ['?'] + query[1..];
      BeforeIs(path, '?', query[1..]);
      assert target[|path| + 1..] == query[1..];
    }
  }

  lemma HostOf(s: string, authority: string, target: string)
    requires ':' !in s && '/' !in authority && target != [] && target[0] == '/'
    ensures UriScheme(s + "://" + authority + target) == s
    ensures UriHost(s + "://" + authority + target) == authority
  {
    hide Before;
    var uri, tail := s + "://" + authority + target, authority + target;
    assert uri == s + [':'] + ("//" + tail);
    BeforeIs(s, ':', "//" + tail);
    assert uri[|s| + 3..] == tail;
    assert tail == authority + ['/'] + target[1..];
    BeforeIs(authority, '/', target[1..]);
  }

  /** Where a request goes. With a bucket in virtual-host style and no dot in its name, the host is the
      bucket's own; in all other cases it is the service's. The bucket is in the path exactly for path
      style. */
  lemma UriAddress(c: BucketContext, defaultHost: string, key: string, subResource: string, queryParams: Option<string>)
    requires Undelimited(Bucket(c)) && Undelimited(Host(c, defaultHost)) && '?' !in key && '#' !in key
    requires '#' !in subResource && queryParams != Some("") && (queryParams.Some? ==> '#' !in queryParams.value)
    ensures var uri := UriText(c, defaultHost, key, subResource, queryParams);
      var service := if c.hostName == None then defaultHost else c.hostName.value;
      var bucket := if c.bucketName == None then "" else c.bucketName.value;
      && UriScheme(uri) == (if c.http then "http" else "https")
      && UriHost(uri) == (if bucket != "" && c.uriStyle == VirtualHost && '.' !in bucket then bucket + "." + service
                          else service)
      && UriPath(uri) == (if bucket != "" && c.uriStyle == UriStyle.Path then "/" + bucket else "") + "/" + key
  {
    hide UriHost, UriScheme, UriPath, UriQuery, Before, QueryPart, SentQuery, UriText;
    UriParts(c, defaultHost, key, subResource, queryParams);
    TextParts(c, defaultHost, key, subResource, queryParams);
    Delimiters(c, defaultHost, key);
    var target := CanonicalUri(c, key) + QueryPart(subResource, queryParams);
    assert target[0] == '/';
    HostOf(if c.http then "http" else "https", Authority(c, defaultHost), target);
  }

  lemma TextParts(c: BucketContext, defaultHost: string, key: string, subResource: string, queryParams: Option<string>)
    ensures UriText(c, defaultHost, key, subResource, queryParams)
      == (if c.http then "http" else "https") + "://" + Authority(c, defaultHost)
         + (CanonicalUri(c, key) + QueryPart(subResource, queryParams))
  {
    hide Authority, QueryPart, BucketPath;
  }

  lemma Delimiters(c: BucketContext, defaultHost: string, key: string)
    requires Undelimited(Bucket(c)) && Undelimited(Host(c, defaultHost)) && '?' !in key && '#' !in key
    ensures '/' !in Authority(c, defaultHost)
    ensures var path := CanonicalUri(c, key); '?' !in path && '#' !in path && path != [] && path[0] == '/'
  {}

  lemma QueryPartIs(subResource: string, queryParams: Option<string>)
    requires queryParams != Some("")
    ensures var sent := SentQuery(queryParams.GetOr(""), subResource);
      QueryPart(subResource, queryParams) == if sent == [] then [] else "?" + sent
    ensures '#' !in subResource && (queryParams.Some? ==> '#' !in queryParams.value) ==>
      '#' !in QueryPart(subResource, queryParams)
  {}
}
