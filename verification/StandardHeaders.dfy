/** The headers that src/request.c composes one by one into buffers of 128 characters, and what the Host
    header and the URI of a request address together. */
module StandardHeaders {
  import opened Strings
  import opened Status
  import opened BucketNames
  import opened RequestUri

  /** char hostHeader[128] and its companions */
  const HEADER_SIZE: nat := 128

  // ---------------------------------------------------------------- composing a header

  /** while (is_blank(buf[end])) end--; some character has to stop it. */
  method BackOverBlanks(buf: array<char>, start: nat) returns (end: nat)
    requires start < buf.Length && exists j :: 0 <= j <= start && !IsBlank(buf[j])
    ensures end <= start && !IsBlank(buf[end]) && forall j :: end < j <= start ==> IsBlank(buf[j])
  {
    end := start;
    while IsBlank(buf[end])
      invariant 0 <= end <= start && forall j :: end < j <= start ==> IsBlank(buf[j])
      decreases end
    {
      end := end - 1;
    }
  }

  /** The removal of the whitespace at the end. It begins at the terminator, which is not blank, and so
      removes nothing. */
  method TrimHeader(dest: array<char>, len: nat, ghost text: string)
    requires len == |text| && Holds(dest[..], 0, text)
    modifies dest
    ensures Holds(dest[..], 0, text)
  {
    assert dest[len] == NUL;
    var end := BackOverBlanks(dest, len);
    ghost var mem := dest[..];
    dest[end] := NUL;
    assert dest[..] == mem;
  }

  /** do_put_header, with the format taken apart; also do_get_header. What a source without content gives is
      an empty header, blanks in front of the value are skipped, and those at its end stay. */
  method PutHeader(before: string, after: string, source: Option<string>, badError: S3Status, tooLongError: S3Status,
                   dest: array<char>)
    returns (status: S3Status)
    requires dest.Length == HEADER_SIZE && NUL !in before && NUL !in after && (source.Some? ==> NUL !in source.value)
    requires badError != OK && tooLongError != OK && badError != tooLongError
    modifies dest
    ensures var given := source.GetOr("");
      var text := before + LTrim(given) + after;
      if given == "" then status == OK && Holds(dest[..], 0, "")
      else if LTrim(given) == "" then status == badError
      else if |text| >= HEADER_SIZE then status == tooLongError
      else status == OK && Holds(dest[..], 0, text)
  {
    hide Holds, LTrim;
    if source.None? || source.value == "" {
      dest[0] := NUL;
      NothingHeld(dest[..]);
      return OK;
    }
    var val := SkipBlanks(source.value);
    if val == "" {
      return badError;
    }
    var text := before + val + after;
    var len := Print(dest, text);
    if len >= dest.Length {
      return tooLongError;
    }
    TrimHeader(dest, len, text);
    status := OK;
  }

  method SkipBlanks(s: string) returns (val: string)
    ensures val == LTrim(s) && (NUL !in s ==> NUL !in val)
  {
    val := s;
    while val != "" && IsBlank(val[0])
      invariant LTrim(val) == LTrim(s) && (NUL !in s ==> NUL !in val)
      decreases val
    {
      val := val[1..];
    }
  }

  /** snprintf(dest, sizeof(dest), ...) */
  method Print(dest: array<char>, text: string) returns (len: nat)
    requires dest.Length == HEADER_SIZE && NUL !in text
    modifies dest
    ensures len == |text| && (len < HEADER_SIZE ==> Holds(dest[..], 0, text))
  {
    hide Holds, Fitting;
    dest[0] := NUL;
    NothingHeld(dest[..]);
    Nothing(text);
    len := AppendAt(dest, 0, text, "");
  }

  /** A header value keeps the spaces and tabs at its end, which were to be removed: the text in the buffer
      ends in a blank exactly when the value does. */
  lemma BlanksStay(before: string, value: string)
    requires value != "" && !IsBlank(value[0])
    ensures var text := before + LTrim(value);
      text[|text| - 1] in [' ', '\t'] <==> value[|value| - 1] in [' ', '\t']
  {
    assert LTrim(value) == value;
  }

  // ---------------------------------------------------------------- the Host header

  /** The host that the Host header names. */
  function NamedHost(c: BucketContext, defaultHost: string): string {
    if c.uriStyle == VirtualHost then Bucket(c) + "." + Host(c, defaultHost) else Host(c, defaultHost)
  }

  /** The part of compose_standard_headers for the Host header. In virtual-host style there has to be a
      bucket: its name is printed without a look at the pointer. */
  method ComposeHostHeader(c: BucketContext, defaultHost: string, hostHeader: array<char>) returns (status: S3Status)
    requires hostHeader.Length == HEADER_SIZE && (c.uriStyle == VirtualHost ==> c.bucketName.Some?)
    requires NUL !in Bucket(c) && NUL !in Host(c, defaultHost)
    modifies hostHeader
    ensures status == if |"Host: " + NamedHost(c, defaultHost)| < HEADER_SIZE then OK else UriTooLong
    ensures status == OK ==> Holds(hostHeader[..], 0, "Host: " + NamedHost(c, defaultHost))
  {
    hide Holds;
    var requestHostName := if c.hostName.Some? then c.hostName.value else defaultHost;
    var text := if c.uriStyle == VirtualHost then "Host: " + c.bucketName.value + "." + requestHostName
      else "Host: " + requestHostName;
    assert text == "Host: " + NamedHost(c, defaultHost);
    var len := Print(hostHeader, text);
    if len >= hostHeader.Length {
      return UriTooLong;
    }
    TrimHeader(hostHeader, len, text);
    status := OK;
  }

  // ---------------------------------------------------------------- what a request addresses

  datatype Address = Address(bucket: string, key: string)

  /** How the service at the given host reads a request: a host below its own names the bucket, and the path
      is the key; otherwise the first name in the path is the bucket. */
  function AddressOf(service: string, host: string, path: string): Address
    requires path != ""
  {
    var n := |host| - |service| - 1;
    if n > 0 && host[n..] == "." + service then Address(host[..n], path[1..])
    else
      var bucket := Before(path[1..], '/');
      Address(bucket, if |bucket| + 1 < |path| then path[|bucket| + 2..] else "")
  }

  /** The service reads the bucket and the key of the request in the Host header and the path, for every
      bucket name that is accepted. The host of the URI will do instead when the name has no dot, and in
      path style; a dotted name in virtual-host style is in the Host header alone. */
  lemma RequestAddressed(c: BucketContext, defaultHost: string, key: string, subResource: string,
                         queryParams: Option<string>)
    requires c.bucketName.Some? && c.bucketName.value != "" && Undelimited(c.bucketName.value)
    requires Undelimited(Host(c, defaultHost)) && '?' !in key && '#' !in key
    requires '#' !in subResource && queryParams != Some("") && (queryParams.Some? ==> '#' !in queryParams.value)
    ensures var uri := UriText(c, defaultHost, key, subResource, queryParams);
      var service := if c.hostName == None then defaultHost else c.hostName.value;
      && UriPath(uri) != ""
      && AddressOf(service, NamedHost(c, defaultHost), UriPath(uri)) == Address(c.bucketName.value, key)
      && ('.' !in c.bucketName.value || c.uriStyle == UriStyle.Path ==>
            AddressOf(service, UriHost(uri), UriPath(uri)) == Address(c.bucketName.value, key))
      && ('.' in c.bucketName.value && c.uriStyle == VirtualHost ==> UriHost(uri) == service)
  {
    hide UriText, UriPath, UriHost, UriScheme, Undelimited, AddressOf;
    UriAddress(c, defaultHost, key, subResource, queryParams);
    var service, bucket := Host(c, defaultHost), c.bucketName.value;
    UndelimitedSlash(bucket);
    if c.uriStyle == VirtualHost {
      Nothing("/");
      assert UriPath(UriText(c, defaultHost, key, subResource, queryParams)) == "/" + key;
      HostAddresses(service, bucket, key);
    } else {
      PathAddresses(service, bucket, key);
    }
  }

  lemma UndelimitedSlash(s: string)
    requires Undelimited(s)
    ensures '/' !in s
  {}

  lemma HostAddresses(service: string, bucket: string, key: string)
    requires bucket != ""
    ensures AddressOf(service, bucket + "." + service, "/" + key) == Address(bucket, key)
  {
    var host := bucket + "." + service;
    assert host[|bucket|..] == "." + service && host[..|bucket|] == bucket;
  }

  lemma PathAddresses(service: string, bucket: string, key: string)
    requires '/' !in bucket
    ensures AddressOf(service, service, "/" + bucket + "/" + key) == Address(bucket, key)
  {
    var path := "/" + bucket + "/" + key;
    assert path[1..] == bucket + ['/'] + key;
    BeforeIs(bucket, '/', key);
    assert path[|bucket| + 2..] == key;
  }
}
