/** The canonical query string of AWS Signature Version 4, as src/request.c builds it. */
module CanonicalQuery {
  import opened Strings
  import opened GnomeSort
  import opened KvSort
  import opened StringBuffers

  /** A query string of nonempty "name=value" tokens. */
  ghost predicate Tokens(q: string) {
    forall i :: 0 <= i < |Split(q, '&')| ==> Split(q, '&')[i] != [] && '=' in Split(q, '&')[i]
  }

  /** The tokens of q, sorted by name and joined again. */
  function SortedQuery(q: string): string { Join(Sorted(ByKey(Self, '='), Split(q, '&')), '&') }

  // ---------------------------------------------------------------- tokens

  /** s without the separators in front. */
  function SkipSeparators(s: string): string {
    if s != [] && s[0] == '&' then SkipSeparators(s[1..]) else s
  }

  /** strtok_r(rest, "&", &save): skips the separators in front, then cuts off a token. */
  method NextToken(rest: string) returns (token: Option<string>, save: string)
    ensures var s := SkipSeparators(rest);
      if s == [] then token.None? && save == []
      else token == Some(Before(s, '&')) && save == AfterToken(s, Before(s, '&'))
  {
    var s := rest;
    while s != [] && s[0] == '&'
      invariant SkipSeparators(s) == SkipSeparators(rest)
      decreases s
    {
      s := s[1..];
    }
    if s == [] { return None, []; }
    var t := Before(s, '&');
    token, save := Some(t), AfterToken(s, t);
  }

  /** What is left behind the token t and the separator that ends it. */
  function AfterToken(s: string, t: string): string { if |t| < |s| then s[|t| + 1..] else [] }

  /** Counting the separators, as the loop over strchr does. */
  method CountParams(q: string) returns (numParams: nat)
    ensures numParams == |Split(q, '&')|
  {
    numParams := 1;
    var tmp := q;
    while |Before(tmp, '&')| < |tmp|
      invariant numParams + |Split(tmp, '&')| == |Split(q, '&')| + 1
      decreases |tmp|
    {
      tmp := tmp[|Before(tmp, '&')| + 1..];
      numParams := numParams + 1;
    }
  }

  /** The tokens, put into an array. */
  method Tokenise(q: string) returns (params: array<string>)
    requires Tokens(q)
    ensures fresh(params) && params[..] == Split(q, '&')
  {
    hide Split;
    var numParams := CountParams(q);
    params := new string[numParams];
    var rest, i, done := q, 0, false;
    while !done
      invariant i <= params.Length == |Split(q, '&')|
      invariant done ==> params[..i] == Split(q, '&')
      invariant !done ==> params[..i] + Split(rest, '&') == Split(q, '&')
      decreases !done, |rest|
    {
      HeadToken(q, params[..i], rest);
      var token, save := NextToken(rest);
      params[i] := token.value;
      done := |Before(rest, '&')| == |rest|;
      i := i + 1;
      rest := save;
    }
    assert params[..i] == params[..];
  }

  lemma HeadToken(q: string, done: seq<string>, rest: string)
    requires Tokens(q) && done + Split(rest, '&') == Split(q, '&')
    ensures rest != [] && rest[0] != '&' && |done| < |Split(q, '&')|
    ensures var b := Before(rest, '&');
      if |b| == |rest| then done + [b] == Split(q, '&')
      else done + [b] + Split(rest[|b| + 1..], '&') == Split(q, '&')
  {
    hide Split, Before;
    SplitHead(rest, '&');
    var b := Before(rest, '&');
    assert Split(q, '&')[|done|] == b;
    if |b| < |rest| {
      assert done + ([b] + Split(rest[|b| + 1..], '&')) == done + [b] + Split(rest[|b| + 1..], '&');
    }
  }

  // ---------------------------------------------------------------- sorting the query

  function Room(s: string): nat { |s| + 1 }

  lemma {:induction false} EachThenLength(ss: seq<string>)
    ensures |EachThen(ss, '&')| == Sum(Room, ss)
  {
    if ss != [] { EachThenLength(ss[..|ss| - 1]); }
  }

  /** However the tokens are ordered, they take as much space as the query string. */
  lemma SortedLength(q: string, i: nat)
    requires i <= |Sorted(ByKey(Self, '='), Split(q, '&'))|
    ensures var s := Sorted(ByKey(Self, '='), Split(q, '&'));
      && |EachThen(s, '&')| == |q| + 1 && |EachThen(s[..i], '&')| <= |q| + 1
      && (i < |s| ==> |EachThen(s[..i], '&')| + |s[i]| <= |q|
                      && EachThen(s[..i + 1], '&') == EachThen(s[..i], '&') + s[i] + "&")
  {
    hide Sorted, Split, Join, Sum, EachThen;
    var lt, ss := ByKey(Self, '='), Split(q, '&');
    var s := Sorted(lt, ss);
    JoinSplit(q, '&');
    EachThenJoin(ss, '&');
    EachThenLength(ss);
    EachThenLength(s);
    SumSorted(lt, Room, ss);
    EachThenLength(s[..i]);
    SumPrefix(Room, s, i);
    if i < |s| {
      assert s[..i + 1] == s[..i] + [s[i]];
      EachThenSnoc(s[..i], s[i], '&');
      EachThenLength(s[..i + 1]);
      SumPrefix(Room, s, i + 1);
    }
  }

  /** sort_query_string. With a result buffer of twice the query's length nothing is cut off: at
      most the final separator, which is taken off anyway. */
  method SortQueryString(q: string, result: array<char>)
    requires q != [] && Tokens(q) && NUL !in q && |q| < result.Length
    modifies result
    ensures Holds(result[..], 0, SortedQuery(q))
  {
    hide Tokens, Sorted, Split, EachThen, Holds, ByKey, AllHave, Join, NulFree;
    var params := Tokenise(q);
    TokensHaveKeys(q);
    assert params[..params.Length] == params[..];
    KvGnomeSort(params, params.Length, Self, '=');
    ghost var s := Sorted(ByKey(Self, '='), Split(q, '&'));
    assert params[..] == params[..params.Length];
    WriteTokens(q, params, result);
  }

  /** Appends every token and a separator, and takes the last separator off. */
  method WriteTokens(q: string, params: array<string>, result: array<char>)
    requires q != [] && NUL !in q && |q| < result.Length
    requires params[..] == Sorted(ByKey(Self, '='), Split(q, '&'))
    modifies result
    ensures Holds(result[..], 0, SortedQuery(q))
  {
    hide Sorted, Split, EachThen, Holds, ByKey, Join, NulFree;
    ghost var s := params[..];
    ghost var held := "";
    var pi, len := 0, 0;
    result[0] := NUL;
    EmptyHeld(result[..]);
    EachThenNone(s);
    SortedNulFree(q);
    while pi < params.Length
      invariant pi <= params.Length && len == |EachThen(s[..pi], '&')| <= |q| + 1
      invariant pi < params.Length ==> len <= |q|
      invariant Holds(result[..], 0, held) && |held| == if len < result.Length then len else len - 1
      invariant held <= EachThen(s[..pi], '&')
    {
      SortedLength(q, pi);
      assert held == EachThen(s[..pi], '&');
      SeparatorNulFree(s, pi);
      len := AppendAt(result, len, params[pi], held);
      held := held + params[pi];
      len := AppendAt(result, len, "&", held);
      held := held + Fitting(held, "&", result.Length);
      SortedLength(q, pi + 1);
      pi := pi + 1;
    }
    assert s[..pi] == s;
    SortedLength(q, 0);
    EachThenJoin(s, '&');
    HoldsCut(result[..], held, len - 1);
    ghost var mem := result[..];
    result[len - 1] := NUL;
    assert result[..] == mem[len - 1 := NUL];
    assert held[..len - 1] == Join(s, '&');
  }

  lemma EmptyHeld(mem: seq<char>)
    requires mem != [] && mem[0] == NUL
    ensures Holds(mem, 0, "")
  {}

  lemma EachThenNone(s: seq<string>)
    ensures EachThen(s[..0], '&') == ""
  {}

  ghost predicate NulFree(s: seq<string>) { forall i :: 0 <= i < |s| ==> NUL !in s[i] }

  lemma SeparatorNulFree(s: seq<string>, i: nat)
    requires NulFree(s) && i < |s|
    ensures NUL !in s[i] && NUL !in "&"
  {}

  lemma SortedNulFree(q: string)
    requires NUL !in q
    ensures NulFree(Sorted(ByKey(Self, '='), Split(q, '&'))) && Sorted(ByKey(Self, '='), Split(q, '&')) != []
  {
    hide Sorted, Split;
    var ss := Split(q, '&');
    var s := Sorted(ByKey(Self, '='), ss);
    SplitLacks(q, '&', NUL);
    SortedMembers(ByKey(Self, '='), ss);
    SortedPermutes(ByKey(Self, '='), ss);
    forall i | 0 <= i < |s| ensures NUL !in s[i] {
      assert s[i] in ss;
    }
  }

  lemma {:induction false} SplitLacks(s: string, d: char, c: char)
    requires c !in s
    ensures forall i :: 0 <= i < |Split(s, d)| ==> c !in Split(s, d)[i]
    decreases |s|
  {
    var b := Before(s, d);
    if |b| < |s| { SplitLacks(s[|b| + 1..], d, c); }
  }

  lemma TokensHaveKeys(q: string)
    requires Tokens(q)
    ensures AllHave(Split(q, '&'), Self, '=')
  {
    hide Split;
  }

  // ---------------------------------------------------------------- the canonical query string

  /** A bare name gets an '='. */
  function WithEquals(t: string): string { if '=' in t then t else t + "=" }

  /** What canonicalize_query_string leaves in its buffer: the sorted query, then the sub-resource. */
  function CanonicalQueryString(q: string, subResource: string): string {
    (if q == [] then "" else SortedQuery(q)) + SubResourceText(q, subResource)
  }

  function SubResourceText(q: string, subResource: string): string {
    if subResource == [] then "" else (if q == [] then "" else "&") + WithEquals(subResource)
  }

  /** The number of characters of that text. */
  function CanonicalLength(q: string, subResource: string): nat {
    |q| + (if subResource == [] then 0 else (if q == [] then 0 else 1) + |WithEquals(subResource)|)
  }

  lemma CanonicalQueryLength(q: string, subResource: string)
    ensures |CanonicalQueryString(q, subResource)| == CanonicalLength(q, subResource)
  {
    hide WithEquals, Sorted, Split, Join, EachThen;
    if q != [] { SortedQueryLength(q); }
  }

  lemma SortedQueryLength(q: string)
    ensures |SortedQuery(q)| == |q|
  {
    hide Sorted, Split, Join, EachThen;
    var s := Sorted(ByKey(Self, '='), Split(q, '&'));
    SortedLength(q, |s|);
    SortedPermutes(ByKey(Self, '='), Split(q, '&'));
    EachThenJoin(s, '&');
  }

  /** No append of canonicalize_query_string starts behind the end of a buffer of the given size.
      Behind it buffer_size - len wraps around, and the append writes where len points. */
  predicate WritesInside(q: string, subResource: string, size: nat) {
    subResource == []
    || (if q == [] then 0 else |q| + 1) + (if '=' in subResource then 0 else |subResource|) <= size
  }

  /** len += snprintf(&buffer[len], size - len, "%s", s) without a check: done is all that was
      appended so far. A write that starts behind the end is not made here. */
  method AppendUnchecked(buf: array<char>, len: nat, s: string, ghost done: string) returns (newLen: nat, inside: bool)
    requires buf.Length > 0 && len == |done| && Holds(buf[..], 0, Clip(buf.Length, done)) && NUL !in s
    modifies buf
    ensures newLen == |done + s| && inside == (len <= buf.Length)
    ensures Holds(buf[..], 0, Clip(buf.Length, done + s))
  {
    hide Holds, Printed;
    inside, newLen := len <= buf.Length, len + |s|;
    if inside {
      ghost var mem := buf[..];
      var n := Snprintf(buf, len, buf.Length - len, s);
      PrintedClips(mem, done, s);
    } else {
      assert Clip(buf.Length, done + s) == Clip(buf.Length, done);
    }
  }

  lemma PrintedClips(mem: seq<char>, done: string, s: string)
    requires mem != [] && |done| <= |mem| && Holds(mem, 0, Clip(|mem|, done)) && NUL !in s
    ensures Holds(Printed(mem, |done|, |mem| - |done|, s), 0, Clip(|mem|, done + s))
  {
    hide Holds, Printed;
    if |done| < |mem| {
      assert Clip(|mem|, done) == done;
      PrintedAppends(mem, done, s);
      assert Clip(|mem|, done + s) == done + Fitting(done, s, |mem|);
    } else {
      assert Printed(mem, |done|, 0, s) == mem by { PrintedNothing(mem, |done|, s); }
      assert Clip(|mem|, done + s) == Clip(|mem|, done);
    }
  }

  lemma PrintedNothing(mem: seq<char>, at: nat, s: string)
    requires at <= |mem|
    ensures Printed(mem, at, 0, s) == mem
  {}

  /** canonicalize_query_string. NULL and empty arguments are treated alike. The buffer keeps as much
      of the text as goes into it; inside says whether all writes went there. */
  method CanonicalizeQueryString(queryParams: string, subResource: string, buffer: array<char>) returns (inside: bool)
    requires (queryParams != [] ==> Tokens(queryParams)) && NUL !in queryParams && NUL !in subResource
    requires buffer.Length > 0
    modifies buffer
    ensures Holds(buffer[..], 0, Clip(buffer.Length, CanonicalQueryString(queryParams, subResource)))
    ensures inside == WritesInside(queryParams, subResource, buffer.Length)
  {
    hide Tokens, SortedQuery, Holds, SubResourceText, Clip, WritesInside;
    var len := 0;
    buffer[0] := NUL;
    EmptyHeld(buffer[..]);
    ClipEmpty(buffer.Length);
    ghost var text := "";
    inside := true;
    if queryParams != [] {
      var sorted := new char[2 * |queryParams|];
      sorted[0] := NUL;
      SortQueryString(queryParams, sorted);
      HoldsCString(sorted[..], 0, SortedQuery(queryParams));
      HoldsNulFree(sorted[..], SortedQuery(queryParams));
      text := SortedQuery(queryParams);
      SortedQueryLength(queryParams);
      assert "" + text == text;
      len, inside := AppendUnchecked(buffer, len, CString(sorted[..], 0), "");
    }
    inside := AppendSubResource(buffer, len, queryParams, subResource, text);
  }

  lemma ClipEmpty(size: nat)
    ensures Clip(size, "") == ""
  {}

  method AppendSubResource(buffer: array<char>, start: nat, queryParams: string, subResource: string,
                           ghost text: string)
    returns (inside: bool)
    requires buffer.Length > 0 && start == |text| == |queryParams| && NUL !in subResource
    requires Holds(buffer[..], 0, Clip(buffer.Length, text))
    modifies buffer
    ensures Holds(buffer[..], 0, Clip(buffer.Length, text + SubResourceText(queryParams, subResource)))
    ensures inside == WritesInside(queryParams, subResource, buffer.Length)
  {
    hide Holds, WithEquals, Clip;
    var len := start;
    inside := true;
    if subResource == [] {
      assert text + "" == text;
    } else if queryParams != [] {
      len, inside := AppendUnchecked(buffer, len, "&", text);
      assert text + ("&" + WithEquals(subResource)) == text + "&" + WithEquals(subResource);
      var rest := AppendWithEquals(buffer, len, subResource, text + "&");
      inside := inside && rest;
    } else {
      assert "" + WithEquals(subResource) == WithEquals(subResource);
      inside := AppendWithEquals(buffer, len, subResource, text);
    }
  }

  method AppendWithEquals(buffer: array<char>, start: nat, name: string, ghost text: string) returns (inside: bool)
    requires buffer.Length > 0 && start == |text| && Holds(buffer[..], 0, Clip(buffer.Length, text)) && NUL !in name
    modifies buffer
    ensures Holds(buffer[..], 0, Clip(buffer.Length, text + WithEquals(name)))
    ensures inside == (start + (if '=' in name then 0 else |name|) <= buffer.Length)
  {
    hide Holds, Clip;
    var len, first := AppendUnchecked(buffer, start, name, text);
    inside := first;
    if '=' !in name {
      var last;
      len, last := AppendUnchecked(buffer, len, "=", text + name);
      inside := first && last;
      assert text + name + "=" == text + (name + "=");
    }
  }

  lemma HoldsNulFree(mem: seq<char>, s: string)
    requires Holds(mem, 0, s)
    ensures NUL !in s
  {}

  // ---------------------------------------------------------------- what is signed is what is sent

  /** The query that compose_uri puts into the URI: the sub-resource first. */
  function SentQuery(q: string, subResource: string): string {
    if subResource == [] then q else if q == [] then subResource else subResource + "&" + q
  }

  function WithEqualsAll(ts: seq<string>): (r: seq<string>)
    ensures |r| == |ts|
    ensures forall i :: 0 <= i < |ts| ==> r[i] == WithEquals(ts[i])
  {
    if ts == [] then [] else WithEqualsAll(ts[..|ts| - 1]) + [WithEquals(ts[|ts| - 1])]
  }

  /** The parameters a server finds in a query, a bare name with an '='. */
  function ServerTokens(query: string): seq<string> {
    if query == [] then [] else WithEqualsAll(Split(query, '&'))
  }

  predicate NameBefore(a: string, b: string) { Less(Key(a, '='), Key(b, '=')) }

  ghost predicate DistinctNames(ts: seq<string>) {
    forall i, j :: 0 <= i < j < |ts| ==> Key(ts[i], '=') != Key(ts[j], '=')
  }

  /** The reference: text is the canonical query string of Signature Version 4 for a query whose
      parameter names are distinct, that is, its parameters in ascending order of their names. */
  ghost predicate IsSigV4Query(text: string, query: string) {
    exists r :: (multiset(r) == multiset(ServerTokens(query)) && Strict(NameBefore, r) && text == Join(r, '&'))
  }

  /** The sub-resource's name comes after every name in the query. */
  predicate SubResourceLast(q: string, subResource: string) {
    q == [] || subResource == []
    || forall i :: 0 <= i < |Split(q, '&')| ==> NameBefore(Split(q, '&')[i], WithEquals(subResource))
  }

  lemma NameBeforeIsOrder()
    ensures StrictWeakOrder(NameBefore)
    ensures forall a, b :: ByKey(Self, '=')(a, b) == NameBefore(a, b)
  {
    var lt := ByKey(Self, '=');
    ByKeyIsOrder(Self, '=');
    assert forall a, b :: lt(a, b) == NameBefore(a, b);
    assert forall x, y :: NameBefore(x, y) ==> !NameBefore(y, x) by {
      forall x, y | NameBefore(x, y) ensures !NameBefore(y, x) { assert lt(x, y); }
    }
    forall x, y, z | NameBefore(x, y) && NameBefore(y, z) ensures NameBefore(x, z) {
      assert lt(x, y) && lt(y, z);
    }
    forall x, y, z | NameBefore(x, z) ensures NameBefore(x, y) || NameBefore(y, z) {
      assert lt(x, z);
    }
  }

  /** The parameters of the sent query, when both parts are there. */
  lemma SentTokens(q: string, subResource: string)
    requires q != [] && Tokens(q) && subResource != [] && '&' !in subResource
    ensures ServerTokens(SentQuery(q, subResource)) == [WithEquals(subResource)] + Split(q, '&')
    ensures ServerTokens(q) == Split(q, '&')
  {
    hide WithEquals, Split;
    var ts := Split(q, '&');
    SplitCons(subResource, '&', q);
    assert subResource + ['&'] + q == SentQuery(q, subResource);
    forall i | 0 <= i < |ts| ensures WithEquals(ts[i]) == ts[i] { HasEquals(ts[i]); }
    assert WithEqualsAll(ts) == ts;
    assert WithEqualsAll([subResource] + ts) == [WithEquals(subResource)] + ts;
  }

  lemma HasEquals(t: string)
    requires '=' in t
    ensures WithEquals(t) == t
  {}

  /** Distinct names sort strictly. */
  lemma SortedStrict(ts: seq<string>)
    requires DistinctNames(ts)
    ensures var r := Sorted(ByKey(Self, '='), ts); Strict(NameBefore, r) && multiset(r) == multiset(ts)
  {
    hide Sorted, Key, Less, StrictWeakOrder;
    var lt := ByKey(Self, '=');
    var r := Sorted(lt, ts);
    ByKeyIsOrder(Self, '=');
    NameBeforeIsOrder();
    SortedAscending(lt, ts);
    SortedPermutes(lt, ts);
    forall i, j | 0 <= i < j < |r| ensures NameBefore(r[i], r[j]) {
      assert !lt(r[j], r[i]);
      DistinctPermuted(ts, r, i, j);
      NamesComparable(r[i], r[j]);
    }
  }

  lemma NamesComparable(a: string, b: string)
    requires Key(a, '=') != Key(b, '=') && !NameBefore(b, a)
    ensures NameBefore(a, b)
  {
    LessTotal(Key(a, '='), Key(b, '='));
  }

  /** Distinct names stay distinct when the list is permuted. */
  lemma DistinctPermuted(ts: seq<string>, r: seq<string>, i: nat, j: nat)
    requires DistinctNames(ts) && multiset(r) == multiset(ts) && i < j < |r|
    ensures Key(r[i], '=') != Key(r[j], '=')
  {
    hide Key;
    if Key(r[i], '=') == Key(r[j], '=') {
      assert r[i] in multiset(ts) && r[j] in multiset(ts);
      var p :| 0 <= p < |ts| && ts[p] == r[i];
      var q :| 0 <= q < |ts| && ts[q] == r[j];
      assert p == q;
      TwiceIn(r, i, j);
      OnceIn(ts, p);
    }
  }

  lemma TwiceIn<T>(r: seq<T>, i: nat, j: nat)
    requires i < j < |r| && r[i] == r[j]
    ensures multiset(r)[r[i]] >= 2
  {
    assert r == r[..i] + [r[i]] + r[i + 1..j] + [r[j]] + r[j + 1..];
  }

  lemma OnceIn(ts: seq<string>, p: nat)
    requires DistinctNames(ts) && p < |ts|
    ensures multiset(ts)[ts[p]] == 1
  {
    hide Key;
    assert ts == ts[..p] + [ts[p]] + ts[p + 1..];
    assert ts[p] !in ts[..p] && ts[p] !in ts[p + 1..] by {
      forall k | 0 <= k < |ts| && k != p ensures ts[k] != ts[p] {
        assert Key(ts[k], '=') != Key(ts[p], '=');
      }
    }
  }

  /** The signed query string is the canonical form of the query that is sent exactly when the
      sub-resource's name sorts after every parameter name: it is sent first and signed last. */
  lemma SignedQueryIsSent(q: string, subResource: string)
    requires q != [] ==> Tokens(q)
    requires '&' !in subResource && DistinctNames(ServerTokens(SentQuery(q, subResource)))
    ensures IsSigV4Query(CanonicalQueryString(q, subResource), SentQuery(q, subResource)) <==>
      SubResourceLast(q, subResource)
  {
    hide Split, Sorted, Less, Key, WithEquals, Join;
    if q == [] {
      OnlySubResource(subResource);
    } else if subResource == [] {
      OnlyQuery(q);
    } else {
      SentTokens(q, subResource);
      BothParts(q, subResource);
    }
  }

  lemma OnlyQuery(q: string)
    requires q != [] && Tokens(q) && DistinctNames(ServerTokens(q))
    ensures IsSigV4Query(CanonicalQueryString(q, ""), SentQuery(q, ""))
  {
    hide Split, Sorted, Join, Key;
    assert SortedQuery(q) + "" == SortedQuery(q);
    SentTokens(q, "x");
    SortedStrict(Split(q, '&'));
  }

  lemma OnlySubResource(subResource: string)
    requires '&' !in subResource
    ensures IsSigV4Query(CanonicalQueryString("", subResource), SentQuery("", subResource))
  {
    hide Key, Less;
    if subResource == [] {
      var none: seq<string> := [];
      assert Join(none, '&') == "" && Strict(NameBefore, none);
      assert multiset(none) == multiset(ServerTokens(""));
    } else {
      assert Split(subResource, '&') == [subResource];
      assert WithEqualsAll([subResource]) == [WithEquals(subResource)];
      assert Join([WithEquals(subResource)], '&') == WithEquals(subResource);
      assert "" + ("" + WithEquals(subResource)) == WithEquals(subResource);
      assert Strict(NameBefore, [WithEquals(subResource)]);
    }
  }

  lemma BothParts(q: string, subResource: string)
    requires q != [] && Tokens(q) && subResource != [] && '&' !in subResource
    requires ServerTokens(SentQuery(q, subResource)) == [WithEquals(subResource)] + Split(q, '&')
    requires DistinctNames([WithEquals(subResource)] + Split(q, '&'))
    ensures IsSigV4Query(CanonicalQueryString(q, subResource), SentQuery(q, subResource)) <==>
      SubResourceLast(q, subResource)
  {
    hide Split, Sorted, NameBefore, Key, WithEquals, Join, ServerTokens, SentQuery, StrictWeakOrder,
      CanonicalQueryString, DistinctNames, Tokens;
    var ts, u := Split(q, '&'), WithEquals(subResource);
    var s := Sorted(ByKey(Self, '='), ts);
    var r := s + [u];
    DistinctTail(u, ts);
    SortedStrict(ts);
    NameBeforeIsOrder();
    CanonicalJoin(q, subResource);
    assert multiset(r) == multiset([u] + ts);
    if SubResourceLast(q, subResource) {
      forall i | 0 <= i < |s| ensures NameBefore(s[i], u) {
        assert s[i] in multiset(ts);
        var j :| 0 <= j < |ts| && ts[j] == s[i];
      }
      assert Strict(NameBefore, r);
    } else if IsSigV4Query(CanonicalQueryString(q, subResource), SentQuery(q, subResource)) {
      var r' :| multiset(r') == multiset([u] + ts) && Strict(NameBefore, r')
        && CanonicalQueryString(q, subResource) == Join(r', '&');
      PiecesAmpFree(q, subResource, r');
      PiecesAmpFree(q, subResource, r);
      assert |multiset(r')| == |r'|;
      JoinInjective(r, r', '&');
      forall i | 0 <= i < |ts| ensures NameBefore(ts[i], u) {
        assert ts[i] in multiset(s);
        var j :| 0 <= j < |s| && s[j] == ts[i];
        assert r[j] == s[j] && r[|s|] == u;
      }
    }
  }

  lemma DistinctTail(u: string, ts: seq<string>)
    requires DistinctNames([u] + ts)
    ensures DistinctNames(ts)
  {
    hide Key;
    forall i, j | 0 <= i < j < |ts| ensures Key(ts[i], '=') != Key(ts[j], '=') {
      assert ([u] + ts)[i + 1] == ts[i] && ([u] + ts)[j + 1] == ts[j];
    }
  }

  lemma CanonicalJoin(q: string, subResource: string)
    requires q != [] && subResource != []
    ensures CanonicalQueryString(q, subResource)
         == Join(Sorted(ByKey(Self, '='), Split(q, '&')) + [WithEquals(subResource)], '&')
  {
    hide Split, Sorted, WithEquals, Join;
    var s, u := Sorted(ByKey(Self, '='), Split(q, '&')), WithEquals(subResource);
    SortedPermutes(ByKey(Self, '='), Split(q, '&'));
    JoinSnoc(s, u, '&');
    assert Join(s, '&') + ("&" + u) == Join(s, '&') + ['&'] + u;
  }

  lemma PiecesAmpFree(q: string, subResource: string, r: seq<string>)
    requires '&' !in subResource && multiset(r) == multiset([WithEquals(subResource)] + Split(q, '&'))
    ensures r != [] && forall i :: 0 <= i < |r| ==> '&' !in r[i]
  {
    var all := [WithEquals(subResource)] + Split(q, '&');
    assert '&' !in WithEquals(subResource);
    assert forall i :: 0 <= i < |Split(q, '&')| ==> '&' !in Split(q, '&')[i];
    hide Split, WithEquals;
    assert |multiset(r)| == |r| && |multiset(all)| == |all|;
    forall i | 0 <= i < |r| ensures '&' !in r[i] {
      assert r[i] in multiset(all);
      var j :| 0 <= j < |all| && all[j] == r[i];
    }
  }

  // ---------------------------------------------------------------- what the buffer holds

  lemma {:induction false} EqualsAddRoom(ts: seq<string>)
    ensures Sum(Room, ts) <= Sum(Room, WithEqualsAll(ts))
  {
    hide WithEquals;
    if ts != [] {
      var n := |ts| - 1;
      EqualsAddRoom(ts[..n]);
      SumSnoc(Room, WithEqualsAll(ts[..n]), WithEquals(ts[n]));
      WithEqualsLength(ts[n]);
    }
  }

  lemma WithEqualsLength(t: string)
    ensures |WithEquals(t)| >= |t|
  {}

  lemma SplitRoom(q: string)
    ensures Sum(Room, Split(q, '&')) == |q| + 1
  {
    hide Split, Join, EachThen, Sum;
    JoinSplit(q, '&');
    EachThenJoin(Split(q, '&'), '&');
    EachThenLength(Split(q, '&'));
  }

  /** The parameters a server finds take at least as much room as the canonical text should. */
  lemma ServerRoom(q: string, subResource: string)
    requires '&' !in subResource && SentQuery(q, subResource) != []
    ensures Sum(Room, ServerTokens(SentQuery(q, subResource))) >= CanonicalLength(q, subResource) + 1
  {
    hide Split, WithEquals, Sum;
    if subResource == [] {
      SplitRoom(q);
      EqualsAddRoom(Split(q, '&'));
    } else if q == [] {
      SplitOne(subResource);
      SumOfOne(WithEquals(subResource));
    } else {
      SplitCons(subResource, '&', q);
      assert subResource + ['&'] + q == SentQuery(q, subResource);
      WithEqualsCons(subResource, Split(q, '&'));
      SumCons(Room, WithEquals(subResource), WithEqualsAll(Split(q, '&')));
      SplitRoom(q);
      EqualsAddRoom(Split(q, '&'));
    }
  }

  lemma SplitOne(s: string)
    requires '&' !in s
    ensures Split(s, '&') == [s] && WithEqualsAll(Split(s, '&')) == [WithEquals(s)]
  {}

  lemma SumOfOne(s: string)
    ensures Sum(Room, [s]) == |s| + 1
  {
    assert [s][..0] == [];
  }

  lemma WithEqualsCons(t: string, ts: seq<string>)
    ensures WithEqualsAll([t] + ts) == [WithEquals(t)] + WithEqualsAll(ts)
  {
    hide WithEquals;
  }

  /** A text that is shorter than the canonical query string is not a canonical form of the query. */
  lemma CanonicalNotShorter(text: string, q: string, subResource: string)
    requires '&' !in subResource && IsSigV4Query(text, SentQuery(q, subResource))
    ensures |text| >= CanonicalLength(q, subResource)
  {
    hide ServerTokens, WithEquals, Strict, Join, Sum, EachThen;
    var query := SentQuery(q, subResource);
    if query != [] {
      var r :| multiset(r) == multiset(ServerTokens(query)) && Strict(NameBefore, r) && text == Join(r, '&');
      ServerRoom(q, subResource);
      SumPermuted(Room, r, ServerTokens(query));
      EachThenLength(r);
      if r != [] { EachThenJoin(r, '&'); } else { NoRoom(r); }
    }
  }

  lemma NoRoom(r: seq<string>)
    requires r == []
    ensures Sum(Room, r) == 0
  {}

  /** What a buffer of the given size holds is the canonical form of the sent query exactly when the
      sub-resource sorts last and the text is shorter than the buffer. */
  lemma BufferIsCanonical(size: nat, q: string, subResource: string)
    requires size > 0 && (q != [] ==> Tokens(q))
    requires '&' !in subResource && DistinctNames(ServerTokens(SentQuery(q, subResource)))
    ensures IsSigV4Query(Clip(size, CanonicalQueryString(q, subResource)), SentQuery(q, subResource)) <==>
      SubResourceLast(q, subResource) && CanonicalLength(q, subResource) < size
  {
    hide Tokens, DistinctNames, ServerTokens, SentQuery, IsSigV4Query, CanonicalQueryString, CanonicalLength,
      SubResourceLast;
    CanonicalQueryLength(q, subResource);
    SignedQueryIsSent(q, subResource);
    LongIsNotCanonical(size, q, subResource);
  }

  lemma LongIsNotCanonical(size: nat, q: string, subResource: string)
    requires size > 0 && '&' !in subResource
    ensures var text := CanonicalQueryString(q, subResource);
      if CanonicalLength(q, subResource) < size then Clip(size, text) == text
      else !IsSigV4Query(Clip(size, text), SentQuery(q, subResource))
  {
    hide SentQuery, IsSigV4Query, CanonicalQueryString, CanonicalLength;
    var text := CanonicalQueryString(q, subResource);
    CanonicalQueryLength(q, subResource);
    if CanonicalLength(q, subResource) >= size && IsSigV4Query(Clip(size, text), SentQuery(q, subResource)) {
      CanonicalNotShorter(Clip(size, text), q, subResource);
    }
  }
}
