/** The computed values of a request in src/request.c that make up its signed headers: the raw
    buffer of normalised x-amz- headers, the pointers into it, and the canonical block. */
module AmzHeaders {
  import opened Strings
  import opened Status
  import opened GnomeSort
  import opened KvSort
  import opened Writers
  import opened CanonicalHeaders
  import opened SigV4Headers

  /** S3_MAX_METADATA_SIZE, and S3_MAX_METADATA_COUNT: how often "x-amz-meta-nv" goes into it. */
  const MAX_METADATA_SIZE := 2048
  const MAX_METADATA_COUNT := 2048 / 13
  /** COMPACTED_METADATA_BUFFER_SIZE: room for that many "x-amz-meta-n: v" strings. */
  const COMPACTED_SIZE := MAX_METADATA_COUNT * 16
  const RAW_SIZE := COMPACTED_SIZE + 256 + 1
  const PREFIX := "x-amz-meta-"

  /** The name append_amz_header uses: with the prefix it goes through a buffer of
      S3_MAX_METADATA_SIZE - sizeof(": v") characters. */
  function HeaderName(addPrefix: bool, name: string): string {
    if !addPrefix then name
    else
      var full := PREFIX + name;
      var room := MAX_METADATA_SIZE - 4 - 1;
      full[..if |full| <= room then |full| else room]
  }

  /** What append_amz_header stores: lower-cased name, ": ", value, and no blanks at the end. */
  function Normalised(name: string, value: string): string {
    RTrim(Lower(name) + ": " + value)
  }

  /** A stored header can be canonicalised exactly when its value is not blank throughout: the
      trimming takes the space after the colon along, and the name loop looks for that space. */
  lemma NormalisedWellFormed(name: string, value: string)
    requires name != [] && ':' !in name && ' ' !in name && NUL !in name && NUL !in value
    ensures WellFormed(Normalised(name, value)) <==> RTrim(value) != []
    ensures RTrim(value) != [] ==>
      Name(Normalised(name, value)) == Lower(name) && Value(Normalised(name, value)) == RTrim(value)
  {
    hide RTrim, Lower, WellFormed, Name, Value;
    var n := Lower(name);
    LowerKeeps(name);
    RTrimPrefix(value);
    StoredForm(n, value);
    if RTrim(value) != [] {
      LineWithValue(n, RTrim(value));
    } else {
      LineWithoutValue(n);
    }
  }

  /** With a blank value the name loop, which copies up to the first space, finds none in the header: it
      runs past the terminator. */
  lemma NameLoopRunsOn(mem: seq<char>, p: nat, name: string, value: string)
    requires name != [] && ':' !in name && ' ' !in name && NUL !in name && NUL !in value
    requires Holds(mem, p, Normalised(name, value))
    ensures RTrim(value) == [] <==> forall k :: p <= k <= p + |Normalised(name, value)| ==> mem[k] != ' '
  {
    hide RTrim, Lower, Holds;
    var n, line := Lower(name), Normalised(name, value);
    LowerKeeps(name);
    StoredForm(n, value);
    HeldChars(mem, p, line);
    if RTrim(value) != [] {
      assert line[|n| + 1] == ' ';
    }
  }

  lemma HeldChars(mem: seq<char>, p: nat, s: string)
    requires Holds(mem, p, s)
    ensures p + |s| < |mem| && mem[p + |s|] == NUL
    ensures forall i :: 0 <= i < |s| ==> mem[p + i] == s[i]
    ensures (forall k :: p <= k <= p + |s| ==> mem[k] != ' ') <==> ' ' !in s
  {
    forall i | 0 <= i < |s| ensures mem[p + i] == s[i] {
      assert mem[p..p + |s|][i] == s[i];
    }
    if ' ' in s {
      var i :| 0 <= i < |s| && s[i] == ' ';
      assert mem[p + i] == ' ';
    } else {
      assert forall k :: p <= k < p + |s| ==> mem[k] == s[k - p];
    }
  }

  /** The concrete header: its stored form ends at the colon. */
  lemma BlankValueStored()
    ensures Normalised("x-amz-meta-a", " ") == "x-amz-meta-a:" && ' ' !in Normalised("x-amz-meta-a", " ")
  {
    hide RTrim;
    StoredForm(Lower("x-amz-meta-a"), " ");
    BlankFirst("");
    assert " " + "" == " ";
    NothingTrimmed();
    assert Lower("x-amz-meta-a") == "x-amz-meta-a";
  }

  lemma NothingTrimmed()
    ensures RTrim("") == ""
  {}

  lemma RTrimPrefix(s: string)
    requires NUL !in s
    ensures NUL !in RTrim(s)
  {
    RTrimIsTrimmed(s);
  }

  lemma LowerKeeps(name: string)
    requires name != [] && ':' !in name && ' ' !in name && NUL !in name
    ensures var n := Lower(name); n != [] && ':' !in n && ' ' !in n && NUL !in n
  {}

  lemma LineWithValue(n: string, v: string)
    requires n != [] && ':' !in n && ' ' !in n && NUL !in n && NUL !in v
    ensures var l := n + ": " + v; WellFormed(l) && Name(l) == n && Value(l) == v
  {
    var l := n + ": " + v;
    assert l == n + [':'] + (" " + v);
    BeforeIs(n, ':', " " + v);
    assert l[|n| + 2..] == v;
  }

  lemma LineWithoutValue(n: string)
    requires ':' !in n
    ensures !WellFormed(n + ":")
  {
    assert n + ":" == n + [':'] + [];
    BeforeIs(n, ':', []);
  }

  lemma StoredForm(n: string, value: string)
    ensures RTrim(n + ": " + value) == if RTrim(value) != [] then n + ": " + RTrim(value) else n + ":"
  {
    assert n + ": " + value == (n + ":") + (" " + value);
    EndsTrimmed(n + ":");
    RTrimAppend(n + ":", " " + value);
    BlankFirst(value);
    assert (n + ":") + (" " + RTrim(value)) == n + ": " + RTrim(value);
  }

  lemma {:induction false} BlankFirst(v: string)
    ensures RTrim(" " + v) == if RTrim(v) == [] then [] else " " + RTrim(v)
  {
    if v != [] && IsBlank(v[|v| - 1]) {
      BlankFirst(v[..|v| - 1]);
      assert (" " + v)[..|" " + v| - 1] == " " + v[..|v| - 1];
    } else if v == [] {
      assert " " + v == " ";
    }
  }

  /** Pointer j designates stored[j] in raw; the strings lie one behind the other, none overlaps
      the next, and `last` is the offset of the last terminator. */
  ghost predicate StringHeap(raw: seq<char>, pointers: seq<nat>, stored: seq<string>, last: nat) {
    && |pointers| == |stored| && last < |raw|
    && (forall j :: 0 <= j < |stored| ==> Holds(raw, pointers[j], stored[j]))
    && (forall j :: 0 < j < |stored| ==> pointers[j] == pointers[j - 1] + |stored[j - 1]| + 1)
    && (if stored == [] then last == 0 else last == pointers[|stored| - 1] + |stored[|stored| - 1]|)
  }

  lemma {:induction false} HeapBelow(raw: seq<char>, pointers: seq<nat>, stored: seq<string>, last: nat, j: nat)
    requires StringHeap(raw, pointers, stored, last) && j < |stored|
    ensures pointers[j] + |stored[j]| <= last
    decreases |stored| - j
  {
    hide Holds;
    if j + 1 < |stored| {
      HeapBelow(raw, pointers, stored, last, j + 1);
    }
  }

  /** Writing a string behind the last one keeps the earlier ones. */
  lemma HeapExtend(raw: seq<char>, raw': seq<char>, pointers: seq<nat>, stored: seq<string>, last: nat, line: string)
    requires StringHeap(raw, pointers, stored, last)
    requires |raw'| == |raw| && raw'[..last + 1] == raw[..last + 1] && Holds(raw', last + 1, line)
    ensures StringHeap(raw', pointers + [last + 1], stored + [line], last + 1 + |line|)
  {
    forall j | 0 <= j < |stored| ensures Holds(raw', pointers[j], stored[j]) {
      HeapBelow(raw, pointers, stored, last, j);
      HoldsBelow(raw, raw', pointers[j], stored[j], last + 1);
    }
    hide Holds;
  }

  // ---------------------------------------------------------------- the headers that are collected

  /** The arguments of one call of append_amz_header. */
  datatype Header = Header(addPrefix: bool, name: string, value: string)

  function Line(h: Header): string { Normalised(HeaderName(h.addPrefix, h.name), h.value) }

  /** The raw buffer, the last terminator in it being at `last`, has room for a header. */
  predicate HasRoom(last: nat, h: Header) { last + |HeaderName(h.addPrefix, h.name)| + |h.value| + 3 < RAW_SIZE }

  /** What the appends leave behind: the stored strings and their offsets, and for each pointer the index
      of its string. A failed append leaves a pointer behind the last string, so its index is that of the
      string that is stored next. */
  datatype Heap = Heap(stored: seq<string>, starts: seq<nat>, owners: seq<nat>, last: nat)

  const NO_HEADERS := Heap([], [], [], 0)

  function Add(p: Heap, h: Header): Heap {
    var owners := p.owners + [|p.stored|];
    if HasRoom(p.last, h)
    then Heap(p.stored + [Line(h)], p.starts + [p.last + 1], owners, p.last + 1 + |Line(h)|)
    else p.(owners := owners)
  }

  function AddAll(hs: seq<Header>): Heap {
    if hs == [] then NO_HEADERS else Add(AddAll(hs[..|hs| - 1]), hs[|hs| - 1])
  }

  /** Every pointer designates a string. */
  ghost predicate AllStored(p: Heap) { forall i :: 0 <= i < |p.owners| ==> p.owners[i] < |p.stored| }

  /** The strings that are read through the pointers. */
  function Lines(p: Heap): (r: seq<string>)
    ensures |r| == |p.owners|
  {
    seq(|p.owners|, i requires 0 <= i < |p.owners| =>
      if p.owners[i] < |p.stored| then p.stored[p.owners[i]] else "")
  }

  /** The pointers designate what the heap says. */
  ghost predicate Pointing(raw: seq<char>, pointers: seq<nat>, p: Heap) {
    && StringHeap(raw, p.starts, p.stored, p.last) && |pointers| == |p.owners|
    && (forall i :: 0 <= i < |pointers| ==>
          p.owners[i] <= |p.stored|
          && pointers[i] == if p.owners[i] < |p.stored| then p.starts[p.owners[i]] else p.last + 1)
  }

  lemma PointingFailed(raw: seq<char>, pointers: seq<nat>, p: Heap, h: Header)
    requires Pointing(raw, pointers, p) && !HasRoom(p.last, h)
    ensures Pointing(raw, pointers + [p.last + 1], Add(p, h))
  {
    hide StringHeap;
  }

  lemma PointingStored(raw: seq<char>, raw': seq<char>, pointers: seq<nat>, p: Heap, h: Header)
    requires Pointing(raw, pointers, p) && HasRoom(p.last, h)
    requires |raw'| == |raw| && raw'[..p.last + 1] == raw[..p.last + 1] && Holds(raw', p.last + 1, Line(h))
    ensures Pointing(raw', pointers + [p.last + 1], Add(p, h))
  {
    HeapLast(raw, p.starts, p.stored, p.last);
    HeapExtend(raw, raw', p.starts, p.stored, p.last, Line(h));
    hide StringHeap, Holds, Line;
  }

  lemma AddAllSnoc(hs: seq<Header>, i: nat)
    requires i < |hs|
    ensures AddAll(hs[..i + 1]) == Add(AddAll(hs[..i]), hs[i]) && AddAll(hs[..0]) == NO_HEADERS
  {
    assert hs[..i + 1][..i] == hs[..i];
  }

  /** The first append from i on that finds room. */
  function NextStored(hs: seq<Header>, i: nat): (j: nat)
    requires i <= |hs|
    ensures i <= j <= |hs|
    ensures j < |hs| ==> HasRoom(AddAll(hs[..j]).last, hs[j])
    ensures forall k :: i <= k < j ==> !HasRoom(AddAll(hs[..k]).last, hs[k])
    decreases |hs| - i
  {
    if i == |hs| || HasRoom(AddAll(hs[..i]).last, hs[i]) then i else NextStored(hs, i + 1)
  }

  lemma {:induction false} AppendOnly(hs: seq<Header>, i: nat, n: nat)
    requires i <= n <= |hs|
    ensures AddAll(hs[..i]).stored <= AddAll(hs[..n]).stored && AddAll(hs[..i]).owners <= AddAll(hs[..n]).owners
    ensures |AddAll(hs[..n]).owners| == n
    decreases n
  {
    hide Add, AddAll;
    if i < n {
      AddAllSnoc(hs, n - 1);
      AppendOnly(hs, i, n - 1);
      AddGrows(AddAll(hs[..n - 1]), hs[n - 1]);
    } else if n > 0 {
      AddAllSnoc(hs, n - 1);
      AppendOnly(hs, n - 1, n - 1);
      AddGrows(AddAll(hs[..n - 1]), hs[n - 1]);
    } else {
      NoneAdded(hs);
    }
  }

  lemma NoneAdded(hs: seq<Header>)
    ensures AddAll(hs[..0]) == NO_HEADERS
  {}

  lemma AddGrows(p: Heap, h: Header)
    ensures p.stored <= Add(p, h).stored && p.owners <= Add(p, h).owners && |Add(p, h).owners| == |p.owners| + 1
  {}

  lemma {:induction false} StoredNext(hs: seq<Header>, i: nat)
    requires i <= |hs|
    ensures var k, j := |AddAll(hs[..i]).stored|, NextStored(hs, i);
      if j == |hs| then |AddAll(hs).stored| == k else |AddAll(hs).stored| > k && AddAll(hs).stored[k] == Line(hs[j])
    decreases |hs| - i
  {
    hide AddAll, Line;
    if i == |hs| {
      assert hs[..i] == hs;
    } else {
      AddAllSnoc(hs, i);
      if HasRoom(AddAll(hs[..i]).last, hs[i]) {
        AppendOnly(hs, i + 1, |hs|);
        assert hs[..|hs|] == hs;
      } else {
        StoredNext(hs, i + 1);
      }
    }
  }

  /** The status of append_amz_header is not looked at by its callers. What header i turns out to be is
      the first header from i on that found room; behind the last of those, pointers designate nothing. */
  lemma HeaderIsNextStored(hs: seq<Header>, i: nat)
    requires i < |hs|
    ensures var p, j := AddAll(hs), NextStored(hs, i);
      && |p.owners| == |hs|
      && (p.owners[i] < |p.stored| <==> j < |hs|)
      && (j < |hs| ==> Lines(p)[i] == Line(hs[j]))
  {
    hide AddAll, Line;
    assert hs[..|hs|] == hs;
    AppendOnly(hs, i + 1, |hs|);
    AppendOnly(hs, i, i);
    AddAllSnoc(hs, i);
    assert AddAll(hs[..i + 1]).owners[i] == |AddAll(hs[..i]).stored|;
    StoredNext(hs, i);
  }

  /** Every append found room. */
  ghost predicate AllFit(hs: seq<Header>) {
    forall i :: 0 <= i < |hs| ==> HasRoom(AddAll(hs[..i]).last, hs[i])
  }

  /** The last append decides whether a later one can find room. */
  lemma LastDecides(hs: seq<Header>, i: nat)
    requires i < |hs|
    ensures var n := |hs| - 1;
      if HasRoom(AddAll(hs[..n]).last, hs[n]) then NextStored(hs, i) < |hs| else NextStored(hs, n) == |hs|
  {
    hide AddAll, HasRoom;
  }

  lemma HereWhenFitting(hs: seq<Header>, i: nat)
    requires AllFit(hs) && i < |hs|
    ensures NextStored(hs, i) == i
  {
    hide AddAll, HasRoom;
  }

  /** Every pointer designates a string exactly when the last append found room. When all of them did, the
      headers that were appended are there, in order. */
  lemma AllHeadersThere(hs: seq<Header>)
    ensures AllStored(AddAll(hs)) <==> hs == [] || HasRoom(AddAll(hs[..|hs| - 1]).last, hs[|hs| - 1])
    ensures AllFit(hs) ==>
      AllStored(AddAll(hs)) && Lines(AddAll(hs)) == seq(|hs|, i requires 0 <= i < |hs| => Line(hs[i]))
  {
    hide AddAll, Line, HasRoom, Lines, NextStored, AllFit;
    OwnerCount(hs);
    forall i | 0 <= i < |hs|
      ensures AddAll(hs).owners[i] < |AddAll(hs).stored| <==> NextStored(hs, i) < |hs|
      ensures HasRoom(AddAll(hs[..|hs| - 1]).last, hs[|hs| - 1]) ==> NextStored(hs, i) < |hs|
    {
      HeaderIsNextStored(hs, i);
      LastDecides(hs, i);
    }
    if hs != [] { LastDecides(hs, |hs| - 1); }
    if AllFit(hs) { FittingLines(hs); }
  }

  lemma OwnerCount(hs: seq<Header>)
    ensures |AddAll(hs).owners| == |hs|
  {
    hide AddAll;
    assert hs[..|hs|] == hs;
    AppendOnly(hs, 0, |hs|);
  }

  lemma FittingLines(hs: seq<Header>)
    requires AllFit(hs)
    ensures AllStored(AddAll(hs)) && Lines(AddAll(hs)) == seq(|hs|, i requires 0 <= i < |hs| => Line(hs[i]))
  {
    hide AddAll, Line, HasRoom, Lines, NextStored, AllFit;
    OwnerCount(hs);
    forall i | 0 <= i < |hs|
      ensures AddAll(hs).owners[i] < |AddAll(hs).stored| && Lines(AddAll(hs))[i] == Line(hs[i])
    {
      HeaderIsNextStored(hs, i);
      HereWhenFitting(hs, i);
    }
  }

  /** The concrete run: a value that is too long for the buffer, and then another header. The second is
      there twice and the first is not. */
  lemma LostHeader(long: string)
    requires |long| == RAW_SIZE
    ensures var hs := [Header(true, "a", long), Header(false, "x-amz-date", "d")];
      Lines(AddAll(hs)) == [Line(hs[1]), Line(hs[1])] && AllStored(AddAll(hs))
  {
    hide Line;
    var hs := [Header(true, "a", long), Header(false, "x-amz-date", "d")];
    assert hs[..1] == [hs[0]] && hs[..1][..0] == [];
    AddAllSnoc(hs, 0);
    AddAllSnoc(hs, 1);
    assert hs[..2] == hs;
    assert AddAll(hs) == Heap([Line(hs[1])], [1], [0, 0], 1 + |Line(hs[1])|);
  }

  /** A header whose stored form can be canonicalised and is signed: the library's own names, and
      metadata names without colons and blanks; no value is blank throughout. */
  ghost predicate GoodHeader(h: Header) {
    && NUL !in h.name && ':' !in h.name && ' ' !in h.name && NUL !in h.value && RTrim(h.value) != []
    && (h.addPrefix || "x-amz-" <= Lower(h.name))
  }

  lemma GoodName(h: Header)
    requires GoodHeader(h)
    ensures var n := HeaderName(h.addPrefix, h.name);
      && n != [] && ':' !in n && ' ' !in n && NUL !in n
      && Signable(Lower(n))
  {
    hide RTrim;
    var n := HeaderName(h.addPrefix, h.name);
    LowerTwice(n);
    if h.addPrefix {
      LowerPrefix();
      assert n[..11] == PREFIX;
      assert Lower(n)[..6] == "x-amz-" by { LowerSlice(n, 6); assert n[..6] == PREFIX[..6]; }
    }
  }

  lemma LowerTwice(s: string)
    ensures Lower(Lower(s)) == Lower(s)
  {}

  lemma LowerSlice(s: string, k: nat)
    requires k <= |s|
    ensures Lower(s)[..k] == Lower(s[..k])
  {}

  lemma LowerPrefix()
    ensures PREFIX[..6] == "x-amz-" && Lower("x-amz-") == "x-amz-"
  {}

  lemma GoodLine(h: Header)
    requires GoodHeader(h)
    ensures WellFormed(Line(h)) && Signable(Name(Line(h))) && Value(Line(h)) == RTrim(h.value)
  {
    hide RTrim, Lower, WellFormed, Name, Value, Signable, Normalised, HeaderName;
    GoodName(h);
    NormalisedWellFormed(HeaderName(h.addPrefix, h.name), h.value);
  }

  /** The name of a metadata header: the prefix and at most 2032 characters of the given name. */
  lemma MetadataName(name: string)
    ensures HeaderName(true, name) == "x-amz-meta-" + if |name| <= 2032 then name else name[..2032]
  {}

  /** What is stored for metadata, written out: the prefix, the name in lower case, a colon, a space, and
      the value without the spaces and tabs at its end. */
  lemma StoredMetadata(name: string, v: string, blanks: string)
    requires |name| <= 2032 && v != [] && v[|v| - 1] !in [' ', '\t']
    requires forall i :: 0 <= i < |blanks| ==> blanks[i] in [' ', '\t']
    ensures Line(Header(true, name, v + blanks)) == "x-amz-meta-" + Lower(name) + ": " + v
  {
    hide RTrim, Lower;
    assert HeaderName(true, name) == "x-amz-meta-" + name;
    PrefixLower(name);
    var n := "x-amz-meta-" + Lower(name);
    assert n + ": " + (v + blanks) == n + ": " + v + blanks;
    BlanksTrimmed(n + ": " + v, blanks);
  }

  lemma PrefixLower(name: string)
    ensures Lower("x-amz-meta-" + name) == "x-amz-meta-" + Lower(name)
  {}

  /** The same for the library's own headers. */
  lemma StoredOwn(name: string, v: string, blanks: string)
    requires v != [] && v[|v| - 1] !in [' ', '\t']
    requires forall i :: 0 <= i < |blanks| ==> blanks[i] in [' ', '\t']
    ensures Line(Header(false, name, v + blanks)) == Lower(name) + ": " + v
  {
    hide RTrim, Lower;
    assert Lower(name) + ": " + (v + blanks) == Lower(name) + ": " + v + blanks;
    BlanksTrimmed(Lower(name) + ": " + v, blanks);
  }

  /** No stored line has an upper-case letter in front of its first colon. */
  lemma LineNameLower(h: Header)
    ensures NoCapital(Before(Line(h), ':'))
  {
    hide RTrim, Lower, HeaderName;
    var n := HeaderName(h.addPrefix, h.name);
    TrimStops(Lower(n), h.value);
    RTrimIsTrimmed(Lower(n) + ": " + h.value);
    var l := Line(h);
    assert l[..|n| + 1] == Lower(n) + ":";
    assert l[|n|] == ':';
    LowerHasNone(n);
    var b := Before(l, ':');
    assert |b| <= |n|;
    forall i | 0 <= i < |b| ensures !('A' <= b[i] <= 'Z') {
      assert b[i] == l[i] == Lower(n)[i];
    }
  }

  lemma {:induction false} StoredNamesLower(hs: seq<Header>)
    ensures forall i :: 0 <= i < |AddAll(hs).stored| ==> NoCapital(Before(AddAll(hs).stored[i], ':'))
  {
    hide NoCapital, Line, HasRoom, Before;
    if hs != [] {
      var n := |hs| - 1;
      StoredNamesLower(hs[..n]);
      LineNameLower(hs[n]);
    }
  }

  /** However the appends went, the names of the collected headers are in lower case. */
  lemma CollectedNamesLower(hs: seq<Header>)
    ensures forall i :: 0 <= i < |Lines(AddAll(hs))| ==> NoCapital(Name(Lines(AddAll(hs))[i]))
  {
    hide AddAll;
    StoredNamesLower(hs);
  }

  lemma {:induction false} StoredGood(hs: seq<Header>)
    requires forall i :: 0 <= i < |hs| ==> GoodHeader(hs[i])
    ensures AllWellFormed(AddAll(hs).stored) && AllSignable(AddAll(hs).stored)
  {
    hide GoodHeader, WellFormed, Signable, Name, Line, HasRoom;
    if hs != [] {
      var n := |hs| - 1;
      StoredGood(hs[..n]);
      GoodLine(hs[n]);
    }
  }

  /** Whatever found room, headers of this kind can be canonicalised. */
  lemma CollectedAreCanonical(hs: seq<Header>)
    requires (forall i :: 0 <= i < |hs| ==> GoodHeader(hs[i])) && AllStored(AddAll(hs))
    ensures AllWellFormed(Lines(AddAll(hs))) && AllSignable(Lines(AddAll(hs)))
  {
    hide GoodHeader, WellFormed, Signable, Name, AddAll;
    StoredGood(hs);
    var p := AddAll(hs);
    forall i | 0 <= i < |p.owners| ensures Lines(p)[i] == p.stored[p.owners[i]] {}
  }

  class RequestComputedValues {
    const amzHeaders: array<nat>      // offsets into amzHeadersRaw, standing for char pointers
    var amzHeadersCount: nat
    const amzHeadersRaw: array<char>
    var amzHeadersRawLength: nat
    var contentTypeHeader: string
    var hostHeader: string
    var rangeHeader: string
    var md5Header: string
    const canonicalizedSignatureHeaders: array<char>
    const signedHeaders: array<char>

    /** The strings that have been stored, and which of them each pointer designates. */
    ghost var heap: Heap

    /** Memory is as the heap says. */
    ghost predicate Valid()
      reads this, amzHeaders, amzHeadersRaw
    {
      && amzHeaders.Length == MAX_METADATA_COUNT + 2 && amzHeadersRaw.Length == RAW_SIZE
      && amzHeadersCount <= amzHeaders.Length && heap.last == amzHeadersRawLength
      && canonicalizedSignatureHeaders.Length == RAW_SIZE && signedHeaders.Length == COMPACTED_SIZE
      && canonicalizedSignatureHeaders != amzHeadersRaw && signedHeaders != amzHeadersRaw
      && canonicalizedSignatureHeaders != signedHeaders
      && Pointing(amzHeadersRaw[..], amzHeaders[..amzHeadersCount], heap)
    }

    constructor ()
      ensures Valid() && heap == NO_HEADERS && fresh(amzHeaders) && fresh(amzHeadersRaw)
      ensures fresh(canonicalizedSignatureHeaders) && fresh(signedHeaders)
    {
      amzHeaders := new nat[MAX_METADATA_COUNT + 2];
      amzHeadersRaw := new char[RAW_SIZE];
      canonicalizedSignatureHeaders := new char[RAW_SIZE];
      signedHeaders := new char[COMPACTED_SIZE];
      amzHeadersCount, amzHeadersRawLength := 0, 0;
      contentTypeHeader, hostHeader, rangeHeader, md5Header := "", "", "", "";
      heap := NO_HEADERS;
      new;
      amzHeadersRaw[0] := NUL;
    }

    /** append_amz_header. It succeeds exactly when the raw buffer has room. On failure the count has
        grown all the same, no string has changed, and the new pointer is where the next string goes. */
    method AppendAmzHeader(addPrefix: bool, headerName: string, headerValue: string) returns (status: S3Status)
      requires Valid() && amzHeadersCount < amzHeaders.Length
      requires NUL !in headerName && NUL !in headerValue
      modifies this`amzHeadersCount, this`amzHeadersRawLength, this`heap, amzHeaders, amzHeadersRaw
      ensures Valid() && amzHeadersCount == old(amzHeadersCount) + 1
      ensures heap == Add(old(heap), Header(addPrefix, headerName, headerValue))
      ensures status ==
        if old(amzHeadersRawLength) + |HeaderName(addPrefix, headerName)| + |headerValue| + 3 < RAW_SIZE then OK
        else MetaDataHeadersTooLong
      ensures status != OK ==> amzHeadersRaw[..] == old(amzHeadersRaw[..])
    {
      hide StringHeap, HeaderName, Normalised, Pointing;
      var rawPos := amzHeadersRawLength + 1;
      ghost var pointers, raw, h := amzHeaders[..amzHeadersCount], amzHeadersRaw[..],
        Header(addPrefix, headerName, headerValue);
      PointingLast(raw, pointers, heap);
      amzHeaders[amzHeadersCount] := rawPos;
      amzHeadersCount := amzHeadersCount + 1;
      assert amzHeaders[..amzHeadersCount] == pointers + [rawPos];
      var headerStr := HeaderName(addPrefix, headerName);
      NameNulFree(addPrefix, headerName);
      if amzHeadersRawLength + |headerStr| + |headerValue| + 3 >= RAW_SIZE {
        PointingFailed(raw, pointers, heap, h);
        heap := Add(heap, h);
        return MetaDataHeadersTooLong;
      }
      rawPos := WriteLine(amzHeadersRaw, rawPos, headerStr, headerValue);
      assert amzHeadersRaw[..][..amzHeadersRawLength + 1] == raw[..amzHeadersRawLength + 1];
      PointingStored(raw, amzHeadersRaw[..], pointers, heap, h);
      amzHeadersRawLength := rawPos;
      heap := Add(heap, h);
      return OK;
    }

    /** The appends of compose_amz_headers; nobody looks at their status. */
    method ComposeAmzHeaders(hs: seq<Header>)
      requires Valid() && amzHeadersCount == 0 && heap == NO_HEADERS && |hs| <= amzHeaders.Length
      requires forall i :: 0 <= i < |hs| ==> NUL !in hs[i].name && NUL !in hs[i].value
      modifies this`amzHeadersCount, this`amzHeadersRawLength, this`heap, amzHeaders, amzHeadersRaw
      ensures Valid() && heap == AddAll(hs) && amzHeadersCount == |hs|
    {
      hide Add, AddAll, Pointing;
      NoneAdded(hs);
      var i := 0;
      while i < |hs|
        invariant 0 <= i <= |hs| && Valid() && heap == AddAll(hs[..i]) && amzHeadersCount == i
      {
        AddAllSnoc(hs, i);
        var _ := AppendAmzHeader(hs[i].addPrefix, hs[i].name, hs[i].value);
        i := i + 1;
      }
      assert hs[..i] == hs;
    }

    /** The header lines that get signed, in the order they are collected. */
    ghost function SignedLines(): seq<string>
      reads this
    {
      Lines(heap) + NonEmpty(contentTypeHeader) + NonEmpty(hostHeader) + NonEmpty(rangeHeader) + NonEmpty(md5Header)
    }

    /** Signed are all x-amz- headers, and of the four others those that are there. */
    lemma SignedLinesAre(l: string)
      ensures Lines(heap) <= SignedLines()
      ensures l in SignedLines() <==>
        l in Lines(heap) || (l != "" && l in {contentTypeHeader, hostHeader, rangeHeader, md5Header})
    {
      hide Lines;
    }

    /** The result buffers hold the CanonicalHeaders and SignedHeaders of the signed lines. */
    ghost predicate Canonicalised()
      reads this, canonicalizedSignatureHeaders, signedHeaders
    {
      exists block, signed ::
        (IsSigV4(block, signed, SignedLines())
         && Holds(canonicalizedSignatureHeaders[..], 0, block) && Holds(signedHeaders[..], 0, signed))
    }

    /** Reads the x-amz- headers through their pointers and adds the standard ones. */
    method CollectHeaders(sortedHeaders: array<string>) returns (headerCount: nat)
      requires Valid() && AllStored(heap) && |SignedLines()| <= sortedHeaders.Length
      modifies sortedHeaders
      ensures headerCount <= sortedHeaders.Length && sortedHeaders[..headerCount] == SignedLines()
    {
      hide StringHeap, Lines, Pointing;
      headerCount := 0;
      PointingLast(amzHeadersRaw[..], amzHeaders[..amzHeadersCount], heap);
      while headerCount < amzHeadersCount
        invariant headerCount <= amzHeadersCount
        invariant sortedHeaders[..headerCount] == Lines(heap)[..headerCount]
      {
        PointedRead(amzHeadersRaw[..], amzHeaders[..amzHeadersCount], heap, headerCount);
        sortedHeaders[headerCount] := CString(amzHeadersRaw[..], amzHeaders[headerCount]);
        headerCount := headerCount + 1;
      }
      assert sortedHeaders[..headerCount] == Lines(heap);
      headerCount := AddHeader(sortedHeaders, headerCount, contentTypeHeader);
      headerCount := AddHeader(sortedHeaders, headerCount, hostHeader);
      headerCount := AddHeader(sortedHeaders, headerCount, rangeHeader);
      headerCount := AddHeader(sortedHeaders, headerCount, md5Header);
    }

    /** canonicalize_signature_headers. The host header is always there, so there is a line; the
        lines have to go into sortedHeaders, and their text into the two result buffers. */
    method CanonicalizeSignatureHeaders()
      requires Valid() && AllStored(heap) && hostHeader != [] && |SignedLines()| <= MAX_METADATA_COUNT + 3
      requires AllWellFormed(SignedLines()) && AllSignable(SignedLines())
      requires Span(SignedLines()) < RAW_SIZE && NameSpan(SignedLines()) <= COMPACTED_SIZE
      modifies canonicalizedSignatureHeaders, signedHeaders
      ensures Valid() && Canonicalised()
    {
      hide StringHeap, AllWellFormed, AllSignable, Span, NameSpan, Holds, IsSigV4, Block, NameList, Sorted, ByKey,
        Lines, Pointing;
      ghost var lines := SignedLines();
      assert hostHeader in lines;
      var sortedHeaders := new string[MAX_METADATA_COUNT + 3];
      var headerCount := CollectHeaders(sortedHeaders);
      SortAndWrite(sortedHeaders, headerCount, lines, canonicalizedSignatureHeaders, signedHeaders);
    }
  }

  /** Sorts the collected headers and writes the block and the name list. */
  method SortAndWrite(sortedHeaders: array<string>, headerCount: nat, ghost lines: seq<string>,
                      blockBuffer: array<char>, nameBuffer: array<char>)
    requires headerCount <= sortedHeaders.Length && sortedHeaders[..headerCount] == lines != []
    requires AllWellFormed(lines) && AllSignable(lines) && blockBuffer != nameBuffer
    requires Span(lines) < blockBuffer.Length && NameSpan(lines) <= nameBuffer.Length
    modifies sortedHeaders, blockBuffer, nameBuffer
    ensures exists block, signed ::
      (IsSigV4(block, signed, lines) && Holds(blockBuffer[..], 0, block) && Holds(nameBuffer[..], 0, signed))
  {
    hide AllWellFormed, AllSignable, Span, NameSpan, Holds, IsSigV4, Block, NameList, Sorted, ByKey, AllHave;
    LinesHaveColons(lines);
    KvGnomeSort(sortedHeaders, headerCount, Self, ':');
    ghost var s := sortedHeaders[..headerCount];
    SpanSorted(ByKey(Self, ':'), lines);
    CanonicalHeadersMeetSigV4(lines);
    var buffer := new Writer(blockBuffer);
    var hbuf := new Writer(nameBuffer);
    WriteHeaders(sortedHeaders, headerCount, buffer, hbuf);
    ghost var block, signed := Block(s), NameList(s)[..|NameList(s)| - 1];
    assert IsSigV4(block, signed, lines);
  }

  function NonEmpty(header: string): seq<string> {
    if header == [] then [] else [header]
  }

  /** if (header[0]) sortedHeaders[headerCount++] = header */
  method AddHeader(sortedHeaders: array<string>, headerCount: nat, header: string) returns (count: nat)
    requires headerCount + |NonEmpty(header)| <= sortedHeaders.Length
    modifies sortedHeaders
    ensures count == headerCount + |NonEmpty(header)|
    ensures sortedHeaders[..count] == old(sortedHeaders[..headerCount]) + NonEmpty(header)
  {
    count := headerCount;
    if header != [] {
      sortedHeaders[headerCount] := header;
      count := headerCount + 1;
    }
  }

  lemma PointingLast(raw: seq<char>, pointers: seq<nat>, p: Heap)
    requires Pointing(raw, pointers, p)
    ensures p.last < |raw| && |pointers| == |p.owners|
  {}

  lemma PointedRead(raw: seq<char>, pointers: seq<nat>, p: Heap, i: nat)
    requires Pointing(raw, pointers, p) && i < |pointers| && p.owners[i] < |p.stored|
    ensures pointers[i] < |raw| && CString(raw, pointers[i]) == Lines(p)[i]
  {
    HoldsCString(raw, pointers[i], p.stored[p.owners[i]]);
  }

  lemma LinesHaveColons(lines: seq<string>)
    requires AllWellFormed(lines)
    ensures AllHave(lines, Self, ':')
  {
    hide Before;
    forall i | 0 <= i < |lines| ensures ':' in Self(lines[i]) {
      assert WellFormed(lines[i]);
      assert lines[i][|Name(lines[i])|] == ':';
    }
  }

  /** The bounds do not depend on the order of the lines. */
  lemma SpanSorted(lt: (string, string) -> bool, s: seq<string>)
    ensures Span(Sorted(lt, s)) == Span(s) && NameSpan(Sorted(lt, s)) == NameSpan(s)
  {
    SumSorted(lt, LineRoom, s);
    SumSorted(lt, NameRoom, s);
  }

  lemma HeapLast(raw: seq<char>, pointers: seq<nat>, stored: seq<string>, last: nat)
    requires StringHeap(raw, pointers, stored, last)
    ensures last < |raw|
  {}

  lemma NameNulFree(addPrefix: bool, name: string)
    requires NUL !in name
    ensures NUL !in HeaderName(addPrefix, name)
  {}

  /** Writes a normalised header at offset pos; returns the offset of its terminator. Nothing in
      front of pos changes, and no write goes past pos + |name| + |value| + 2. */
  method WriteLine(raw: array<char>, pos: nat, name: string, value: string) returns (rawPos: nat)
    requires pos + |name| + |value| + 2 < raw.Length
    requires NUL !in name && NUL !in value
    modifies raw
    ensures Holds(raw[..], pos, Normalised(name, value))
    ensures rawPos == pos + |Normalised(name, value)|
    ensures forall j :: 0 <= j < pos || pos + |name| + |value| + 2 < j < raw.Length ==> raw[j] == old(raw[j])
  {
    hide RTrim, Lower;
    ghost var line := Lower(name) + ": " + value;
    rawPos := CopyAt(raw, pos, Lower(name));
    raw[rawPos], raw[rawPos + 1], raw[rawPos + 2] := ':', ' ', NUL;
    rawPos := CopyAt(raw, rawPos + 2, value);
    assert raw[pos..rawPos] == line by {
      assert raw[pos..pos + |name|] == Lower(name) && raw[rawPos - |value|..rawPos] == value;
      assert raw[pos..rawPos]
        == raw[pos..pos + |name|] + [raw[pos + |name|], raw[pos + |name| + 1]] + raw[rawPos - |value|..rawPos];
    }
    TrimStops(Lower(name), value);
    LowerNulFree(name);
    rawPos := TrimEnd(raw, pos, rawPos, line);
    raw[rawPos] := NUL;
    TerminateHolds(raw[..], pos, line, RTrim(line));
  }

  lemma TerminateHolds(mem: seq<char>, pos: nat, line: string, r: string)
    requires r <= line && NUL !in line && pos + |r| < |mem|
    requires mem[pos..pos + |r|] == line[..|r|] && mem[pos + |r|] == NUL
    ensures Holds(mem, pos, r)
  {}

  /** The loop that backs up over the blanks at the end; returns the offset behind what is left. */
  method TrimEnd(raw: array<char>, pos: nat, end: nat, ghost line: string) returns (rawPos: nat)
    requires pos <= end <= raw.Length && raw[pos..end] == line
    requires RTrim(line) != []
    ensures rawPos == pos + |RTrim(line)| && RTrim(line) <= line && rawPos <= end
    ensures raw[pos..rawPos] == line[..|RTrim(line)|]
  {
    rawPos := end - 1;
    assert line[..rawPos + 1 - pos] == line;
    while IsBlank(raw[rawPos])
      invariant pos <= rawPos < end
      invariant RTrim(line[..rawPos + 1 - pos]) == RTrim(line)
      decreases rawPos
    {
      assert raw[rawPos] == line[rawPos - pos];
      assert line[..rawPos + 1 - pos][..rawPos - pos] == line[..rawPos - pos];
      rawPos := rawPos - 1;
    }
    assert raw[rawPos] == line[rawPos - pos];
    rawPos := rawPos + 1;
    assert raw[pos..rawPos] == line[..rawPos - pos];
  }

  /** Copies s to buf[at..] and returns the offset behind it. */
  method CopyAt(buf: array<char>, at: nat, s: string) returns (end: nat)
    requires at + |s| <= buf.Length
    modifies buf
    ensures end == at + |s| && buf[at..end] == s
    ensures forall j :: 0 <= j < at || end <= j < buf.Length ==> buf[j] == old(buf[j])
  {
    var i := 0;
    while i < |s|
      invariant 0 <= i <= |s|
      invariant forall j :: 0 <= j < i ==> buf[at + j] == s[j]
      invariant forall j :: 0 <= j < at || at + i <= j < buf.Length ==> buf[j] == old(buf[j])
    {
      buf[at + i] := s[i];
      i := i + 1;
    }
    end := at + |s|;
    assert forall j :: at <= j < end ==> buf[j] == s[j - at];
  }

  /** The trimming of a stored header stops at the colon at the latest. */
  lemma TrimStops(name: string, value: string)
    ensures |RTrim(name + ": " + value)| >= |name| + 1
  {
    assert name + ": " + value == (name + ":") + (" " + value);
    EndsTrimmed(name + ":");
    RTrimAppend(name + ":", " " + value);
  }
}
