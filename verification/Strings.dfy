/** C strings, character classes and the sequence vocabulary the other modules share. */
module Strings {

  datatype Option<+T> = None | Some(value: T) {
    function GetOr(default: T): T { if Some? then value else default }
  }

  const NUL: char := '\0'

  /** is_blank of src/util.c; the C library's isblank agrees with it. */
  predicate IsBlank(c: char) { c == ' ' || c == '\t' }

  predicate IsDigit(c: char) { '0' <= c <= '9' }

  predicate IsAlpha(c: char) { 'a' <= c <= 'z' || 'A' <= c <= 'Z' }

  /** tolower in the C locale. */
  function LowerChar(c: char): char {
    if 'A' <= c <= 'Z' then (c as int + 32) as char else c
  }

  function Lower(s: string): (r: string)
    ensures |r| == |s|
    ensures forall i :: 0 <= i < |s| ==> r[i] == LowerChar(s[i])
  {
    seq(|s|, i requires 0 <= i < |s| => LowerChar(s[i]))
  }

  const UPPER := "ABCDEFGHIJKLMNOPQRSTUVWXYZ"
  const LOWER := "abcdefghijklmnopqrstuvwxyz"

  /** The same character, or the two forms of one letter. */
  ghost predicate SameLetter(c: char, d: char) {
    c == d || exists k :: 0 <= k < 26 && ((c == UPPER[k] && d == LOWER[k]) || (c == LOWER[k] && d == UPPER[k]))
  }

  lemma Alphabet(k: int)
    requires 0 <= k < 26
    ensures UPPER[k] as int == 65 + k && LOWER[k] as int == 97 + k
  {}

  lemma AlphabetSize()
    ensures |UPPER| == 26 && |LOWER| == 26
  {}

  lemma LowerLetter(c: char, d: char)
    ensures LowerChar(c) == LowerChar(d) <==> SameLetter(c, d)
  {
    hide UPPER, LOWER;
    AlphabetSize();
    if 'A' <= c <= 'Z' { Alphabet(c as int - 65); }
    if 'A' <= d <= 'Z' { Alphabet(d as int - 65); }
    if c != d && SameLetter(c, d) {
      var k :| 0 <= k < 26 && ((c == UPPER[k] && d == LOWER[k]) || (c == LOWER[k] && d == UPPER[k]));
      Alphabet(k);
    }
  }

  /** What tolower does to a string: no upper-case letter is left, everything else stays, and nothing but
      the case of letters is lost. */
  lemma LowerMeans(s: string, r: string)
    ensures forall i :: 0 <= i < |s| ==> !('A' <= Lower(s)[i] <= 'Z')
    ensures forall i :: 0 <= i < |s| && !('A' <= s[i] <= 'Z') ==> Lower(s)[i] == s[i]
    ensures Lower(s) == Lower(r) <==> |s| == |r| && forall i :: 0 <= i < |s| ==> SameLetter(s[i], r[i])
  {
    hide SameLetter;
    if |s| == |r| {
      forall i | 0 <= i < |s| ensures Lower(s)[i] == Lower(r)[i] <==> SameLetter(s[i], r[i]) {
        LowerLetter(s[i], r[i]);
      }
      if Lower(s) == Lower(r) {
        forall i | 0 <= i < |s| ensures SameLetter(s[i], r[i]) {
          assert Lower(s)[i] == Lower(r)[i];
        }
      }
    }
  }

  /** s without its trailing blanks. */
  function RTrim(s: string): string {
    if s != [] && IsBlank(s[|s| - 1]) then RTrim(s[..|s| - 1]) else s
  }

  /** s without its leading blanks. */
  function LTrim(s: string): string {
    if s != [] && IsBlank(s[0]) then LTrim(s[1..]) else s
  }

  lemma {:induction false} RTrimAppend(s: string, t: string)
    requires RTrim(s) == s
    ensures RTrim(s + t) == s + RTrim(t)
  {
    if t == [] {
      assert s + t == s;
    } else {
      assert (s + t)[..|s + t| - 1] == s + t[..|t| - 1];
      if IsBlank(t[|t| - 1]) {
        RTrimAppend(s, t[..|t| - 1]);
      }
    }
  }

  lemma {:induction false} RTrimIsTrimmed(s: string)
    ensures RTrim(RTrim(s)) == RTrim(s)
    ensures RTrim(s) <= s
    ensures RTrim(s) == [] || !IsBlank(RTrim(s)[|RTrim(s)| - 1])
  {
    if s != [] && IsBlank(s[|s| - 1]) {
      RTrimIsTrimmed(s[..|s| - 1]);
    }
  }

  /** Exactly the spaces and tabs at the end are taken off. */
  lemma {:induction false} BlanksTrimmed(s: string, blanks: string)
    requires s == [] || s[|s| - 1] !in [' ', '\t']
    requires forall i :: 0 <= i < |blanks| ==> blanks[i] in [' ', '\t']
    ensures RTrim(s + blanks) == s
    decreases |blanks|
  {
    if blanks == [] {
      assert s + blanks == s;
    } else {
      assert (s + blanks)[..|s + blanks| - 1] == s + blanks[..|blanks| - 1];
      BlanksTrimmed(s, blanks[..|blanks| - 1]);
    }
  }

  /** Exactly the spaces and tabs in front are taken off. */
  lemma {:induction false} BlanksSkipped(blanks: string, s: string)
    requires s == [] || s[0] !in [' ', '\t']
    requires forall i :: 0 <= i < |blanks| ==> blanks[i] in [' ', '\t']
    ensures LTrim(blanks + s) == s
  {
    if blanks == [] {
      assert blanks + s == s;
    } else {
      assert (blanks + s)[1..] == blanks[1..] + s;
      BlanksSkipped(blanks[1..], s);
    }
  }

  // ---------------------------------------------------------------- C strings in memory

  /** The memory `mem` holds the C string s, terminator included, at offset p. */
  predicate Holds(mem: seq<char>, p: nat, s: string) {
    && p + |s| < |mem|
    && mem[p..p + |s|] == s
    && mem[p + |s|] == NUL
    && NUL !in s
  }

  /** The C string that starts at offset p: everything up to the first terminator. */
  function CString(mem: seq<char>, p: nat): string
    requires p <= |mem|
    decreases |mem| - p
  {
    if p == |mem| || mem[p] == NUL then [] else [mem[p]] + CString(mem, p + 1)
  }

  lemma {:induction false} HoldsCString(mem: seq<char>, p: nat, s: string)
    requires Holds(mem, p, s)
    ensures CString(mem, p) == s
    decreases |s|
  {
    if s == [] {
      assert mem[p] == NUL;
    } else {
      assert mem[p] == mem[p..p + |s|][0] == s[0];
      assert mem[p + 1..p + 1 + |s[1..]|] == mem[p..p + |s|][1..] == s[1..];
      HoldsCString(mem, p + 1, s[1..]);
      assert s == [s[0]] + s[1..];
    }
  }

  /** What memory holds after snprintf(mem + at, size, "%s", s). */
  function Printed(mem: seq<char>, at: nat, size: nat, s: string): (r: seq<char>)
    requires at + size <= |mem|
    ensures |r| == |mem|
  {
    if size == 0 then mem
    else
      var k := if |s| < size then |s| else size - 1;
      mem[..at] + s[..k] + [NUL] + mem[at + k + 1..]
  }

  /** snprintf with a "%s" format: writes at most size - 1 characters and a terminator, and
      returns how many characters it wanted to write. */
  method Snprintf(buf: array<char>, at: nat, size: nat, s: string) returns (n: nat)
    requires at + size <= buf.Length
    modifies buf
    ensures n == |s|
    ensures buf[..] == Printed(old(buf[..]), at, size, s)
  {
    n := |s|;
    if size > 0 {
      var k := if |s| < size then |s| else size - 1;
      var i := 0;
      while i < k
        invariant 0 <= i <= k
        invariant forall j :: 0 <= j < i ==> buf[at + j] == s[j]
        invariant forall j :: 0 <= j < at || at + i <= j < buf.Length ==> buf[j] == old(buf[j])
      {
        buf[at + i] := s[i];
        i := i + 1;
      }
      buf[at + k] := NUL;
      ghost var r := Printed(old(buf[..]), at, size, s);
      assert forall j :: at <= j < at + k ==> buf[j] == s[j - at] == r[j];
      assert buf[..] == r;
    }
  }

  /** The part of s that fits behind text in a buffer of the given size. */
  function Fitting(text: string, s: string, size: nat): string
    requires |text| < size
  {
    if |s| < size - |text| then s else s[..size - |text| - 1]
  }

  /** len += snprintf(&buf[len], size - len, "%s", s), where buf holds text and len is its length. */
  method AppendAt(buf: array<char>, len: nat, s: string, ghost text: string) returns (newLen: nat)
    requires len == |text| && Holds(buf[..], 0, text) && NUL !in s
    modifies buf
    ensures newLen == |text + s| && Holds(buf[..], 0, text + Fitting(text, s, buf.Length))
    ensures |text + s| < buf.Length ==> Holds(buf[..], 0, text + s)
  {
    hide Printed;
    ghost var before := buf[..];
    var n := Snprintf(buf, len, buf.Length - len, s);
    PrintedAppends(before, text, s);
    newLen := len + n;
  }

  lemma PrintedAppends(mem: seq<char>, text: string, s: string)
    requires Holds(mem, 0, text) && NUL !in s
    ensures Holds(Printed(mem, |text|, |mem| - |text|, s), 0, text + Fitting(text, s, |mem|))
  {
    var r, f := Printed(mem, |text|, |mem| - |text|, s), Fitting(text, s, |mem|);
    assert r[..|text|] == mem[..|text|] == text;
    assert r[0..0 + |text + f|] == text + f;
  }

  /** Cutting a C string off by writing a terminator into it. */
  lemma HoldsCut(mem: seq<char>, s: string, k: nat)
    requires Holds(mem, 0, s) && k <= |s|
    ensures Holds(mem[k := NUL], 0, s[..k])
  {
    assert mem[0..|s|] == mem[..|s|];
    assert mem[k := NUL][0..k] == mem[0..|s|][..k];
  }

  /** A string stays readable while the memory it lies in keeps its contents. */
  lemma HoldsBelow(mem: seq<char>, mem': seq<char>, p: nat, s: string, k: nat)
    requires Holds(mem, p, s) && p + |s| < k <= |mem| && |mem'| == |mem| && mem'[..k] == mem[..k]
    ensures Holds(mem', p, s)
  {
    SliceOfPrefix(mem, k, p, p + |s|);
    SliceOfPrefix(mem', k, p, p + |s|);
  }

  lemma SliceOfPrefix<T>(a: seq<T>, k: nat, i: nat, j: nat)
    requires i <= j < k <= |a|
    ensures a[..k][i..j] == a[i..j] && a[..k][j] == a[j]
  {}

  // ---------------------------------------------------------------- orders

  /** The strict lexicographic order on character codes; a proper prefix comes first. */
  predicate Less(a: string, b: string) {
    b != [] && (a == [] || a[0] < b[0] || (a[0] == b[0] && Less(a[1..], b[1..])))
  }

  lemma {:induction false} LessTransitive(a: string, b: string, c: string)
    requires Less(a, b) && Less(b, c)
    ensures Less(a, c)
  {
    if a != [] && a[0] == b[0] && b[0] == c[0] {
      LessTransitive(a[1..], b[1..], c[1..]);
    }
  }

  lemma {:induction false} LessTotal(a: string, b: string)
    ensures Less(a, b) || Less(b, a) || a == b
    ensures !(Less(a, b) && Less(b, a))
    ensures !Less(a, a)
  {
    if a != [] {
      LessTotal(a[1..], a[1..]);
      if b != [] && a[0] == b[0] {
        LessTotal(a[1..], b[1..]);
        assert a == [a[0]] + a[1..] && b == [b[0]] + b[1..];
      }
    }
  }

  lemma {:induction false} LessPrefix(p: string, a: string, b: string)
    ensures Less(p + a, p + b) == Less(a, b)
  {
    if p == [] {
      assert p + a == a && p + b == b;
    } else {
      assert (p + a)[1..] == p[1..] + a && (p + b)[1..] == p[1..] + b;
      LessPrefix(p[1..], a, b);
    }
  }

  /** Strings that first differ at k are ordered by their characters there. */
  lemma LessAt(a: string, b: string, k: nat)
    requires k < |a| && k < |b| && a[..k] == b[..k] && a[k] < b[k]
    ensures Less(a, b) && !Less(b, a)
  {
    assert a == a[..k] + a[k..] && b == a[..k] + b[k..];
    LessPrefix(a[..k], a[k..], b[k..]);
    LessTotal(a, b);
  }

  // ---------------------------------------------------------------- split and join

  /** The part of s before the first d, or all of it. */
  function Before(s: string, d: char): (r: string)
    ensures |r| <= |s| && r == s[..|r|]
    ensures d !in r
    ensures |r| < |s| ==> s[|r|] == d
    ensures d !in s ==> r == s
  {
    if s == [] || s[0] == d then [] else [s[0]] + Before(s[1..], d)
  }

  lemma {:induction false} BeforeIs(n: string, d: char, rest: string)
    requires d !in n
    ensures Before(n + [d] + rest, d) == n
  {
    if n != [] {
      BeforeIs(n[1..], d, rest);
      assert (n + [d] + rest)[1..] == n[1..] + [d] + rest;
    }
  }

  /** The pieces of s between occurrences of d; always at least one piece. */
  function Split(s: string, d: char): (r: seq<string>)
    ensures |r| >= 1
    ensures forall i :: 0 <= i < |r| ==> d !in r[i]
    decreases |s|
  {
    var b := Before(s, d);
    if |b| == |s| then [s] else [b] + Split(s[|b| + 1..], d)
  }

  function Join(ss: seq<string>, d: char): string {
    if ss == [] then [] else if |ss| == 1 then ss[0] else ss[0] + [d] + Join(ss[1..], d)
  }

  lemma JoinCons(x: string, ss: seq<string>, d: char)
    requires ss != []
    ensures Join([x] + ss, d) == x + [d] + Join(ss, d)
  {
    assert ([x] + ss)[1..] == ss;
  }

  lemma SplitCons(x: string, d: char, rest: string)
    requires d !in x
    ensures Split(x + [d] + rest, d) == [x] + Split(rest, d)
  {
    BeforeIs(x, d, rest);
    assert (x + [d] + rest)[|x| + 1..] == rest;
  }

  lemma SplitHead(s: string, d: char)
    ensures var b := Before(s, d);
      Split(s, d)[0] == b && Split(s, d) == if |b| == |s| then [s] else [b] + Split(s[|b| + 1..], d)
  {
    hide Before;
  }

  lemma {:induction false} JoinSplit(s: string, d: char)
    ensures Join(Split(s, d), d) == s
    decreases |s|
  {
    var b := Before(s, d);
    if |b| < |s| {
      var rest := s[|b| + 1..];
      assert s == b + [d] + rest;
      SplitCons(b, d, rest);
      JoinCons(b, Split(rest, d), d);
      JoinSplit(rest, d);
    }
  }

  lemma {:induction false} SplitJoin(ss: seq<string>, d: char)
    requires ss != []
    requires forall i :: 0 <= i < |ss| ==> d !in ss[i]
    ensures Split(Join(ss, d), d) == ss
  {
    hide Before, Split;
    if |ss| == 1 {
      SplitHead(ss[0], d);
      assert ss == [ss[0]];
    } else {
      SplitJoin(ss[1..], d);
      assert ss == [ss[0]] + ss[1..];
      JoinCons(ss[0], ss[1..], d);
      SplitCons(ss[0], d, Join(ss[1..], d));
    }
  }

  /** Join is injective on nonempty lists of pieces that are free of the separator. */
  lemma JoinInjective(a: seq<string>, b: seq<string>, d: char)
    requires a != [] && b != []
    requires forall i :: 0 <= i < |a| ==> d !in a[i]
    requires forall i :: 0 <= i < |b| ==> d !in b[i]
    requires Join(a, d) == Join(b, d)
    ensures a == b
  {
    SplitJoin(a, d);
    SplitJoin(b, d);
  }

  lemma {:induction false} JoinSnoc(ss: seq<string>, x: string, d: char)
    requires ss != []
    ensures Join(ss + [x], d) == Join(ss, d) + [d] + x
  {
    if |ss| == 1 {
      assert ss + [x] == [ss[0], x];
      assert (ss + [x])[1..] == [x];
    } else {
      JoinSnoc(ss[1..], x, d);
      assert (ss + [x])[1..] == ss[1..] + [x];
      assert Join(ss + [x], d) == ss[0] + [d] + (Join(ss[1..], d) + [d] + x);
    }
  }

  /** The pieces, each followed by d. */
  function EachThen(ss: seq<string>, d: char): string {
    if ss == [] then [] else EachThen(ss[..|ss| - 1], d) + ss[|ss| - 1] + [d]
  }

  lemma EachThenSnoc(ss: seq<string>, x: string, d: char)
    ensures EachThen(ss + [x], d) == EachThen(ss, d) + x + [d]
  {
    assert (ss + [x])[..|ss|] == ss;
  }

  lemma {:induction false} EachThenJoin(ss: seq<string>, d: char)
    requires ss != []
    ensures EachThen(ss, d) == Join(ss, d) + [d]
  {
    var n := |ss| - 1;
    var front := ss[..n];
    assert ss == front + [ss[n]];
    if n > 0 {
      EachThenJoin(front, d);
      JoinSnoc(front, ss[n], d);
    }
  }

  lemma {:induction false} JoinLacks(ss: seq<string>, d: char, c: char)
    requires c != d
    requires forall i :: 0 <= i < |ss| ==> c !in ss[i]
    ensures c !in Join(ss, d)
  {
    if |ss| > 1 {
      JoinLacks(ss[1..], d, c);
    }
  }

  // ---------------------------------------------------------------- lists

  lemma Nothing<T>(a: seq<T>)
    ensures a + [] == a && [] + a == a
  {}

  lemma Regroup<T>(a: seq<T>, b: seq<T>, c: seq<T>)
    ensures a + b + c == a + (b + c)
  {}

  lemma RegroupFour<T>(a: seq<T>, b: seq<T>, c: seq<T>, d: seq<T>)
    ensures a + b + c + d == a + (b + c + d)
  {}

  lemma LastUpdate<T>(s: seq<T>, x: T)
    requires s != []
    ensures s[|s| - 1 := x] == s[..|s| - 1] + [x]
    ensures s == s[..|s| - 1] + [s[|s| - 1]]
  {}

  function Reverse<T>(s: seq<T>): seq<T> {
    if s == [] then [] else Reverse(s[1..]) + [s[0]]
  }

  lemma {:induction false} ReverseAppend<T>(a: seq<T>, b: seq<T>)
    ensures Reverse(a + b) == Reverse(b) + Reverse(a)
  {
    if a == [] {
      assert a + b == b;
    } else {
      assert (a + b)[1..] == a[1..] + b;
      ReverseAppend(a[1..], b);
    }
  }

  lemma {:induction false} ReverseMembers<T>(s: seq<T>, x: T)
    ensures x in Reverse(s) <==> x in s
  {
    if s != [] { ReverseMembers(s[1..], x); }
  }

  function Concat<T>(ss: seq<seq<T>>): seq<T> {
    if ss == [] then [] else ss[0] + Concat(ss[1..])
  }

  lemma {:induction false} ConcatAppend<T>(a: seq<seq<T>>, b: seq<seq<T>>)
    ensures Concat(a + b) == Concat(a) + Concat(b)
  {
    if a == [] {
      assert a + b == b;
    } else {
      assert (a + b)[1..] == a[1..] + b;
      ConcatAppend(a[1..], b);
    }
  }

  lemma ConcatSnoc<T>(a: seq<seq<T>>, x: seq<T>)
    ensures Concat(a + [x]) == Concat(a) + x
  {
    ConcatAppend(a, [x]);
    assert Concat([x]) == x + Concat<T>([]) == x;
  }
}
