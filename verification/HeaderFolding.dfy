/** Taking line folds out of a header value, as src/request.c does while it copies the value. */
module HeaderFolding {
  import opened Strings
  import opened Writers

  /** A CRLF followed by a blank: the value goes on in the next line. */
  predicate FoldAt(v: string) {
    |v| >= 3 && v[0] == '\r' && v[1] == '\n' && IsBlank(v[2])
  }

  lemma {:induction false} LTrimShrinks(s: string)
    ensures |LTrim(s)| <= |s|
  {
    if s != [] { LTrimShrinks(s[1..]); }
  }

  /** The copy loop: `out` has been written, v is still to be read. */
  function FoldInto(out: string, v: string): string
    decreases |v|
  {
    if v == [] then out
    else if FoldAt(v) then LTrimShrinks(v[3..]); FoldInto(RTrim(out), LTrim(v[3..]))
    else FoldInto(out + [v[0]], v[1..])
  }

  /** The length of v up to its first fold. */
  function FirstFold(v: string): (p: nat)
    ensures p <= |v|
    ensures p < |v| ==> FoldAt(v[p..])
  {
    if v == [] || FoldAt(v) then 0 else 1 + FirstFold(v[1..])
  }

  /** v with every fold, and the blanks around it, taken out. */
  function Unfolded(v: string): string
    decreases |v|
  {
    var p := FirstFold(v);
    if p == |v| then v
    else LTrimShrinks(v[p + 3..]); RTrim(v[..p]) + Unfolded(LTrim(v[p + 3..]))
  }

  lemma {:induction false} FoldIntoPrefix(y: string, out: string, v: string)
    requires RTrim(y) == y
    ensures FoldInto(y + out, v) == y + FoldInto(out, v)
    decreases |v|
  {
    if v != [] {
      if FoldAt(v) {
        RTrimAppend(y, out);
        LTrimShrinks(v[3..]);
        FoldIntoPrefix(y, RTrim(out), LTrim(v[3..]));
      } else {
        assert y + out + [v[0]] == y + (out + [v[0]]);
        FoldIntoPrefix(y, out + [v[0]], v[1..]);
      }
    }
  }

  /** Up to the first fold the copy loop copies. */
  lemma {:induction false} FoldIntoCopies(out: string, v: string)
    ensures var p := FirstFold(v);
      FoldInto(out, v) == if p == |v| then out + v else FoldInto(RTrim(out + v[..p]), LTrim(v[p + 3..]))
    decreases |v|
  {
    if v == [] {
      assert out + v == out;
    } else if FoldAt(v) {
      assert out + v[..0] == out;
    } else {
      FoldIntoCopies(out + [v[0]], v[1..]);
      var p := FirstFold(v);
      if p == |v| {
        assert out + [v[0]] + v[1..] == out + v;
      } else {
        assert out + [v[0]] + v[1..][..p - 1] == out + v[..p];
        assert v[1..][p - 1 + 3..] == v[p + 3..];
      }
    }
  }

  /** The copy loop takes the folds out. */
  lemma {:induction false} FoldIntoUnfolds(v: string)
    ensures FoldInto([], v) == Unfolded(v)
    decreases |v|
  {
    var p := FirstFold(v);
    FoldIntoCopies([], v);
    if p < |v| {
      LTrimShrinks(v[p + 3..]);
      RTrimIsTrimmed(v[..p]);
      assert [] + v[..p] == v[..p];
      var t := RTrim(v[..p]);
      assert t + [] == t;
      FoldIntoPrefix(t, [], LTrim(v[p + 3..]));
      FoldIntoUnfolds(LTrim(v[p + 3..]));
    } else {
      assert [] + v == v;
    }
  }

  lemma {:induction false} LTrimChars(s: string, c: char)
    requires c !in s
    ensures c !in LTrim(s)
  {
    if s != [] { LTrimChars(s[1..], c); }
  }

  /** Folding adds no character. */
  lemma {:induction false} UnfoldedChars(v: string, c: char)
    requires c !in v
    ensures c !in Unfolded(v)
    decreases |v|
  {
    var p := FirstFold(v);
    if p < |v| {
      LTrimShrinks(v[p + 3..]);
      LTrimChars(v[p + 3..], c);
      UnfoldedChars(LTrim(v[p + 3..]), c);
      RTrimIsTrimmed(v[..p]);
    }
  }

  lemma {:induction false} NoFold(v: string)
    requires '\r' !in v
    ensures FirstFold(v) == |v| && Unfolded(v) == v
  {
    if v != [] { NoFold(v[1..]); }
  }

  lemma {:induction false} FoldComesFirst(a: string, rest: string)
    requires '\r' !in a && |rest| >= 3 && rest[0] == '\r' && rest[1] == '\n' && rest[2] in [' ', '\t']
    ensures FirstFold(a + rest) == |a|
  {
    if a == [] {
      assert a + rest == rest;
    } else {
      assert (a + rest)[1..] == a[1..] + rest;
      FoldComesFirst(a[1..], rest);
    }
  }

  lemma FirstFoldOut(front: string, rest: string)
    requires '\r' !in front && |rest| >= 3 && rest[0] == '\r' && rest[1] == '\n' && rest[2] in [' ', '\t']
    ensures Unfolded(front + rest) == RTrim(front) + Unfolded(LTrim(rest[3..]))
  {
    hide RTrim, LTrim, FirstFold;
    var v := front + rest;
    FoldComesFirst(front, rest);
    assert v[..|front|] == front && v[|front| + 3..] == rest[3..];
    LTrimShrinks(rest[3..]);
  }

  /** A fold, written out: a carriage return and a line feed with at least one space or tab behind them are
      taken out together with all spaces and tabs around them, and the rest is unfolded likewise. */
  lemma FoldTakenOut(a: string, before: string, after: string, rest: string)
    requires '\r' !in a && (a == [] || a[|a| - 1] !in [' ', '\t'])
    requires forall i :: 0 <= i < |before| ==> before[i] in [' ', '\t']
    requires after != [] && forall i :: 0 <= i < |after| ==> after[i] in [' ', '\t']
    requires rest == [] || rest[0] !in [' ', '\t']
    ensures Unfolded(a + before + "\r\n" + after + rest) == a + Unfolded(rest)
  {
    hide RTrim, LTrim, Unfolded;
    var tail := "\r\n" + after + rest;
    FoldPieces(a, before, "\r\n", after, rest);
    FirstFoldOut(a + before, tail);
    BlanksTrimmed(a, before);
    BlanksSkipped(after[1..], rest);
  }

  lemma FoldPieces<T>(a: seq<T>, b: seq<T>, c: seq<T>, d: seq<T>, e: seq<T>)
    requires |c| == 2 && d != []
    ensures a + b + c + d + e == (a + b) + (c + d + e)
    ensures var t := c + d + e; t[0] == c[0] && t[1] == c[1] && t[2] == d[0] && t[3..] == d[1..] + e
  {}

  predicate IsSpace(c: char) { IsBlank(c) || c == '\r' || c == '\n' }

  /** The visible characters of s. */
  function Ink(s: string): string {
    if s == [] then [] else (if IsSpace(s[0]) then [] else [s[0]]) + Ink(s[1..])
  }

  lemma {:induction false} InkAppend(a: string, b: string)
    ensures Ink(a + b) == Ink(a) + Ink(b)
  {
    if a == [] {
      assert a + b == b;
    } else {
      assert (a + b)[1..] == a[1..] + b;
      InkAppend(a[1..], b);
    }
  }

  lemma {:induction false} InkRTrim(s: string)
    ensures Ink(RTrim(s)) == Ink(s)
  {
    if s != [] && IsBlank(s[|s| - 1]) {
      var front, last := s[..|s| - 1], [s[|s| - 1]];
      InkRTrim(front);
      assert s == front + last;
      InkAppend(front, last);
      assert last[1..] == [];
      assert Ink(last) == [];
    }
  }

  lemma {:induction false} InkLTrim(s: string)
    ensures Ink(LTrim(s)) == Ink(s)
  {
    if s != [] { InkLTrim(s[1..]); }
  }

  lemma InkOfFold(v: string)
    requires FoldAt(v)
    ensures Ink(v) == Ink(v[3..])
  {
    assert v[1..][1..][1..] == v[3..];
    assert Ink(v[1..][1..]) == Ink(v[3..]);
  }

  /** Folding loses no visible character. */
  lemma {:induction false} UnfoldedKeepsInk(v: string)
    ensures Ink(Unfolded(v)) == Ink(v)
    decreases |v|
  {
    var p := FirstFold(v);
    if p < |v| {
      var rest := v[p + 3..];
      LTrimShrinks(rest);
      UnfoldedKeepsInk(LTrim(rest));
      InkLTrim(rest);
      InkRTrim(v[..p]);
      InkAppend(RTrim(v[..p]), Unfolded(LTrim(rest)));
      assert v == v[..p] + v[p..];
      InkAppend(v[..p], v[p..]);
      InkOfFold(v[p..]);
      assert v[p..][3..] == rest;
    }
  }

  /** The loop that copies a header value: a fold is skipped together with the blanks after it, and
      the blanks already copied before it are taken back. */
  method CopyValue(value: string, buffer: Writer)
    requires buffer.Valid() && RTrim(buffer.Text()) == buffer.Text() != []
    requires buffer.n + |value| <= buffer.buf.Length
    modifies buffer, buffer.buf
    ensures buffer.Valid() && buffer.n <= old(buffer.n) + |value|
    ensures buffer.Text() == old(buffer.Text()) + Unfolded(value)
  {
    ghost var base := buffer.Text();
    var c := value;
    assert base + [] == base;
    while c != []
      invariant buffer.Valid() && buffer.n + |c| <= old(buffer.n) + |value|
      invariant RTrim(buffer.Text()) != []
      invariant FoldInto(buffer.Text(), c) == FoldInto(base, value)
      decreases |c|
    {
      if FoldAt(c) {
        LTrimShrinks(c[3..]);
        ghost var before := c;
        c := c[3..];
        while c != [] && IsBlank(c[0])
          invariant LTrim(c) == LTrim(before[3..]) && |c| <= |before| - 3
          decreases c
        {
          c := c[1..];
        }
        RTrimIsTrimmed(buffer.Text());
        buffer.BackOverBlanks();
      } else {
        RTrimPut(buffer.Text(), c[0]);
        buffer.Put(c[0]);
        c := c[1..];
      }
    }
    FoldIntoPrefix(base, [], value);
    FoldIntoUnfolds(value);
  }

  lemma RTrimPut(s: string, c: char)
    requires RTrim(s) != []
    ensures RTrim(s + [c]) != []
  {
    assert (s + [c])[..|s|] == s;
  }
}
