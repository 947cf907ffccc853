/** The bounded string buffers of inc/string_buffer.h. */
module StringBuffers {
  import opened Strings

  /** A string_buffer(name, cap): what C code can observe of it. text is the C string it holds,
      len the value of nameLen. */
  datatype StrBuf = StrBuf(cap: nat, text: string, len: nat) {

    ghost predicate Valid() {
      len <= cap && |text| == Stored(cap, len)
    }

    /** The buffer after string_buffer_append(sb, s, |s|, fit). */
    function Append(s: string): StrBuf {
      StrBuf(cap, text + s[..Room(|s|)], if len + |s| <= cap then len + |s| else cap)
    }

    /** How many of n characters snprintf writes into size sizeof(sb) - len - 1 == cap - len. */
    function Room(n: nat): (r: nat)
      ensures r <= n
    {
      if len >= cap then 0 else if n <= cap - len - 1 then n else cap - len - 1
    }

    /** The flag that append sets. */
    predicate Fits(s: string) { len + |s| <= cap }
  }

  function Empty(cap: nat): StrBuf { StrBuf(cap, "", 0) }

  /** The number of characters kept of len appended ones: the macro leaves one byte unused. */
  function Stored(cap: nat, len: nat): nat {
    if len < cap then len else if cap == 0 then 0 else cap - 1
  }

  /** The part of s that a buffer of capacity cap keeps. */
  function Clip(cap: nat, s: string): string { s[..Stored(cap, if |s| <= cap then |s| else cap)] }

  /** Appending in two chunks is appending at once, and the last flag tells about the whole. */
  lemma AppendTwice(b: StrBuf, x: string, y: string)
    requires b.Valid()
    ensures b.Append(x).Valid()
    ensures b.Append(x).Append(y) == b.Append(x + y)
    ensures b.Append(x).Fits(y) ==> b.Fits(x + y) || (!b.Fits(x) && y == [])
    ensures b.Fits(x + y) ==> b.Append(x).Fits(y)
  {
    var k := b.Room(|x|);
    assert (x + y)[..b.Room(|x + y|)] == x[..k] + y[..b.Append(x).Room(|y|)];
    assert b.text + x[..k] + y[..b.Append(x).Room(|y|)] == b.text + (x[..k] + y[..b.Append(x).Room(|y|)]);
  }

  lemma AppendNothing(b: StrBuf)
    requires b.Valid()
    ensures b.Append([]) == b
  {
    assert b.text + [][..0] == b.text;
  }

  function AppendAll(b: StrBuf, chunks: seq<string>): StrBuf {
    if chunks == [] then b else AppendAll(b, chunks[..|chunks| - 1]).Append(chunks[|chunks| - 1])
  }

  /** A buffer of capacity cap into which the text t has gone: it keeps the first cap - 1
      characters, and its length stops at cap. */
  function Filled(cap: nat, t: string): (b: StrBuf)
    ensures b.Valid() && b.cap == cap
  {
    StrBuf(cap, Clip(cap, t), if |t| <= cap then |t| else cap)
  }

  /** A text survives whole exactly when it is shorter than the buffer's capacity. */
  lemma KeptWhole(cap: nat, t: string)
    ensures Filled(cap, t).text == t <==> |t| < cap || t == []
  {}

  /** The first n characters of a text, or all of it. */
  function Kept(t: string, n: nat): string { if |t| <= n then t else t[..n] }

  lemma FilledKeeps(cap: nat, t: string)
    requires cap > 0
    ensures Filled(cap, t).text == Kept(t, cap - 1)
  {}

  /** What a buffer holds does not depend on how the text was cut into chunks. */
  lemma {:induction false} ChunksDoNotMatter(cap: nat, chunks: seq<string>)
    ensures AppendAll(Empty(cap), chunks) == Filled(cap, Concat(chunks))
  {
    if chunks != [] {
      var n := |chunks| - 1;
      hide Filled;
      ChunksDoNotMatter(cap, chunks[..n]);
      assert chunks == chunks[..n] + [chunks[n]];
      ConcatSnoc(chunks[..n], chunks[n]);
      FilledAppend(cap, Concat(chunks[..n]), chunks[n]);
    } else {
      assert Filled(cap, "") == Empty(cap);
    }
  }

  lemma FilledAppend(cap: nat, s: string, x: string)
    ensures Filled(cap, s).Append(x) == Filled(cap, s + x)
  {
    var b := Filled(cap, s);
    assert Clip(cap, s) + x[..b.Room(|x|)] == Clip(cap, s + x);
  }

  /** The last append reports a fit exactly when all text together has at most cap characters; at
      exactly cap it reports a fit although the last character is not kept. */
  lemma FitFlag(cap: nat, chunks: seq<string>, last: string)
    requires last != [] || |Concat(chunks)| <= cap
    ensures var t := Concat(chunks + [last]);
      && (AppendAll(Empty(cap), chunks).Fits(last) <==> |t| <= cap)
      && (|t| == cap > 0 ==> AppendAll(Empty(cap), chunks + [last]).text == t[..cap - 1])
  {
    hide Concat, AppendAll;
    ConcatSnoc(chunks, last);
    ChunksDoNotMatter(cap, chunks);
    ChunksDoNotMatter(cap, chunks + [last]);
  }

  /** The macros on the char array itself. */
  class StringBuffer {
    const sb: array<char>
    var sbLen: nat
    /** The C string in sb. */
    ghost var text: string

    ghost predicate Valid()
      reads this, sb
    {
      sb.Length > 0 && Value().Valid() && Holds(sb[..], 0, text)
    }

    ghost function Value(): StrBuf
      reads this
      requires sb.Length > 0
    {
      StrBuf(sb.Length - 1, text, sbLen)
    }

    /** string_buffer(name, cap) and string_buffer_initialize. */
    constructor (cap: nat)
      ensures Valid() && Value() == Empty(cap) && fresh(sb)
    {
      sb := new char[cap + 1];
      sbLen, text := 0, "";
      new;
      sb[0] := NUL;
    }

    /** string_buffer_append with len == |str|; str has no terminator inside. */
    method Append(str: string) returns (allFit: bool)
      requires Valid() && NUL !in str
      modifies this, sb
      ensures Valid() && Value() == old(Value()).Append(str)
      ensures allFit == old(Value()).Fits(str)
    {
      hide Holds, Printed;
      var size := sb.Length - sbLen - 1;
      ghost var before, b := sb[..], Value();
      var n := Snprintf(sb, sbLen, size, str);
      PrintedIntoBuffer(before, text, sbLen, size, str);
      text := text + str[..b.Room(|str|)];
      sbLen := sbLen + n;
      if sbLen > sb.Length - 1 {
        sbLen := sb.Length - 1;
        allFit := false;
      } else {
        allFit := true;
      }
    }
  }

  lemma PrintedIntoBuffer(mem: seq<char>, text: string, len: nat, size: nat, s: string)
    requires Holds(mem, 0, text) && len + size < |mem| && NUL !in s
    requires size > 0 ==> |text| == len
    ensures var k := if size == 0 then 0 else if |s| < size then |s| else size - 1;
      Holds(Printed(mem, len, size, s), 0, text + s[..k])
  {
    var k := if size == 0 then 0 else if |s| < size then |s| else size - 1;
    var r := Printed(mem, len, size, s);
    if size > 0 {
      assert r[..len] == mem[..len] == text;
      assert r[0..len + k] == text + s[..k];
      assert r[len + k] == NUL;
    } else {
      assert text + s[..0] == text;
    }
  }
}
