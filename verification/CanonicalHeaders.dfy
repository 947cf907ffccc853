/** The headers block of the AWS Signature Version 4 canonical request, as src/request.c builds it. */
module CanonicalHeaders {
  import opened Strings
  import opened GnomeSort
  import opened KvSort
  import opened Writers
  import opened HeaderFolding

  // ---------------------------------------------------------------- header lines

  function Name(line: string): string { Key(line, ':') }

  function Value(line: string): string
    requires WellFormed(line)
  {
    line[|Name(line)| + 2..]
  }

  /** A header line as the library stores it: a name without blanks, then ": ", then the value. */
  predicate WellFormed(line: string) {
    var n := Name(line);
    n != [] && ' ' !in n && NUL !in line && |n| + 2 <= |line| && line[|n| + 1] == ' '
  }

  // ---------------------------------------------------------------- what the loop writes

  /** The block after one more header: a repeated name replaces the last newline by a comma. */
  function ExtendBlock(block: string, same: bool, line: string): string
    requires WellFormed(line) && (same ==> block != [])
  {
    if same then block[..|block| - 1] + "," + Unfolded(Value(line)) + "\n"
    else block + Lower(Name(line)) + ":" + Unfolded(Value(line)) + "\n"
  }

  predicate AllWellFormed(lines: seq<string>) {
    forall i :: 0 <= i < |lines| ==> WellFormed(lines[i])
  }

  /** line i of lines repeats the name of the line before it. */
  predicate Repeats(lines: seq<string>, i: nat)
    requires i < |lines|
  {
    i > 0 && Name(lines[i - 1]) == Name(lines[i])
  }

  function Block(lines: seq<string>): (r: string)
    requires AllWellFormed(lines)
    ensures lines != [] ==> r != [] && r[|r| - 1] == '\n'
  {
    if lines == [] then []
    else ExtendBlock(Block(lines[..|lines| - 1]), Repeats(lines, |lines| - 1), lines[|lines| - 1])
  }

  /** The signed header names, each followed by a semicolon. */
  function NameList(lines: seq<string>): (r: string)
    requires AllWellFormed(lines)
    ensures lines != [] ==> r != []
  {
    if lines == [] then []
    else
      var n := |lines| - 1;
      NameList(lines[..n]) + (if Repeats(lines, n) then [] else Lower(Name(lines[n])) + ";")
  }

  function LineRoom(line: string): nat { |line| + 1 }

  function NameRoom(line: string): nat { |Name(line)| + 1 }

  /** An upper bound on the buffer space the lines need. */
  function Span(lines: seq<string>): nat { Sum(LineRoom, lines) }

  function NameSpan(lines: seq<string>): nat { Sum(NameRoom, lines) }

  lemma SpanMonotone(lines: seq<string>, i: nat)
    requires i <= |lines|
    ensures Span(lines[..i]) <= Span(lines) && NameSpan(lines[..i]) <= NameSpan(lines)
  {
    SumPrefix(LineRoom, lines, i);
    SumPrefix(NameRoom, lines, i);
  }

  lemma {:induction false} NulFree(lines: seq<string>)
    requires AllWellFormed(lines)
    ensures NUL !in Block(lines) && NUL !in NameList(lines)
  {
    hide Unfolded, Lower, Block, NameList, WellFormed, AllWellFormed, Name, Value, Repeats;
    if lines == [] {
      BlockEmpty(lines);
      assert lines[..0] == lines;
    } else {
      var n := |lines| - 1;
      BlockStep(lines, n);
      NulFree(lines[..n]);
      PartsNulFree(lines[n]);
      assert lines[..n + 1] == lines;
    }
  }

  lemma PartsNulFree(l: string)
    requires WellFormed(l)
    ensures NUL !in Unfolded(Value(l)) && NUL !in Lower(Name(l))
  {
    hide Unfolded, Lower;
    assert NUL !in Value(l) && NUL !in Name(l);
    UnfoldedChars(Value(l), NUL);
    LowerNulFree(Name(l));
  }

  lemma LowerNulFree(s: string)
    requires NUL !in s
    ensures NUL !in Lower(s)
  {}

  lemma BlockEmpty(lines: seq<string>)
    requires AllWellFormed(lines)
    ensures AllWellFormed(lines[..0]) && Block(lines[..0]) == [] && NameList(lines[..0]) == []
    ensures Span(lines[..0]) == 0 && NameSpan(lines[..0]) == 0
  {}

  /** How the block, the name list and the bounds grow by one line. */
  lemma BlockStep(lines: seq<string>, i: nat)
    requires i < |lines| && AllWellFormed(lines)
    ensures Block(lines[..i + 1]) == ExtendBlock(Block(lines[..i]), Repeats(lines, i), lines[i])
    ensures NameList(lines[..i + 1])
         == NameList(lines[..i]) + (if Repeats(lines, i) then [] else Lower(Name(lines[i])) + ";")
    ensures Span(lines[..i + 1]) == Span(lines[..i]) + |lines[i]| + 1
    ensures NameSpan(lines[..i + 1]) == NameSpan(lines[..i]) + |Name(lines[i])| + 1
    ensures WellFormed(lines[i])
    ensures i == 0 ==> !Repeats(lines, i)
    ensures i > 0 ==> WellFormed(lines[i - 1]) && Repeats(lines, i) == (Name(lines[i - 1]) == Name(lines[i]))
    ensures i > 0 ==> |Block(lines[..i])| > 0
    ensures AllWellFormed(lines[..i]) && AllWellFormed(lines[..i + 1])
  {
    hide ExtendBlock, WellFormed, Name;
    var front := lines[..i + 1];
    assert front[..i] == lines[..i] && front[i] == lines[i];
    assert Repeats(front, i) == Repeats(lines, i);
  }

  /** strncmp(a, b, n) == 0 for strings without embedded terminators. */
  predicate StrNEqual(a: string, b: string, n: nat) {
    a[..if n <= |a| then n else |a|] == b[..if n <= |b| then n else |b|]
  }

  /** Comparing as many characters as the previous name and its colon have compares the names. */
  lemma SameNameTest(line: string, prev: string)
    requires WellFormed(line) && WellFormed(prev)
    ensures StrNEqual(line, prev, |Name(prev)| + 1) <==> Name(line) == Name(prev)
  {
    var k := |Name(prev)| + 1;
    assert prev[..k] == Name(prev) + [':'];
    if Name(line) == Name(prev) {
      assert line[..k] == Name(prev) + [':'];
    } else {
      assert StrNEqual(line, prev, k) ==> |line| >= k && line == Name(prev) + [':'] + line[k..];
      BeforeIs(Name(prev), ':', if |line| >= k then line[k..] else []);
    }
  }

  /** Copies a header name in lower case to both buffers. */
  method CopyName(header: string, buffer: Writer, hbuf: Writer)
    requires WellFormed(header)
    requires buffer.Valid() && hbuf.Valid() && buffer != hbuf && buffer.buf != hbuf.buf
    requires buffer.n + |Name(header)| + 1 <= buffer.buf.Length
    requires hbuf.n + |Name(header)| + 1 <= hbuf.buf.Length
    modifies buffer, buffer.buf, hbuf, hbuf.buf
    ensures buffer.Valid() && buffer.Text() == old(buffer.Text()) + Lower(Name(header)) + ":"
    ensures hbuf.Valid() && hbuf.Text() == old(hbuf.Text()) + Lower(Name(header)) + ";"
  {
    ghost var name := Name(header);
    var i := 0;
    while header[i] != ' '
      invariant i <= |name| + 1
      invariant buffer.Valid() && buffer.n == old(buffer.n) + i
      invariant hbuf.Valid() && hbuf.n == old(hbuf.n) + i
      invariant buffer.Text() == old(buffer.Text()) + Lower(header[..i])
      invariant hbuf.Text() == old(hbuf.Text()) + Lower(header[..i])
      decreases |name| + 1 - i
    {
      assert Lower(header[..i + 1]) == Lower(header[..i]) + [LowerChar(header[i])];
      buffer.Put(LowerChar(header[i]));
      hbuf.Put(LowerChar(header[i]));
      i := i + 1;
    }
    assert forall j :: 0 <= j < |name| ==> name[j] == header[j];
    assert Lower(header[..i]) == Lower(name) + ":";
    hbuf.SetLast(';');
  }

  /** One pass of the loop over the sorted headers. */
  method WriteHeader(header: string, prev: string, first: bool, lastHeaderLen: nat, buffer: Writer, hbuf: Writer)
    returns (len: nat)
    requires WellFormed(header)
    requires !first ==> WellFormed(prev) && lastHeaderLen == |Name(prev)| + 1
    requires buffer.Valid() && hbuf.Valid() && buffer != hbuf && buffer.buf != hbuf.buf
    requires !first ==> buffer.n > 0
    requires buffer.n + |header| + 1 <= buffer.buf.Length
    requires hbuf.n + |Name(header)| + 1 <= hbuf.buf.Length
    modifies buffer, buffer.buf, hbuf, hbuf.buf
    ensures buffer.Valid() && hbuf.Valid()
    ensures buffer.n <= old(buffer.n) + |header| + 1
    ensures len == |Name(header)| + 1
    ensures var same := !first && Name(prev) == Name(header);
      && buffer.Text() == ExtendBlock(old(buffer.Text()), same, header)
      && hbuf.Text() == old(hbuf.Text()) + (if same then [] else Lower(Name(header)) + ";")
  {
    hide Unfolded, Lower, Name, Value, Key, Before, WellFormed, RTrim, StrNEqual;
    len := lastHeaderLen;
    NameBeforeSpace(header);
    var same := false;
    if !first {
      SameNameTest(header, prev);
      same := StrNEqual(header, prev, lastHeaderLen);
    }
    if same {
      buffer.SetLast(',');
    } else {
      CopyName(header, buffer, hbuf);
      len := |Before(header, ' ')|;
    }
    EndsTrimmed(buffer.Text());
    CopyValue(header[len + 1..], buffer);
    buffer.Put('\n');
  }

  lemma NameBeforeSpace(header: string)
    requires WellFormed(header)
    ensures Before(header, ' ') == Name(header) + ":"
    ensures |Name(header)| + 2 <= |header| && header[|Name(header)| + 2..] == Value(header)
    ensures |Before(header, ' ')| == |Name(header)| + 1
  {
    var name := Name(header);
    assert header == (name + ":") + [' '] + Value(header);
    BeforeIs(name + ":", ' ', Value(header));
  }

  lemma EndsTrimmed(s: string)
    requires s != [] && !IsBlank(s[|s| - 1])
    ensures RTrim(s) == s
  {}

  /** The loop of canonicalize_signature_headers over the sorted headers. */
  method WriteHeaders(sorted: array<string>, count: nat, buffer: Writer, hbuf: Writer)
    requires 0 < count <= sorted.Length && AllWellFormed(sorted[..count])
    requires buffer.Valid() && hbuf.Valid() && buffer != hbuf && buffer.buf != hbuf.buf
    requires buffer.n == 0 && hbuf.n == 0
    requires Span(sorted[..count]) < buffer.buf.Length
    requires NameSpan(sorted[..count]) <= hbuf.buf.Length
    modifies buffer, buffer.buf, hbuf, hbuf.buf
    ensures Holds(buffer.buf[..], 0, Block(sorted[..count]))
    ensures Holds(hbuf.buf[..], 0, NameList(sorted[..count])[..|NameList(sorted[..count])| - 1])
  {
    hide Block, ExtendBlock, NameList, Span, NameSpan, AllWellFormed, WellFormed, Repeats, Name, Lower;
    ghost var lines := sorted[..count];
    var lastHeaderLen, i := 0, 0;
    BlockEmpty(lines);
    assert lines[..0] == [];
    while i < count
      invariant 0 <= i <= count && sorted[..count] == lines
      invariant buffer.Valid() && hbuf.Valid() && AllWellFormed(lines[..i])
      invariant buffer.Text() == Block(lines[..i]) && hbuf.Text() == NameList(lines[..i])
      invariant buffer.n <= Span(lines[..i]) && hbuf.n <= NameSpan(lines[..i])
      invariant i > 0 ==> lastHeaderLen == |Name(lines[i - 1])| + 1
    {
      BlockStep(lines, i);
      SpanMonotone(lines, i + 1);
      var prev := if i > 0 then sorted[i - 1] else sorted[i];
      assert sorted[i] == lines[i];
      lastHeaderLen := WriteHeader(sorted[i], prev, i == 0, lastHeaderLen, buffer, hbuf);
      i := i + 1;
    }
    assert lines[..count] == lines;
    NulFree(lines);
    ghost var names := hbuf.Text();
    hbuf.SetLast(NUL);
    assert hbuf.buf[..][..hbuf.n] == names[..|names| - 1] + [NUL];
    buffer.Terminate();
  }
}
