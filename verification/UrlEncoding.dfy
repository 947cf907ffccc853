/** Percent-encoding and number parsing of src/util.c. The encoding is that of RFC 3986,
    sections 2.1 and 2.3. */
module UrlEncoding {
  import opened Strings
  import opened Writers

  const HEX := "0123456789ABCDEF"

  /** Every character stands for one byte. */
  ghost predicate Bytes(s: string) { forall i :: 0 <= i < |s| ==> s[i] as int < 256 }

  predicate Unreserved(c: char) {
    IsAlpha(c) || IsDigit(c) || c == '-' || c == '_' || c == '.' || c == '~'
  }

  predicate PassedThrough(c: char, encodeSlash: bool) { Unreserved(c) || (c == '/' && !encodeSlash) }

  function EncodeChar(c: char, encodeSlash: bool): string
    requires c as int < 256
  {
    if PassedThrough(c, encodeSlash) then [c]
    else ['%', HEX[c as int / 16], HEX[c as int % 16]]
  }

  function Encode(s: string, encodeSlash: bool): (r: string)
    requires Bytes(s)
    ensures |s| <= |r| <= 3 * |s|
  {
    if s == [] then [] else Encode(s[..|s| - 1], encodeSlash) + EncodeChar(s[|s| - 1], encodeSlash)
  }

  /** urlEncode. Returns 0 exactly when the source is too long, and then leaves the encoding of the
      characters that are allowed. inside says whether the terminator goes into the buffer, too; one
      that falls behind it is not written here. */
  method UrlEncode(dest: array<char>, src: string, maxSrcSize: nat, encodeSlash: bool) returns (ok: bool, inside: bool)
    requires Bytes(src) && NUL !in src
    requires |Encode(Allowed(src, maxSrcSize), encodeSlash)| <= dest.Length
    modifies dest
    ensures ok <==> |src| <= maxSrcSize
    ensures var e := Encode(Allowed(src, maxSrcSize), encodeSlash);
      && dest[..|e|] == e
      && (inside <==> |e| < dest.Length)
      && (inside ==> Holds(dest[..], 0, e))
  {
    hide Encode, EncodeChar, PassedThrough, Holds, Bytes;
    ghost var allowed := Allowed(src, maxSrcSize);
    var w := new Writer(dest);
    var len := 0;
    EncodeStep(src, 0, encodeSlash);
    while len < |src|
      invariant 0 <= len <= |allowed| && w.Valid() && fresh(w) && w.buf == dest
      invariant Bytes(src[..len]) && w.Text() == Encode(src[..len], encodeSlash)
    {
      EncodeStep(src, len, encodeSlash);
      EncodeMonotone(src, len, |allowed|, encodeSlash);
      if len + 1 > maxSrcSize {
        inside := TerminateEncoding(w, src[..len], encodeSlash);
        return false, inside;
      }
      EncodeMonotone(src, len + 1, |allowed|, encodeSlash);
      PutEncoded(w, src[len], encodeSlash);
      len := len + 1;
    }
    assert src[..len] == src;
    inside := TerminateEncoding(w, src, encodeSlash);
    return true, inside;
  }

  method TerminateEncoding(w: Writer, src: string, encodeSlash: bool) returns (inside: bool)
    requires Bytes(src) && w.Valid() && w.Text() == Encode(src, encodeSlash)
    modifies w.buf
    ensures w.buf[..w.n] == Encode(src, encodeSlash) && |Encode(src, encodeSlash)| == w.n
    ensures inside <==> w.n < w.buf.Length
    ensures inside ==> Holds(w.buf[..], 0, Encode(src, encodeSlash))
  {
    hide Encode, Holds, Bytes;
    EncodeNulFree(src, encodeSlash);
    inside := w.n < w.buf.Length;
    if inside { w.Terminate(); }
  }

  function Allowed(src: string, maxSrcSize: nat): string {
    src[..if |src| <= maxSrcSize then |src| else maxSrcSize]
  }

  method PutEncoded(w: Writer, c: char, encodeSlash: bool)
    requires w.Valid() && c as int < 256
    requires w.n + |EncodeChar(c, encodeSlash)| <= w.buf.Length
    modifies w, w.buf
    ensures w.Valid() && w.Text() == old(w.Text()) + EncodeChar(c, encodeSlash)
  {
    if PassedThrough(c, encodeSlash) {
      w.Put(c);
    } else {
      w.Put('%');
      w.Put(HEX[c as int / 16]);
      w.Put(HEX[c as int % 16]);
    }
  }

  lemma EncodeStep(src: string, len: nat, encodeSlash: bool)
    requires Bytes(src) && len <= |src|
    ensures Bytes(src[..len]) && Encode(src[..0], encodeSlash) == []
    ensures len < |src| ==> src[len] as int < 256 && Bytes(src[..len + 1])
    ensures len < |src| ==>
      Encode(src[..len + 1], encodeSlash) == Encode(src[..len], encodeSlash) + EncodeChar(src[len], encodeSlash)
  {
    if len < |src| {
      assert src[..len + 1][..len] == src[..len];
    }
  }

  lemma {:induction false} EncodeMonotone(src: string, i: nat, j: nat, encodeSlash: bool)
    requires Bytes(src) && i <= j <= |src|
    ensures Bytes(src[..i]) && Bytes(src[..j])
    ensures |Encode(src[..i], encodeSlash)| <= |Encode(src[..j], encodeSlash)|
    decreases j - i
  {
    hide Encode, Bytes, EncodeChar;
    EncodeStep(src, i, encodeSlash);
    if i < j {
      EncodeMonotone(src, i + 1, j, encodeSlash);
    }
  }

  /** The characters an encoding is made of. */
  predicate Encoded(c: char, encodeSlash: bool) { PassedThrough(c, encodeSlash) || c == '%' }

  lemma {:induction false} EncodeAlphabet(s: string, encodeSlash: bool)
    requires Bytes(s)
    ensures forall i :: 0 <= i < |Encode(s, encodeSlash)| ==> Encoded(Encode(s, encodeSlash)[i], encodeSlash)
  {
    if s != [] {
      EncodeAlphabet(s[..|s| - 1], encodeSlash);
      HexUnreserved(s[|s| - 1] as int / 16);
      HexUnreserved(s[|s| - 1] as int % 16);
    }
  }

  lemma EncodeNulFree(s: string, encodeSlash: bool)
    requires Bytes(s)
    ensures NUL !in Encode(s, encodeSlash)
  {
    EncodeAlphabet(s, encodeSlash);
  }

  lemma HexUnreserved(d: int)
    requires 0 <= d < 16
    ensures Unreserved(HEX[d]) && HexDigit(HEX[d]) == Some(d)
  {}

  // ---------------------------------------------------------------- decoding

  function HexDigit(c: char): Option<int> {
    if '0' <= c <= '9' then Some(c as int - '0' as int)
    else if 'A' <= c <= 'F' then Some(c as int - 'A' as int + 10)
    else None
  }

  /** Percent-decoding as section 2.1 of RFC 3986 describes it: "%XY" stands for the byte with
      that hexadecimal value, and any other character for itself. */
  function Decode(s: string): string
    decreases |s|
  {
    if s == [] then []
    else if s[0] == '%' && |s| >= 3 && HexDigit(s[1]).Some? && HexDigit(s[2]).Some?
    then [(16 * HexDigit(s[1]).value + HexDigit(s[2]).value) as char] + Decode(s[3..])
    else [s[0]] + Decode(s[1..])
  }

  lemma DecodeChar(c: char, encodeSlash: bool, rest: string)
    requires c as int < 256
    ensures Decode(EncodeChar(c, encodeSlash) + rest) == [c] + Decode(rest)
  {
    var e := EncodeChar(c, encodeSlash);
    if PassedThrough(c, encodeSlash) {
      assert (e + rest)[1..] == rest;
    } else {
      HexUnreserved(c as int / 16);
      HexUnreserved(c as int % 16);
      assert (e + rest)[3..] == rest;
    }
  }

  /** Decoding inverts encoding. */
  lemma {:induction false} DecodeEncode(s: string, encodeSlash: bool, rest: string)
    requires Bytes(s)
    ensures Decode(Encode(s, encodeSlash) + rest) == s + Decode(rest)
  {
    hide Encode, EncodeChar, Decode, Bytes;
    EncodeStep(s, |s|, encodeSlash);
    if s == [] {
      assert s[..0] == s;
      assert Encode(s, encodeSlash) + rest == rest;
    } else {
      var n := |s| - 1;
      EncodeStep(s, n, encodeSlash);
      assert s[..n + 1] == s;
      var e := EncodeChar(s[n], encodeSlash);
      DecodeEncode(s[..n], encodeSlash, e + rest);
      DecodeChar(s[n], encodeSlash, rest);
      assert Encode(s, encodeSlash) + rest == Encode(s[..n], encodeSlash) + (e + rest);
      assert s[..n] + ([s[n]] + Decode(rest)) == s + Decode(rest);
    }
  }

  lemma EncodingRoundTrip(s: string, encodeSlash: bool)
    requires Bytes(s)
    ensures Decode(Encode(s, encodeSlash)) == s
  {
    hide Encode;
    DecodeEncode(s, encodeSlash, []);
    assert Encode(s, encodeSlash) + [] == Encode(s, encodeSlash);
  }

  // ---------------------------------------------------------------- which character becomes what

  lemma {:induction false} EncodeAppend(a: string, b: string, encodeSlash: bool)
    requires Bytes(a) && Bytes(b)
    ensures Bytes(a + b) && Encode(a + b, encodeSlash) == Encode(a, encodeSlash) + Encode(b, encodeSlash)
    decreases |b|
  {
    hide Encode, EncodeChar;
    EncodeStep(a, 0, encodeSlash);
    if b == [] {
      Nothing(a);
      EncodeStep(b, 0, encodeSlash);
      Nothing(Encode(a, encodeSlash));
    } else {
      var n := |b| - 1;
      assert (a + b)[..|a| + n] == a + b[..n] && (a + b)[..|a| + n + 1] == a + b && b[..n + 1] == b;
      EncodeAppend(a, b[..n], encodeSlash);
      EncodeStep(a + b, |a| + n, encodeSlash);
      EncodeStep(b, n, encodeSlash);
      Regroup(Encode(a, encodeSlash), Encode(b[..n], encodeSlash), EncodeChar(b[n], encodeSlash));
    }
  }

  /** The encoding, character by character: letters, digits and "-_.~" stay, "/" stays exactly when it is
      not to be encoded, and any other byte becomes "%" and its value in two upper-case digits. */
  lemma EncodedByte(c: char, encodeSlash: bool)
    requires c as int < 256
    ensures Bytes([c])
    ensures Encode([c], encodeSlash) ==
      if 'a' <= c <= 'z' || 'A' <= c <= 'Z' || '0' <= c <= '9' || c in ['-', '_', '.', '~'] then [c]
      else if c == '/' && !encodeSlash then ['/']
      else ['%', "0123456789ABCDEF"[c as int / 16], "0123456789ABCDEF"[c as int % 16]]
  {
    assert [c][..0] == [];
  }

  /** A text is encoded character by character. */
  lemma EncodedAt(s: string, i: nat, encodeSlash: bool)
    requires Bytes(s) && i < |s|
    ensures Bytes(s[..i]) && Bytes([s[i]]) && Bytes(s[i + 1..])
    ensures Encode(s, encodeSlash)
         == Encode(s[..i], encodeSlash) + Encode([s[i]], encodeSlash) + Encode(s[i + 1..], encodeSlash)
  {
    hide Encode;
    EncodeAppend(s[..i], [s[i]], encodeSlash);
    EncodeAppend(s[..i] + [s[i]], s[i + 1..], encodeSlash);
    assert s == s[..i] + [s[i]] + s[i + 1..];
  }

  /** The key of an object: its directories stay recognisable. The pieces between the slashes of the
      encoded key are the encoded pieces of the key. */
  lemma KeyPieces(k: string)
    requires Bytes(k)
    ensures var sent, pieces := Split(Encode(k, false), '/'), Split(k, '/');
      |sent| == |pieces| && forall i :: 0 <= i < |pieces| ==> Decode(sent[i]) == pieces[i]
  {
    hide Encode, Decode, Split, Bytes, Join;
    var pieces := Split(k, '/');
    JoinSplit(k, '/');
    PiecesBytes(k);
    EncodeJoin(pieces);
    var es := EncodeAll(pieces);
    forall i | 0 <= i < |es| ensures '/' !in es[i] && Decode(es[i]) == pieces[i] {
      EncodingRoundTrip(pieces[i], false);
      NoSlash(pieces[i]);
    }
    SplitJoin(es, '/');
  }

  function EncodeAll(ss: seq<string>): (r: seq<string>)
    requires forall i :: 0 <= i < |ss| ==> Bytes(ss[i])
    ensures |r| == |ss| && forall i :: 0 <= i < |ss| ==> r[i] == Encode(ss[i], false)
  {
    if ss == [] then [] else [Encode(ss[0], false)] + EncodeAll(ss[1..])
  }

  lemma {:induction false} PiecesBytes(s: string)
    requires Bytes(s)
    ensures forall i :: 0 <= i < |Split(s, '/')| ==> Bytes(Split(s, '/')[i])
    decreases |s|
  {
    SplitHead(s, '/');
    var b := Before(s, '/');
    if |b| < |s| { PiecesBytes(s[|b| + 1..]); }
  }

  lemma SlashStays()
    ensures Bytes("/") && Encode("/", false) == "/"
  {
    EncodedByte('/', false);
  }

  lemma {:induction false} EncodeJoin(ss: seq<string>)
    requires ss != [] && forall i :: 0 <= i < |ss| ==> Bytes(ss[i])
    ensures Bytes(Join(ss, '/')) && Encode(Join(ss, '/'), false) == Join(EncodeAll(ss), '/')
  {
    hide Encode, Bytes;
    if |ss| > 1 {
      EncodeJoin(ss[1..]);
      SlashStays();
      EncodeAppend(ss[0], "/", false);
      EncodeAppend(ss[0] + "/", Join(ss[1..], '/'), false);
      assert EncodeAll(ss)[1..] == EncodeAll(ss[1..]);
    }
  }

  lemma {:induction false} NoSlash(s: string)
    requires Bytes(s) && '/' !in s
    ensures '/' !in Encode(s, false)
  {
    if s != [] {
      NoSlash(s[..|s| - 1]);
      HexUnreserved(s[|s| - 1] as int / 16);
      HexUnreserved(s[|s| - 1] as int % 16);
    }
  }

  // ---------------------------------------------------------------- numbers

  const TWO_TO_64: int := 0x1_0000_0000_0000_0000

  /** The number a digit string denotes. */
  function Number(s: string): nat
    requires forall i :: 0 <= i < |s| ==> IsDigit(s[i])
  {
    if s == [] then 0
    else
      var d := s[|s| - 1];
      assert IsDigit(d);
      10 * Number(s[..|s| - 1]) + (d as int - '0' as int)
  }

  /** A number in decimal digits. */
  function NatText(n: nat): (s: string)
    ensures s != [] && forall i :: 0 <= i < |s| ==> IsDigit(s[i])
  {
    if n < 10 then [(n + '0' as int) as char] else NatText(n / 10) + [(n % 10 + '0' as int) as char]
  }

  lemma {:induction false} NumberOfText(n: nat)
    ensures Number(NatText(n)) == n
  {
    var s := NatText(n);
    if n >= 10 {
      NumberOfText(n / 10);
      assert s[..|s| - 1] == NatText(n / 10);
    } else {
      assert s[..0] == [];
    }
  }

  /** The longest prefix of digits. */
  function Digits(s: string): (r: string)
    ensures r <= s && forall i :: 0 <= i < |r| ==> IsDigit(r[i])
    ensures |r| == |s| || !IsDigit(s[|r|])
  {
    if s == [] || !IsDigit(s[0]) then [] else [s[0]] + Digits(s[1..])
  }

  /** parseUnsignedInt: leading blanks, then digits; what overflows 64 bits wraps around. */
  method ParseUnsignedInt(str: string) returns (ret: nat)
    ensures ret == ParsedNumber(str)
  {
    var s := str;
    while s != [] && IsBlank(s[0])
      invariant LTrim(s) == LTrim(str)
      decreases s
    {
      s := s[1..];
    }
    ret := 0;
    var i := 0;
    ghost var d := Digits(s);
    while i < |s| && IsDigit(s[i])
      invariant i <= |d| && ret == Number(d[..i]) % TWO_TO_64
    {
      assert d[..i + 1][..i] == d[..i] && d[i] == s[i];
      WrapStep(Number(d[..i]), s[i] as int - '0' as int);
      ret := ret * 10 % TWO_TO_64;
      ret := (ret + (s[i] as int - '0' as int)) % TWO_TO_64;
      i := i + 1;
    }
    assert d[..i] == d;
  }

  lemma WrapStep(n: nat, d: nat)
    ensures ((n % TWO_TO_64) * 10 % TWO_TO_64 + d) % TWO_TO_64 == (10 * n + d) % TWO_TO_64
  {
    var q, r := n / TWO_TO_64, n % TWO_TO_64;
    assert n == q * TWO_TO_64 + r;
    assert 10 * n + d == 10 * q * TWO_TO_64 + (10 * r + d);
  }

  /** The decimal system, written out: ten digits, the last one counts ones and the others ten times as
      much as they would alone. */
  lemma DecimalDigit(s: string, d: nat)
    requires d < 10 && forall i :: 0 <= i < |s| ==> '0' <= s[i] <= '9'
    ensures (forall i :: 0 <= i < |s| ==> IsDigit(s[i])) && IsDigit("0123456789"[d]) && Number([]) == 0
    ensures Number(s + ["0123456789"[d]]) == 10 * Number(s) + d
  {
    assert (s + ["0123456789"[d]])[..|s|] == s;
  }

  lemma {:induction false} DigitsOf(d: string, rest: string)
    requires forall i :: 0 <= i < |d| ==> '0' <= d[i] <= '9'
    requires rest == [] || !('0' <= rest[0] <= '9')
    ensures Digits(d + rest) == d
  {
    if d != [] {
      assert (d + rest)[1..] == d[1..] + rest;
      DigitsOf(d[1..], rest);
    } else {
      assert d + rest == rest;
    }
  }

  /** The number a text begins with, wrapped around at 64 bits. */
  function ParsedNumber(s: string): nat { Number(Digits(LTrim(s))) % TWO_TO_64 }

  /** Blanks, then a number in decimal digits, then anything that does not go on with a digit: the number
      is read, as long as it goes into 64 bits. */
  lemma PrintedNumberParsed(blanks: string, n: nat, rest: string)
    requires (forall i :: 0 <= i < |blanks| ==> blanks[i] in [' ', '\t']) && n < 0x1_0000_0000_0000_0000
    requires rest == [] || !('0' <= rest[0] <= '9')
    ensures ParsedNumber(blanks + NatText(n) + rest) == n
  {
    hide NatText, Number, Digits, LTrim;
    var d := NatText(n);
    assert blanks + d + rest == blanks + (d + rest);
    assert (d + rest)[0] == d[0];
    BlanksSkipped(blanks, d + rest);
    DigitsOf(d, rest);
    NumberOfText(n);
  }

  /** How many digits a number has. */
  lemma {:induction false} NatTextLength(n: nat, digits: nat)
    requires n < Power10(digits) && digits > 0
    ensures |NatText(n)| <= digits
  {
    assert Power10(1) == 10 * Power10(0);
    if n >= 10 { NatTextLength(n / 10, digits - 1); }
  }

  function Power10(n: nat): (r: nat)
    ensures r > 0
  {
    if n == 0 then 1 else 10 * Power10(n - 1)
  }
}
