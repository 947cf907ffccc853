/** XML text: documents printed, and printed documents scanned. */
module XmlText {
  import opened Strings
  import opened SimpleXml
  import opened XmlDocuments

  /** The content of an element that holds only text. */
  function TextNode(t: string): Forest { if t == "" then Nil else Text(t, Nil) }

  function Leaf(n: string, t: string, rest: Forest): Forest { Elem(n, TextNode(t), rest) }

  // ---------------------------------------------------------------- trees as text

  /** The value of xsi:type, which goes with what the grantee element holds. */
  function GranteeType(kids: Forest): string {
    if kids.Elem? && kids.name == "EmailAddress" then "AmazonCustomerByEmail"
    else if kids.Elem? && kids.name == "ID" then "CanonicalUser"
    else "Group"
  }

  const XSI_TYPE := "xmlns:xsi=\"http://" + "www.w3.org/2001/" + "XMLSchema-instance\"" + " xsi:type=\""
  const GRANTEE_ATTRIBUTES := "Grantee" + [' '] + XSI_TYPE

  /** What stands between the angle brackets of a start tag. */
  function Opening(n: string, kids: Forest): string {
    if n == "Grantee" then GRANTEE_ATTRIBUTES + GranteeType(kids) + "\"" else n
  }

  function OpenTag(body: string): string { "<" + body + ">" }

  function CloseTag(n: string): string { "</" + n + ">" }

  function Element(n: string, t: string): string { OpenTag(n) + t + CloseTag(n) }

  /** A forest as XML text. */
  function Render(f: Forest): string {
    match f
    case Nil => ""
    case Text(t, rest) => t + Render(rest)
    case Elem(n, kids, rest) => OpenTag(Opening(n, kids)) + Render(kids) + CloseTag(n) + Render(rest)
  }

  // ---------------------------------------------------------------- reading text back

  function TagEvent(body: string): Event {
    if body != [] && body[0] == '/' then End(body[1..]) else Start(Before(body, ' '))
  }

  /** The events that a scanner reports for XML text without entities: a stand-in for libxml2 on the
      kind of text that is generated here. */
  function Scan(s: string): seq<Event>
    decreases |s|
  {
    if s == [] then []
    else if s[0] == '<' then
      var body := Before(s[1..], '>');
      [TagEvent(body)] + Scan(if |body| + 2 <= |s| then s[|body| + 2..] else [])
    else
      var t := Before(s, '<');
      [Chars(t)] + Scan(s[|t|..])
  }

  /** Text in which XML gives no character a meaning of its own. */
  predicate Plain(t: string) { '<' !in t && '&' !in t && '\r' !in t && NUL !in t }

  /** The library's element names consist of letters. */
  predicate TagName(n: string) { n != [] && forall i :: 0 <= i < |n| ==> IsAlpha(n[i]) }

  lemma LettersOnly(n: string)
    requires TagName(n)
    ensures GoodName(n) && '>' !in n && ' ' !in n && n[0] != '/'
  {}

  /** Text nodes are plain, not empty, and never next to each other. */
  ghost predicate Printable(f: Forest) {
    match f
    case Nil => true
    case Text(t, rest) => Plain(t) && t != [] && !rest.Text? && Printable(rest)
    case Elem(n, kids, rest) => TagName(n) && Printable(kids) && Printable(rest)
  }

  lemma ScanTag(body: string, rest: string)
    requires '>' !in body
    ensures Scan("<" + body + ">" + rest) == [TagEvent(body)] + Scan(rest)
  {
    var s := "<" + body + ">" + rest;
    BeforeIs(body, '>', rest);
    assert s[1..] == body + ['>'] + rest;
    assert s[|body| + 2..] == rest;
  }

  lemma BeforeText(t: string, rest: string)
    requires '<' !in t && (rest == [] || rest[0] == '<')
    ensures Before(t + rest, '<') == t && (t + rest)[|t|..] == rest
  {
    hide Before;
    if rest == [] {
      assert t + rest == t;
    } else {
      BeforeIs(t, '<', rest[1..]);
      assert t + rest == t + ['<'] + rest[1..];
    }
  }

  lemma ScanText(t: string, rest: string)
    requires t != [] && '<' !in t && (rest == [] || rest[0] == '<')
    ensures Scan(t + rest) == [Chars(t)] + Scan(rest)
  {
    hide Before;
    BeforeText(t, rest);
    assert (t + rest)[0] == t[0] && t[0] in t;
  }

  lemma XsiShape(kids: Forest)
    ensures '>' !in XSI_TYPE && '>' !in GranteeType(kids) && ' ' !in "Grantee" && '>' !in "Grantee"
  {}

  lemma AttributesShape(kids: Forest)
    ensures var body := Opening("Grantee", kids);
      Before(body, ' ') == "Grantee" && body[0] == 'G' && '>' !in body
  {
    hide Before, GranteeType, XSI_TYPE;
    var tail := GranteeType(kids) + "\"";
    XsiShape(kids);
    BeforeIs("Grantee", ' ', XSI_TYPE + tail);
    assert Opening("Grantee", kids) == "Grantee" + [' '] + (XSI_TYPE + tail);
  }

  /** A start tag is scanned as the start of its element, attributes or not. */
  lemma OpeningEvent(n: string, kids: Forest)
    requires TagName(n)
    ensures '>' !in Opening(n, kids) && TagEvent(Opening(n, kids)) == Start(n)
  {
    hide Before, TagName, GranteeType;
    LettersOnly(n);
    if n == "Grantee" {
      AttributesShape(kids);
    }
  }

  lemma ClosingEvent(n: string)
    requires TagName(n)
    ensures '>' !in "/" + n && TagEvent("/" + n) == End(n)
  {
    hide TagName;
    LettersOnly(n);
    assert ("/" + n)[1..] == n;
  }

  lemma RenderStart(f: Forest, tail: string)
    requires !f.Text? && (tail == [] || tail[0] == '<')
    ensures var s := Render(f) + tail; s == [] || s[0] == '<'
  {
    hide Opening;
  }

  lemma ElementText<T>(open: seq<T>, kids: seq<T>, close: seq<T>, rest: seq<T>, tail: seq<T>)
    ensures open + kids + close + rest + tail == open + (kids + (close + (rest + tail)))
    ensures open + (kids + (close + (rest + tail))) == open + kids + close + rest + tail
  {}

  /** Scanning printed text gives back the events of the tree. */
  lemma {:induction false} ScanRender(f: Forest, tail: string)
    requires Printable(f) && (tail == [] || tail[0] == '<')
    ensures Scan(Render(f) + tail) == Events(f) + Scan(tail)
    decreases f
  {
    hide Scan, Opening, TagEvent, TagName, OpenTag, CloseTag;
    match f
    case Nil =>
      assert Render(f) + tail == tail;
    case Text(t, rest) =>
      RenderStart(rest, tail);
      ScanText(t, Render(rest) + tail);
      assert Render(f) + tail == t + (Render(rest) + tail);
      ScanRender(rest, tail);
    case Elem(n, kids, rest) =>
      ScanElement(n, kids, rest, tail);
  }

  lemma {:induction false} ScanElement(n: string, kids: Forest, rest: Forest, tail: string)
    requires TagName(n) && Printable(kids) && Printable(rest) && (tail == [] || tail[0] == '<')
    ensures Scan(Render(Elem(n, kids, rest)) + tail) == Events(Elem(n, kids, rest)) + Scan(tail)
    decreases Elem(n, kids, rest), 0
  {
    hide Scan, Opening, TagEvent, Plain, TagName, Printable, CloseTag;
    var o, after := Opening(n, kids), Render(rest) + tail;
    var closing := CloseTag(n) + after;
    ElementText(OpenTag(o), Render(kids), CloseTag(n), Render(rest), tail);
    OpeningEvent(n, kids);
    ScanTag(o, Render(kids) + closing);
    ClosingFirst(n, after);
    ScanRender(kids, closing);
    ClosingEvent(n);
    ScanTag("/" + n, after);
    ScanRender(rest, tail);
    ElementText([Start(n)], Events(kids), [End(n)], Events(rest), Scan(tail));
  }

  lemma ClosingFirst(n: string, after: string)
    ensures CloseTag(n) + after == "<" + ("/" + n) + ">" + after && (CloseTag(n) + after)[0] == '<'
  {
    assert CloseTag(n) == "<" + ("/" + n) + ">";
  }

  lemma RenderLeaf(n: string, t: string, rest: Forest)
    requires n != "Grantee"
    ensures Render(Leaf(n, t, rest)) == Element(n, t) + Render(rest)
  {
    Nothing(t);
    RenderNil();
    assert Render(TextNode(t)) == t;
  }

  lemma RenderNil()
    ensures Render(Nil) == ""
  {}

  lemma ScanNothing()
    ensures Scan("") == []
  {}
}
