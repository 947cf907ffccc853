/** The SAX callbacks of src/simplexml.c: a flat path buffer and a sticky status. libxml2 stands
    outside; it is any source of start, end and text events. */
module SimpleXml {
  import opened Strings
  import opened Status

  datatype Event = Start(name: string) | End(name: string) | Chars(text: string)

  /** A SimpleXmlCallback as a function of the path, the data (None at the end of an element) and
      the callback's own data; it gives the new callback data and the status returned. */
  type Callback<!D> = (string, Option<string>, D) -> (D, S3Status)

  /** sizeof(simpleXml->elementPath) */
  const PATH_SIZE: nat := 512

  // ---------------------------------------------------------------- the path buffer

  /** The observable state of a SimpleXml. */
  datatype Sax<D> = Sax(path: string, status: S3Status, data: D)

  function Push(path: string, name: string): string {
    if path == [] then name else path + "/" + name
  }

  /** The offset of the last separator in front of offset k, or 0. */
  function LastSlash(path: string, k: nat): (n: nat)
    requires k <= |path|
    ensures n <= k && (k > 0 ==> n < k)
  {
    if k == 0 then 0 else if path[k - 1] == '/' then k - 1 else LastSlash(path, k - 1)
  }

  /** The path up to its last separator. */
  function Pop(path: string): string { path[..LastSlash(path, |path|)] }

  function Step<D>(h: Callback<D>, s: Sax<D>, e: Event): Sax<D> {
    if s.status != OK then s
    else match e
      case Start(name) =>
        if |s.path| + |name| + 1 >= PATH_SIZE then s.(status := XmlParseFailure)
        else s.(path := Push(s.path, name))
      case End(_) =>
        var r := h(s.path, None, s.data);
        Sax(Pop(s.path), r.1, r.0)
      case Chars(text) =>
        var r := h(s.path, Some(text), s.data);
        Sax(s.path, r.1, r.0)
  }

  function Run<D>(h: Callback<D>, s: Sax<D>, events: seq<Event>): Sax<D>
    decreases |events|
  {
    if events == [] then s else Run(h, Step(h, s, events[0]), events[1..])
  }

  class SimpleXml<D(!new)> {
    const callback: Callback<D>
    var callbackData: D
    const elementPath: array<char>
    var elementPathLen: nat
    var status: S3Status

    /** The buffer is initialised by the first start event; before it nothing reads the buffer. */
    ghost predicate Valid()
      reads this, elementPath
    {
      && elementPath.Length == PATH_SIZE && elementPathLen < PATH_SIZE
      && (elementPathLen > 0 ==> Holds(elementPath[..], 0, elementPath[..elementPathLen]))
    }

    ghost function Model(): Sax<D>
      reads this, elementPath
      requires Valid()
    {
      Sax(elementPath[..elementPathLen], status, callbackData)
    }

    /** simplexml_initialize */
    constructor (callback: Callback<D>, callbackData: D)
      ensures Valid() && Model() == Sax("", OK, callbackData) && this.callback == callback && fresh(elementPath)
    {
      this.callback := callback;
      this.callbackData := callbackData;
      elementPath := new char[PATH_SIZE];
      elementPathLen := 0;
      status := OK;
    }

    method SaxStartElement(name: string)
      requires Valid() && name != [] && NUL !in name
      modifies this, elementPath
      ensures Valid() && Model() == Step(callback, old(Model()), Start(name))
    {
      if status != OK {
        return;
      }
      var len := |name|;
      if elementPathLen + len + 1 >= PATH_SIZE {
        status := XmlParseFailure;
        return;
      }
      ghost var path := elementPath[..elementPathLen];
      assert elementPathLen > 0 ==> NUL !in path;
      if elementPathLen > 0 {
        elementPath[elementPathLen] := '/';
        elementPathLen := elementPathLen + 1;
      }
      StrCpy(elementPath, elementPathLen, name);
      elementPathLen := elementPathLen + len;
      assert elementPath[..elementPathLen] == Push(path, name);
    }

    method SaxEndElement(name: string)
      requires Valid() && (status == OK ==> elementPathLen > 0)
      modifies this, elementPath
      ensures Valid() && Model() == Step(callback, old(Model()), End(name))
    {
      if status != OK {
        return;
      }
      hide Holds, CString;
      ghost var path := elementPath[..elementPathLen];
      HoldsCString(elementPath[..], 0, path);
      var r := callback(CString(elementPath[..], 0), None, callbackData);
      callbackData, status := r.0, r.1;
      while elementPathLen > 0 && elementPath[elementPathLen] != '/'
        invariant elementPathLen <= |path| && elementPath[..] == old(elementPath[..])
        invariant callbackData == r.0 && status == r.1
        invariant LastSlash(path, |path|)
               == if elementPathLen < |path| && path[elementPathLen] == '/' then elementPathLen
                  else LastSlash(path, elementPathLen)
        decreases elementPathLen
      {
        assert elementPathLen < |path| ==> elementPath[elementPathLen] == path[elementPathLen];
        elementPathLen := elementPathLen - 1;
        assert elementPath[elementPathLen] == path[elementPathLen];
      }
      elementPath[elementPathLen] := NUL;
      assert elementPath[..elementPathLen] == path[..elementPathLen] == Pop(path);
      assert elementPath[..][..elementPathLen] == elementPath[..elementPathLen];
    }

    method SaxCharacters(ch: string)
      requires Valid() && (status == OK ==> elementPathLen > 0)
      modifies this
      ensures Valid() && Model() == Step(callback, old(Model()), Chars(ch))
    {
      if status != OK {
        return;
      }
      HoldsCString(elementPath[..], 0, elementPath[..elementPathLen]);
      var r := callback(CString(elementPath[..], 0), Some(ch), callbackData);
      callbackData, status := r.0, r.1;
    }
  }

  /** strcpy(&mem[at], s) */
  method StrCpy(mem: array<char>, at: nat, s: string)
    requires at + |s| < mem.Length && NUL !in s
    modifies mem
    ensures mem[..at + |s|] == old(mem[..at]) + s && mem[at + |s|] == NUL
  {
    var i := 0;
    while i < |s|
      invariant 0 <= i <= |s|
      invariant mem[..at + i] == old(mem[..at]) + s[..i]
    {
      mem[at + i] := s[i];
      i := i + 1;
    }
    mem[at + |s|] := NUL;
  }

}
