/** Documents as trees, the events libxml2 reports for them, and what a callback makes of a document:
    the flat path buffer is a stack of element names, and text may be cut into chunks anywhere. */
module XmlDocuments {
  import opened Strings
  import opened Status
  import opened SimpleXml

  /** A list of sibling nodes. A text that is reported in several chunks appears as several text
      nodes in a row. */
  datatype Forest =
    | Nil
    | Text(text: string, rest: Forest)
    | Elem(name: string, kids: Forest, rest: Forest)

  function Events(f: Forest): seq<Event> {
    match f
    case Nil => []
    case Text(t, rest) => [Chars(t)] + Events(rest)
    case Elem(n, kids, rest) => [Start(n)] + Events(kids) + [End(n)] + Events(rest)
  }

  /** An element name: not empty, and without '/'. */
  predicate GoodName(n: string) { n != [] && '/' !in n && NUL !in n }

  ghost predicate GoodNames(f: Forest) {
    match f
    case Nil => true
    case Text(_, rest) => GoodNames(rest)
    case Elem(n, kids, rest) => GoodName(n) && GoodNames(kids) && GoodNames(rest)
  }

  ghost predicate GoodStack(stack: seq<string>) { forall i :: 0 <= i < |stack| ==> GoodName(stack[i]) }

  /** The path of the open elements. */
  function PathOf(stack: seq<string>): string { Join(stack, '/') }

  // ---------------------------------------------------------------- the meaning of a document

  /** The callback data and status after the nodes of f have been read inside the open elements
      `stack`: the callback is called with the joined names of exactly the open elements, and after
      the first status other than OK it is not called again. */
  function Eval<D>(h: Callback<D>, stack: seq<string>, d: D, f: Forest): (D, S3Status)
    decreases f
  {
    match f
    case Nil => (d, OK)
    case Text(t, rest) =>
      var r := h(PathOf(stack), Some(t), d);
      if r.1 != OK then r else Eval(h, stack, r.0, rest)
    case Elem(n, kids, rest) =>
      if |PathOf(stack)| + |n| + 1 >= PATH_SIZE then (d, XmlParseFailure)
      else
        var inner := stack + [n];
        var k := Eval(h, inner, d, kids);
        if k.1 != OK then k
        else
          var r := h(PathOf(inner), None, k.0);
          if r.1 != OK then r else Eval(h, stack, r.0, rest)
  }

  /** One element that fits into the path buffer: its children, then its end. */
  function EvalOne<D>(h: Callback<D>, stack: seq<string>, d: D, n: string, kids: Forest): (D, S3Status) {
    var k := Eval(h, stack + [n], d, kids);
    if k.1 != OK then k else h(PathOf(stack + [n]), None, k.0)
  }

  lemma EvalElem<D>(h: Callback<D>, stack: seq<string>, d: D, n: string, kids: Forest, rest: Forest)
    requires |PathOf(stack)| + |n| + 1 < PATH_SIZE
    ensures Eval(h, stack, d, Elem(n, kids, rest)) ==
      (var r := EvalOne(h, stack, d, n, kids); if r.1 != OK then r else Eval(h, stack, r.0, rest))
  {}

  lemma EvalNothing<D>(h: Callback<D>, stack: seq<string>, d: D)
    ensures Eval(h, stack, d, Nil) == (d, OK)
  {}

  // ---------------------------------------------------------------- the path buffer is a stack

  lemma PushPath(stack: seq<string>, n: string)
    requires GoodStack(stack) && GoodName(n)
    ensures Push(PathOf(stack), n) == PathOf(stack + [n])
    ensures PathOf(stack + [n]) != []
  {
    if stack == [] {
      assert stack + [n] == [n];
    } else {
      PathNonempty(stack);
      JoinSnoc(stack, n, '/');
      assert PathOf(stack) + ['/'] + n == PathOf(stack) + "/" + n;
    }
  }

  lemma {:induction false} PathNonempty(stack: seq<string>)
    requires GoodStack(stack) && stack != []
    ensures PathOf(stack) != []
  {}

  lemma {:induction false} LastSlashIs(p: string, n: string, k: nat)
    requires '/' !in n && |p| < k <= |p| + 1 + |n|
    ensures LastSlash(p + "/" + n, k) == |p|
  {
    var path := p + "/" + n;
    if k > |p| + 1 {
      assert path[k - 1] == n[k - 2 - |p|];
      LastSlashIs(p, n, k - 1);
    }
  }

  lemma {:induction false} NoSlash(n: string, k: nat)
    requires '/' !in n && k <= |n|
    ensures LastSlash(n, k) == 0
  {
    if k > 0 { NoSlash(n, k - 1); }
  }

  lemma PopPath(stack: seq<string>, n: string)
    requires GoodStack(stack) && GoodName(n)
    ensures Pop(PathOf(stack + [n])) == PathOf(stack)
  {
    PushPath(stack, n);
    if stack == [] {
      NoSlash(n, |n|);
    } else {
      PathNonempty(stack);
      var p := PathOf(stack);
      LastSlashIs(p, n, |p + "/" + n|);
      assert (p + "/" + n)[..|p|] == p;
    }
  }

  /** Different open elements have different paths. */
  lemma PathsDistinct(a: seq<string>, b: seq<string>)
    requires GoodStack(a) && GoodStack(b)
    ensures PathOf(a) == PathOf(b) <==> a == b
  {
    if a != [] { PathNonempty(a); }
    if b != [] { PathNonempty(b); }
    if a != [] && b != [] && PathOf(a) == PathOf(b) {
      JoinInjective(a, b, '/');
    }
  }

  lemma {:induction false} RunAppend<D>(h: Callback<D>, s: Sax<D>, a: seq<Event>, b: seq<Event>)
    ensures Run(h, s, a + b) == Run(h, Run(h, s, a), b)
    decreases |a|
  {
    if a == [] {
      assert a + b == b;
    } else {
      assert (a + b)[1..] == a[1..] + b;
      RunAppend(h, Step(h, s, a[0]), a[1..], b);
    }
  }

  lemma RunOne<D>(h: Callback<D>, s: Sax<D>, e: Event)
    ensures Run(h, s, [e]) == Step(h, s, e)
  {
    assert [e][1..] == [];
  }

  /** After a status other than OK no event changes anything, and no callback is made. */
  lemma {:induction false} Halted<D>(h: Callback<D>, s: Sax<D>, events: seq<Event>)
    requires s.status != OK
    ensures Run(h, s, events) == s
    decreases |events|
  {
    if events != [] { Halted(h, s, events[1..]); }
  }

  /** The status and data of a SAX run over the events of f, started inside `stack`, are those of
      the document; a run that is not stopped leaves the path as it found it. */
  lemma {:induction false} RunIsEval<D>(h: Callback<D>, stack: seq<string>, d: D, f: Forest)
    requires GoodStack(stack) && GoodNames(f)
    ensures var r, e := Run(h, Sax(PathOf(stack), OK, d), Events(f)), Eval(h, stack, d, f);
      r.status == e.1 && r.data == e.0 && (e.1 == OK ==> r.path == PathOf(stack))
    decreases f
  {
    var s := Sax(PathOf(stack), OK, d);
    match f
    case Nil =>
    case Text(t, rest) =>
      var s1 := Step(h, s, Chars(t));
      if s1.status != OK {
        Halted(h, s1, Events(rest));
      } else {
        RunIsEval(h, stack, s1.data, rest);
      }
    case Elem(n, kids, rest) =>
      RunElem(h, stack, d, n, kids, rest);
  }

  lemma {:induction false} RunElem<D>(h: Callback<D>, stack: seq<string>, d: D, n: string, kids: Forest, rest: Forest)
    requires GoodStack(stack) && GoodName(n) && GoodNames(kids) && GoodNames(rest)
    ensures var f := Elem(n, kids, rest);
      var r, e := Run(h, Sax(PathOf(stack), OK, d), Events(f)), Eval(h, stack, d, f);
      r.status == e.1 && r.data == e.0 && (e.1 == OK ==> r.path == PathOf(stack))
    decreases Elem(n, kids, rest), 0
  {
    hide Run, PathOf, Pop, Push;
    var s := Sax(PathOf(stack), OK, d);
    var inner := stack + [n];
    var s1 := Step(h, s, Start(n));
    RunElement(h, s, n, kids, rest);
    if s1.status != OK {
      Halted(h, s1, Events(kids));
      Halted(h, s1, Events(rest));
    } else {
      PushPath(stack, n);
      RunIsEval(h, inner, d, kids);
      var s2 := Run(h, s1, Events(kids));
      if s2.status != OK {
        Halted(h, s2, Events(rest));
      } else {
        PopPath(stack, n);
        var s3 := Step(h, s2, End(n));
        if s3.status != OK {
          Halted(h, s3, Events(rest));
        } else {
          RunIsEval(h, stack, s3.data, rest);
        }
      }
    }
  }

  // ---------------------------------------------------------------- chunks

  /** The document with every run of text reported as one chunk. */
  function Merge(f: Forest): Forest {
    match f
    case Nil => Nil
    case Text(t, rest) =>
      var m := Merge(rest);
      if m.Text? then Text(t + m.text, m.rest) else Text(t, m)
    case Elem(n, kids, rest) => Elem(n, Merge(kids), Merge(rest))
  }

  /** Reporting x + y at once is reporting x and, if that does not stop the parse, then y. */
  ghost predicate AdditiveAt<D>(h: Callback<D>, path: string, d: D, x: string, y: string) {
    var r := h(path, Some(x), d);
    h(path, Some(x + y), d) == if r.1 != OK then r else h(path, Some(y), r.0)
  }

  ghost predicate Additive<D(!new)>(h: Callback<D>, inv: D -> bool) {
    forall path, d, x, y {:trigger AdditiveAt(h, path, d, x, y)} :: inv(d) ==> AdditiveAt(h, path, d, x, y)
  }

  ghost predicate Preserves<D(!new)>(h: Callback<D>, inv: D -> bool) {
    forall path, data, d {:trigger h(path, data, d)} :: inv(d) ==> inv(h(path, data, d).0)
  }

  /** For such a callback the result does not depend on how text is cut into chunks. */
  lemma {:induction false} ChunkIndependent<D(!new)>(h: Callback<D>, inv: D -> bool, stack: seq<string>, d: D,
                                                     f: Forest)
    requires Additive(h, inv) && Preserves(h, inv) && inv(d)
    ensures Eval(h, stack, d, Merge(f)) == Eval(h, stack, d, f)
    ensures inv(Eval(h, stack, d, f).0)
    decreases f
  {
    hide PathOf;
    match f
    case Nil =>
    case Text(t, rest) =>
      var r := h(PathOf(stack), Some(t), d);
      var m := Merge(rest);
      ChunkIndependent(h, inv, stack, r.0, rest);
      if m.Text? {
        assert AdditiveAt(h, PathOf(stack), d, t, m.text);
      }
    case Elem(n, kids, rest) =>
      ChunkIndependent(h, inv, stack + [n], d, kids);
      var k := Eval(h, stack + [n], d, kids).0;
      ChunkIndependent(h, inv, stack, h(PathOf(stack + [n]), None, k).0, rest);
  }

  /** Two documents that differ only in how text is cut give the same result. */
  lemma SameTextSameResult<D(!new)>(h: Callback<D>, inv: D -> bool, stack: seq<string>, d: D, f: Forest, g: Forest)
    requires Additive(h, inv) && Preserves(h, inv) && inv(d) && Merge(f) == Merge(g)
    ensures Eval(h, stack, d, f) == Eval(h, stack, d, g)
  {
    ChunkIndependent(h, inv, stack, d, f);
    ChunkIndependent(h, inv, stack, d, g);
  }

  // ---------------------------------------------------------------- libxml2 as an event source

  /** Text stands only inside an element. */
  ghost predicate NoTopText(f: Forest) {
    match f
    case Nil => true
    case Text(_, _) => false
    case Elem(_, _, rest) => NoTopText(rest)
  }

  /** Reporting a document to the SAX callbacks: the object ends in the state that the document
      determines. */
  method Report<D(!new)>(sx: SimpleXml<D>, f: Forest, ghost stack: seq<string>)
    requires sx.Valid() && GoodNames(f) && GoodStack(stack) && (stack == [] ==> NoTopText(f))
    requires sx.Model().status == OK ==> sx.Model().path == PathOf(stack)
    modifies sx, sx.elementPath
    ensures sx.Valid() && sx.Model() == Run(sx.callback, old(sx.Model()), Events(f))
    ensures sx.status == OK ==> sx.Model().path == PathOf(stack)
    decreases f
  {
    hide PathOf, Push, Pop, Join, Holds;
    ghost var h, s := sx.callback, sx.Model();
    StackPath(stack);
    match f
    case Nil =>
    case Text(t, rest) =>
      sx.SaxCharacters(t);
      Report(sx, rest, stack);
    case Elem(n, kids, rest) =>
      PushPath(stack, n);
      PopPath(stack, n);
      sx.SaxStartElement(n);
      ghost var s1 := sx.Model();
      Report(sx, kids, stack + [n]);
      StackPath(stack + [n]);
      sx.SaxEndElement(n);
      Report(sx, rest, stack);
      RunElement(h, s, n, kids, rest);
  }

  lemma StackPath(stack: seq<string>)
    requires GoodStack(stack)
    ensures stack != [] ==> |PathOf(stack)| > 0
    ensures PathOf([]) == ""
  {
    if stack != [] { PathNonempty(stack); }
  }

  lemma RunElement<D>(h: Callback<D>, s: Sax<D>, n: string, kids: Forest, rest: Forest)
    ensures Run(h, s, Events(Elem(n, kids, rest)))
         == Run(h, Step(h, Run(h, Step(h, s, Start(n)), Events(kids)), End(n)), Events(rest))
  {
    hide Run;
    RunOne(h, s, Start(n));
    RunAppend(h, s, [Start(n)] + Events(kids) + [End(n)], Events(rest));
    RunAppend(h, s, [Start(n)] + Events(kids), [End(n)]);
    RunAppend(h, s, [Start(n)], Events(kids));
    RunOne(h, Run(h, Step(h, s, Start(n)), Events(kids)), End(n));
  }

  /** Parsing a whole document: simplexml_initialize, then the events of the document. */
  method Parse<D(!new)>(h: Callback<D>, d: D, doc: Forest) returns (data: D, status: S3Status)
    requires GoodNames(doc) && NoTopText(doc)
    ensures (data, status) == Eval(h, [], d, doc)
  {
    var sx := new SimpleXml(h, d);
    StackPath([]);
    Report(sx, doc, []);
    RunIsEval(h, [], d, doc);
    data, status := sx.callbackData, sx.status;
  }
}
