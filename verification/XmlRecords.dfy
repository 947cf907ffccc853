/** The shape the XML callbacks of the library share: text of known elements is appended to bounded
    buffers, and the end of some elements does something with what has been collected. */
module XmlRecords {
  import opened Strings
  import opened Status
  import opened StringBuffers
  import opened SimpleXml
  import opened XmlDocuments

  /** A buffer for the text of one element: the names that make up the element's path, the buffer's
      capacity, and the status returned when text does not fit (OK when the callback ignores that). */
  datatype Field = Field(names: seq<string>, cap: nat, overflow: S3Status)

  type Schema = seq<Field>

  ghost predicate ValidSchema(sc: Schema) {
    && (forall i :: 0 <= i < |sc| ==> GoodStack(sc[i].names))
    && (forall i, j :: 0 <= i < j < |sc| ==> sc[i].names != sc[j].names)
  }

  /** The strcmp chain: the first field whose element has that path, or |sc|. */
  function Find(sc: Schema, path: string): (i: nat)
    ensures i <= |sc|
    ensures i < |sc| ==> PathOf(sc[i].names) == path
    ensures forall j :: 0 <= j < i ==> PathOf(sc[j].names) != path
  {
    if sc == [] || PathOf(sc[0].names) == path then 0 else 1 + Find(sc[1..], path)
  }

  /** Names are told apart by their number and by the length and first character of the last one. */
  function Code(names: seq<string>): (nat, nat, char) {
    if names == [] || names[|names| - 1] == [] then (|names|, 0, NUL)
    else (|names|, |names[|names| - 1]|, names[|names| - 1][0])
  }

  lemma DistinctByCode(sc: Schema, codes: seq<(nat, nat, char)>)
    requires |codes| == |sc|
    requires forall i :: 0 <= i < |sc| ==> Code(sc[i].names) == codes[i] && GoodStack(sc[i].names)
    requires forall i, j :: 0 <= i < j < |sc| ==> codes[i] != codes[j]
    ensures ValidSchema(sc)
  {
    hide GoodStack, Code;
    forall i, j | 0 <= i < j < |sc| ensures sc[i].names != sc[j].names {
      assert Code(sc[i].names) == codes[i] && Code(sc[j].names) == codes[j];
    }
  }

  type Fields = seq<StrBuf>

  ghost predicate ValidFields(sc: Schema, fields: Fields) {
    |fields| == |sc| && forall i :: 0 <= i < |sc| ==> fields[i].Valid() && fields[i].cap == sc[i].cap
  }

  /** Text arrives for an element: it goes into the element's buffer, if there is one. */
  function Store(sc: Schema, fields: Fields, path: string, text: string): (r: (Fields, S3Status))
    requires |fields| == |sc|
    ensures |r.0| == |fields|
  {
    var i := Find(sc, path);
    if i == |sc| then (fields, OK)
    else (fields[i := fields[i].Append(text)], if fields[i].Fits(text) then OK else sc[i].overflow)
  }

  lemma StoreValid(sc: Schema, fields: Fields, path: string, text: string)
    requires ValidFields(sc, fields)
    ensures ValidFields(sc, Store(sc, fields, path, text).0)
  {
    var i := Find(sc, path);
    if i < |sc| { AppendTwice(fields[i], text, ""); }
  }

  /** Storing in two chunks is storing at once. */
  lemma StoreTwice(sc: Schema, fields: Fields, path: string, x: string, y: string)
    requires ValidFields(sc, fields)
    ensures var r := Store(sc, fields, path, x);
      Store(sc, fields, path, x + y) == if r.1 != OK then r else Store(sc, r.0, path, y)
  {
    hide Find;
    var i := Find(sc, path);
    if i < |sc| {
      var b := fields[i];
      AppendTwice(b, x, y);
      if !b.Fits(x) {
        FullStays(b, x, y);
      }
      assert fields[i := b.Append(x)][i := b.Append(x + y)] == fields[i := b.Append(x + y)];
    }
  }

  lemma FullStays(b: StrBuf, x: string, y: string)
    requires b.Valid() && !b.Fits(x)
    ensures b.Append(x).Append(y) == b.Append(x) && !b.Fits(x + y) && b.Append(x).Append(y) == b.Append(x + y)
  {
    AppendTwice(b, x, y);
    assert b.Append(x).text + y[..0] == b.Append(x).text;
  }

  // ---------------------------------------------------------------- what a document holds

  /** The text of the elements with path `target`, in document order, in a forest that stands
      inside the elements `at`. */
  function TextIn(f: Forest, at: seq<string>, target: seq<string>): string
    decreases f
  {
    match f
    case Nil => ""
    case Text(t, rest) => (if at == target then t else "") + TextIn(rest, at, target)
    case Elem(n, kids, rest) => TextIn(kids, at + [n], target) + TextIn(rest, at, target)
  }

  /** One forest behind the other. */
  function Chain(f: Forest, g: Forest): Forest
    decreases f
  {
    match f
    case Nil => g
    case Text(t, rest) => Text(t, Chain(rest, g))
    case Elem(n, kids, rest) => Elem(n, kids, Chain(rest, g))
  }

  lemma {:induction false} TextInChain(f: Forest, g: Forest, at: seq<string>, target: seq<string>)
    ensures TextIn(Chain(f, g), at, target) == TextIn(f, at, target) + TextIn(g, at, target)
    decreases f
  {
    match f
    case Nil => Nothing(TextIn(g, at, target));
    case Text(t, rest) =>
      TextInChain(rest, g, at, target);
      Regroup(if at == target then t else "", TextIn(rest, at, target), TextIn(g, at, target));
    case Elem(n, kids, rest) =>
      TextInChain(rest, g, at, target);
      Regroup(TextIn(kids, at + [n], target), TextIn(rest, at, target), TextIn(g, at, target));
  }

  lemma {:induction false} ChainGood(f: Forest, g: Forest, at: seq<string>)
    ensures GoodNames(Chain(f, g)) <==> GoodNames(f) && GoodNames(g)
    ensures FitsPaths(at, Chain(f, g)) <==> FitsPaths(at, f) && FitsPaths(at, g)
    decreases f
  {
    hide GoodName, PathOf;
    match f
    case Nil =>
    case Text(_, rest) => ChainGood(rest, g, at);
    case Elem(_, _, rest) => ChainGood(rest, g, at);
  }

  /** The insides of the elements with that name, in document order. */
  function ElementsNamed(f: Forest, name: string): seq<Forest>
    decreases f
  {
    match f
    case Nil => []
    case Text(_, rest) => ElementsNamed(rest, name)
    case Elem(n, kids, rest) => (if n == name then [kids] else []) + ElementsNamed(rest, name)
  }

  /** The fields after the text of a forest has been stored. */
  function Collect(sc: Schema, fields: Fields, at: seq<string>, f: Forest): (r: (Fields, S3Status))
    requires |fields| == |sc|
    ensures |r.0| == |fields|
    decreases f
  {
    match f
    case Nil => (fields, OK)
    case Text(t, rest) =>
      var r := Store(sc, fields, PathOf(at), t);
      if r.1 != OK then r else Collect(sc, r.0, at, rest)
    case Elem(n, kids, rest) =>
      var r := Collect(sc, fields, at + [n], kids);
      if r.1 != OK then r else Collect(sc, r.0, at, rest)
  }

  /** Field i takes the text, or does not mind when it does not fit. */
  ghost predicate Takes(sc: Schema, fields: Fields, i: nat, text: string)
    requires i < |sc| == |fields|
  {
    sc[i].overflow == OK || fields[i].Fits(text)
  }

  ghost predicate TakesAll(sc: Schema, fields: Fields, at: seq<string>, f: Forest)
    requires |fields| == |sc|
  {
    forall i :: 0 <= i < |sc| ==> Takes(sc, fields, i, TextIn(f, at, sc[i].names))
  }

  lemma StoreField(sc: Schema, fields: Fields, at: seq<string>, t: string, i: nat)
    requires ValidSchema(sc) && ValidFields(sc, fields) && GoodStack(at) && i < |sc|
    ensures var own := if at == sc[i].names then t else "";
      Store(sc, fields, PathOf(at), t).0[i] == fields[i].Append(own)
    ensures Store(sc, fields, PathOf(at), t).1 == OK <==>
      forall j :: 0 <= j < |sc| ==> Takes(sc, fields, j, if at == sc[j].names then t else "")
  {
    hide PathOf, Find;
    var k := Find(sc, PathOf(at));
    forall j | 0 <= j < |sc| ensures (at == sc[j].names) <==> j == k {
      FindIs(sc, at, j);
    }
    AppendNothing(fields[i]);
    forall j | 0 <= j < |sc| ensures Takes(sc, fields, j, "") {
      AppendNothing(fields[j]);
    }
  }

  /** The field found for a path is the one with those element names. */
  lemma FindIs(sc: Schema, at: seq<string>, j: nat)
    requires ValidSchema(sc) && GoodStack(at) && j < |sc|
    ensures at == sc[j].names <==> j == Find(sc, PathOf(at))
  {
    hide PathOf;
    PathsDistinct(at, sc[j].names);
    var k := Find(sc, PathOf(at));
    if k < |sc| { PathsDistinct(at, sc[k].names); }
    assert k < |sc| && sc[j].names == sc[k].names ==> j == k;
  }

  /** Every field ends up with exactly the text of its element; the parse goes on exactly when every
      field takes it. */
  lemma {:induction false} CollectText(sc: Schema, fields: Fields, at: seq<string>, f: Forest)
    requires ValidSchema(sc) && ValidFields(sc, fields) && GoodStack(at) && GoodNames(f)
    ensures var r := Collect(sc, fields, at, f);
      && ValidFields(sc, r.0)
      && (r.1 == OK <==> TakesAll(sc, fields, at, f))
      && (r.1 == OK ==> forall i :: 0 <= i < |sc| ==> r.0[i] == fields[i].Append(TextIn(f, at, sc[i].names)))
    decreases f
  {
    hide PathOf, Store, ValidSchema, GoodStack, Find;
    match f
    case Nil =>
      forall i | 0 <= i < |sc| ensures fields[i].Append("") == fields[i] && fields[i].Fits("") {
        AppendNothing(fields[i]);
      }
    case Text(t, rest) =>
      CollectTextNode(sc, fields, at, t, rest);
    case Elem(n, kids, rest) =>
      StackSnoc(at, n);
      CollectText(sc, fields, at + [n], kids);
      var r := Collect(sc, fields, at + [n], kids);
      if r.1 == OK {
        CollectText(sc, r.0, at, rest);
        forall i | 0 <= i < |sc|
          ensures Collect(sc, r.0, at, rest).1 == OK ==>
            Collect(sc, r.0, at, rest).0[i] == fields[i].Append(TextIn(f, at, sc[i].names))
          ensures Takes(sc, fields, i, TextIn(f, at, sc[i].names)) <==>
            Takes(sc, fields, i, TextIn(kids, at + [n], sc[i].names))
              && Takes(sc, r.0, i, TextIn(rest, at, sc[i].names))
        {
          TakesTwice(sc, fields, r.0, i, TextIn(kids, at + [n], sc[i].names), TextIn(rest, at, sc[i].names));
        }
      } else {
        var i :| 0 <= i < |sc| && !Takes(sc, fields, i, TextIn(kids, at + [n], sc[i].names));
      }
  }

  lemma CollectTextNode(sc: Schema, fields: Fields, at: seq<string>, t: string, rest: Forest)
    requires ValidSchema(sc) && ValidFields(sc, fields) && GoodStack(at) && GoodNames(rest)
    ensures var f := Text(t, rest);
      var r := Collect(sc, fields, at, f);
      && ValidFields(sc, r.0)
      && (r.1 == OK <==> TakesAll(sc, fields, at, f))
      && (r.1 == OK ==> forall i :: 0 <= i < |sc| ==> r.0[i] == fields[i].Append(TextIn(f, at, sc[i].names)))
    decreases Text(t, rest), 0
  {
    hide PathOf, Store, ValidSchema, GoodStack, Find;
    var f := Text(t, rest);
    var r := Store(sc, fields, PathOf(at), t);
    StoreValid(sc, fields, PathOf(at), t);
    forall i | 0 <= i < |sc|
      ensures r.0[i] == fields[i].Append(if at == sc[i].names then t else "")
      ensures r.1 == OK <==> forall j :: 0 <= j < |sc| ==> Takes(sc, fields, j, if at == sc[j].names then t else "")
    {
      StoreField(sc, fields, at, t, i);
    }
    if r.1 == OK {
      CollectText(sc, r.0, at, rest);
      forall i | 0 <= i < |sc|
        ensures r.0[i].Append(TextIn(rest, at, sc[i].names)) == fields[i].Append(TextIn(f, at, sc[i].names))
        ensures Takes(sc, fields, i, TextIn(f, at, sc[i].names)) <==>
                Takes(sc, fields, i, if at == sc[i].names then t else "")
                  && Takes(sc, r.0, i, TextIn(rest, at, sc[i].names))
      {
        TakesTwice(sc, fields, r.0, i, if at == sc[i].names then t else "", TextIn(rest, at, sc[i].names));
      }
    } else {
      StoreNone(sc, fields, at, t);
      var i :| 0 <= i < |sc| && !Takes(sc, fields, i, if at == sc[i].names then t else "");
    }
  }

  lemma StoreNone(sc: Schema, fields: Fields, at: seq<string>, t: string)
    requires ValidSchema(sc) && ValidFields(sc, fields) && GoodStack(at)
    requires Store(sc, fields, PathOf(at), t).1 != OK
    ensures exists i :: 0 <= i < |sc| && !Takes(sc, fields, i, if at == sc[i].names then t else "")
  {
    hide PathOf, Find;
    var k := Find(sc, PathOf(at));
    StoreField(sc, fields, at, t, k);
  }

  lemma StackSnoc(at: seq<string>, n: string)
    requires GoodStack(at) && GoodName(n)
    ensures GoodStack(at + [n])
  {}

  lemma TakesTwice(sc: Schema, fields: Fields, fields': Fields, i: nat, x: string, y: string)
    requires ValidFields(sc, fields) && |fields'| == |sc| && i < |sc| && fields'[i] == fields[i].Append(x)
    ensures fields'[i].Append(y) == fields[i].Append(x + y)
    ensures Takes(sc, fields, i, x + y) <==> Takes(sc, fields, i, x) && Takes(sc, fields', i, y)
  {
    AppendTwice(fields[i], x, y);
  }

  // ---------------------------------------------------------------- callbacks of that shape

  /** What a callback works on: the buffers, and whatever else it keeps. */
  datatype Acc<S> = Acc(fields: Fields, state: S)

  /** What happens at the end of the element with that path. */
  type OnEnd<!S> = (string, Acc<S>) -> (Acc<S>, S3Status)

  function Reader<S>(sc: Schema, onEnd: OnEnd<S>): Callback<Acc<S>> {
    (path: string, data: Option<string>, acc: Acc<S>) =>
      match data
      case None => onEnd(path, acc)
      case Some(text) =>
        if |acc.fields| != |sc| then (acc, OK)
        else
          var r := Store(sc, acc.fields, path, text);
          (acc.(fields := r.0), r.1)
  }

  ghost function Intact<S>(sc: Schema): Acc<S> -> bool {
    (acc: Acc<S>) => ValidFields(sc, acc.fields)
  }

  ghost predicate KeepsFields<S(!new)>(sc: Schema, onEnd: OnEnd<S>) {
    forall path: string, acc: Acc<S> :: ValidFields(sc, acc.fields) ==> ValidFields(sc, onEnd(path, acc).0.fields)
  }

  /** Callbacks of that shape do not notice how text is cut into chunks. */
  lemma ReaderAdditive<S(!new)>(sc: Schema, onEnd: OnEnd<S>)
    requires KeepsFields(sc, onEnd)
    ensures Additive(Reader(sc, onEnd), Intact(sc)) && Preserves(Reader(sc, onEnd), Intact(sc))
  {
    hide Store, ValidFields;
    var h, inv := Reader(sc, onEnd), Intact<S>(sc);
    forall path, d, x, y | inv(d) ensures AdditiveAt(h, path, d, x, y) {
      StoreTwice(sc, d.fields, path, x, y);
    }
    forall path, data, d | inv(d) ensures inv(h(path, data, d).0) {
      match data
      case None =>
      case Some(t) => StoreValid(sc, d.fields, path, t);
    }
  }

  /** Inside `at`, the end of an element does nothing. */
  ghost predicate Quiet<S(!new)>(onEnd: OnEnd<S>, at: seq<string>) {
    forall inner: seq<string>, acc {:trigger onEnd(PathOf(inner), acc)} ::
      at < inner && GoodStack(inner) ==> onEnd(PathOf(inner), acc) == (acc, OK)
  }

  /** Every path in the forest goes into the path buffer. */
  ghost predicate FitsPaths(at: seq<string>, f: Forest)
    decreases f
  {
    match f
    case Nil => true
    case Text(_, rest) => FitsPaths(at, rest)
    case Elem(n, kids, rest) =>
      |PathOf(at)| + |n| + 1 < PATH_SIZE && FitsPaths(at + [n], kids) && FitsPaths(at, rest)
  }

  /** With a callback that accepts everything, a document is read to its end exactly when all its paths fit,
      and fails to parse otherwise. */
  lemma {:induction false} PathsDecide<D(!new)>(h: Callback<D>, at: seq<string>, d: D, f: Forest)
    requires forall path, data, e: D :: h(path, data, e).1 == OK
    ensures Eval(h, at, d, f).1 == if FitsPaths(at, f) then OK else XmlParseFailure
    decreases f
  {
    hide PathOf;
    match f
    case Nil =>
    case Text(t, rest) =>
      PathsDecide(h, at, h(PathOf(at), Some(t), d).0, rest);
    case Elem(n, kids, rest) =>
      PathsDecide(h, at + [n], d, kids);
      var k := Eval(h, at + [n], d, kids).0;
      PathsDecide(h, at, h(PathOf(at + [n]), None, k).0, rest);
  }

  /** There, reading a document is collecting its text. */
  lemma {:induction false} QuietEval<S(!new)>(sc: Schema, onEnd: OnEnd<S>, at: seq<string>, acc: Acc<S>, f: Forest)
    requires Quiet(onEnd, at) && GoodStack(at) && GoodNames(f) && FitsPaths(at, f) && |acc.fields| == |sc|
    ensures var r := Collect(sc, acc.fields, at, f);
      Eval(Reader(sc, onEnd), at, acc, f) == (acc.(fields := r.0), r.1)
    decreases f
  {
    hide PathOf, Store;
    match f
    case Nil =>
    case Text(t, rest) =>
      var r := Store(sc, acc.fields, PathOf(at), t);
      QuietEval(sc, onEnd, at, acc.(fields := r.0), rest);
    case Elem(n, kids, rest) =>
      StackSnoc(at, n);
      QuietEval(sc, onEnd, at + [n], acc, kids);
      var r := Collect(sc, acc.fields, at + [n], kids);
      QuietEval(sc, onEnd, at, acc.(fields := r.0), rest);
  }

  /** Elements that do not lie above the target have none of its text. */
  lemma {:induction false} TextOutside(f: Forest, at: seq<string>, target: seq<string>)
    requires !(at <= target)
    ensures TextIn(f, at, target) == ""
    decreases f
  {
    match f
    case Nil =>
    case Text(_, rest) => TextOutside(rest, at, target);
    case Elem(n, kids, rest) =>
      TextOutside(kids, at + [n], target);
      TextOutside(rest, at, target);
  }

  lemma FilledFromEmpty(cap: nat, t: string)
    ensures Empty(cap).Append(t) == Filled(cap, t)
    ensures Empty(cap).Fits(t) <==> |t| <= cap
  {
    assert Filled(cap, "") == Empty(cap) && "" + t == t;
    FilledAppend(cap, "", t);
  }

  /** An element without fields below it leaves the buffers as they are. */
  lemma CollectNothing(sc: Schema, fields: Fields, at: seq<string>, f: Forest)
    requires ValidSchema(sc) && ValidFields(sc, fields) && GoodStack(at) && GoodNames(f)
    requires forall i :: 0 <= i < |sc| ==> !(at <= sc[i].names)
    ensures Collect(sc, fields, at, f) == (fields, OK)
  {
    hide Collect, ValidSchema, GoodStack;
    CollectText(sc, fields, at, f);
    forall i | 0 <= i < |sc|
      ensures TextIn(f, at, sc[i].names) == "" && fields[i].Append("") == fields[i] && fields[i].Fits("")
    {
      TextOutside(f, at, sc[i].names);
      AppendNothing(fields[i]);
    }
    assert Collect(sc, fields, at, f).0 == fields;
  }

  /** Text of an element without a buffer is dropped. */
  lemma StoreElsewhere(sc: Schema, fields: Fields, at: seq<string>, t: string)
    requires ValidSchema(sc) && |fields| == |sc| && GoodStack(at)
    requires forall i :: 0 <= i < |sc| ==> sc[i].names != at
    ensures Store(sc, fields, PathOf(at), t) == (fields, OK)
  {
    hide PathOf;
    var k := Find(sc, PathOf(at));
    if k < |sc| { FindIs(sc, at, k); }
  }
}
