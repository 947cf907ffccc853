/** The error document (src/error_parser.c): four known elements go to buffers, the text of any other
    element inside Error becomes an extra detail. */
module ErrorParser {
  import opened Strings
  import opened Status
  import opened StringBuffers
  import opened SimpleXml
  import opened XmlDocuments
  import opened XmlRecords

  /** The size of extraDetailsNamesValues, and how many extras the array of them has room for. */
  const EXTRAS_SIZE: nat := 8192
  const EXTRA_DETAILS_SIZE: nat := 8
  /** sizeof(errorParser->extraDetails) in bytes, which the count of extras is compared with. */
  const EXTRA_DETAILS_BYTES: nat := 128

  const ROOT := ["Error"]
  const IGNORED := "Error"
  const INSIDE := "Error/"

  function Buffers(): Schema {
    [Field(["Error", "Code"], 1024, OK), Field(["Error", "Message"], 1024, OK),
     Field(["Error", "Resource"], 1024, OK), Field(["Error", "FurtherDetails"], 1024, OK)]
  }

  /** An S3NameValue. */
  datatype Extra = Extra(name: string, value: string)

  /** The extras so far, and how much of the multibuffer is used. */
  datatype Extras = Extras(items: seq<Extra>, size: nat)

  datatype ErrorData = ErrorData(fields: Fields, extras: Extras)

  const INITIAL := ErrorData([Empty(1024), Empty(1024), Empty(1024), Empty(1024)], Extras([], 0))

  /** string_multibuffer_add: the size afterwards, and whether the string fitted. */
  function Added(size: nat, len: nat): (nat, bool) {
    if size + len + 1 > EXTRAS_SIZE then (EXTRAS_SIZE, false) else (size + len + 1, true)
  }

  /** string_multibuffer_append */
  function Appended(size: nat, len: nat): (nat, bool)
    requires size > 0
  {
    Added(size - 1, len)
  }

  /** Text of an element that is not one of the four. */
  function Unknown(x: Extras, name: string, data: string): Extras {
    var n := |x.items|;
    if n > 0 && x.items[n - 1].name == name && x.size > 0 then
      var a := Appended(x.size, |data|);
      Extras(if a.1 then x.items[..n - 1] + [Extra(name, x.items[n - 1].value + data)] else x.items[..n - 1], a.0)
    else if n == EXTRA_DETAILS_BYTES then x
    else
      var a := Added(x.size, |name|);
      if !a.1 then Extras(x.items, a.0)
      else
        var b := Added(a.0, |data|);
        Extras(if b.1 then x.items + [Extra(name, data)] else x.items, b.0)
  }

  /** errorXmlCallback */
  function XmlCallback(): Callback<ErrorData> {
    (path: string, data: Option<string>, d: ErrorData) =>
      if data.None? || |d.fields| != 4 || path == IGNORED then (d, OK)
      else
        var i := Find(Buffers(), path);
        if i < 4 then (d.(fields := Store(Buffers(), d.fields, path, data.value).0), OK)
        else if INSIDE <= path then (d.(extras := Unknown(d.extras, path[6..], data.value)), OK)
        else (d, OK)
  }

  // ---------------------------------------------------------------- chunks

  /** Neighbouring extras have different names. */
  ghost predicate Separated(x: Extras) {
    && x.size <= EXTRAS_SIZE
    && (x.items != [] ==> x.size > 0)
    && forall i :: 0 < i < |x.items| ==> x.items[i - 1].name != x.items[i].name
  }

  lemma UnknownKeeps(x: Extras, name: string, data: string)
    requires Separated(x)
    ensures Separated(Unknown(x, name, data))
  {}

  /** Two chunks are as good as one, also when they do not fit. */
  lemma UnknownTwice(x: Extras, name: string, a: string, b: string)
    requires Separated(x)
    ensures Unknown(Unknown(x, name, a), name, b) == Unknown(x, name, a + b)
  {
    var n := |x.items|;
    var y := Unknown(x, name, a);
    if n > 0 && x.items[n - 1].name == name {
      assert x.items[n - 1].value + a + b == x.items[n - 1].value + (a + b);
      if y.size == x.size + |a| {
        assert y.items[..n - 1] == x.items[..n - 1];
      }
    } else if |y.items| == n + 1 {
      assert y.items[..n] == x.items;
    }
  }

  ghost function Intact(): ErrorData -> bool {
    (d: ErrorData) => ValidFields(Buffers(), d.fields) && Separated(d.extras)
  }

  /** However the text of an error document is cut into chunks, the outcome is the same. */
  lemma ErrorIgnoresChunks(f: Forest, g: Forest)
    requires Merge(f) == Merge(g)
    ensures Eval(XmlCallback(), [], INITIAL, f) == Eval(XmlCallback(), [], INITIAL, g)
  {
    hide Eval, Merge, ValidFields, Store, Unknown, Separated, Buffers;
    var h, inv := XmlCallback(), Intact();
    forall path, d, x, y | inv(d) ensures AdditiveAt(h, path, d, x, y) {
      CallbackTwice(path, d, x, y);
    }
    forall path, data, d | inv(d) ensures inv(h(path, data, d).0) {
      CallbackKeeps(path, data, d);
    }
    InitialIntact();
    SameTextSameResult(h, inv, [], INITIAL, f, g);
  }

  lemma InitialIntact()
    ensures Intact()(INITIAL) && ValidFields(Buffers(), INITIAL.fields)
    ensures forall i :: 0 <= i < 4 ==> INITIAL.fields[i] == Empty(1024)
  {}

  lemma CallbackKeeps(path: string, data: Option<string>, d: ErrorData)
    requires Intact()(d)
    ensures Intact()(XmlCallback()(path, data, d).0)
  {
    hide ValidFields, Store, Unknown, Separated, Find, Buffers;
    FieldCount(d.fields);
    if data.Some? {
      StoreValid(Buffers(), d.fields, path, data.value);
      if INSIDE <= path { UnknownKeeps(d.extras, path[6..], data.value); }
    }
  }

  lemma FieldCount(fields: Fields)
    requires ValidFields(Buffers(), fields)
    ensures |fields| == 4 == |Buffers()|
  {}

  lemma NoOverflow(fields: Fields, path: string, t: string)
    requires |fields| == 4
    ensures Store(Buffers(), fields, path, t).1 == OK
  {}

  lemma CallbackTwice(path: string, d: ErrorData, x: string, y: string)
    requires Intact()(d)
    ensures AdditiveAt(XmlCallback(), path, d, x, y)
  {
    hide ValidFields, Store, Unknown, Separated, Find, Buffers;
    FieldCount(d.fields);
    StoreTwice(Buffers(), d.fields, path, x, y);
    NoOverflow(d.fields, path, x);
    if INSIDE <= path { UnknownTwice(d.extras, path[6..], x, y); }
  }

  // ---------------------------------------------------------------- what a document amounts to

  /** The texts of a forest in document order, each with the elements it stands in. */
  function Texts(f: Forest, at: seq<string>): seq<(seq<string>, string)>
    decreases f
  {
    match f
    case Nil => []
    case Text(t, rest) => [(at, t)] + Texts(rest, at)
    case Elem(n, kids, rest) => Texts(kids, at + [n]) + Texts(rest, at)
  }

  predicate IsKnown(at: seq<string>) { exists i :: 0 <= i < |Buffers()| && Buffers()[i].names == at }

  /** Text directly inside Error is ignored, text of the four elements goes to their buffers. */
  predicate IsUnknown(at: seq<string>) { |at| > 1 && at[0] == "Error" && !IsKnown(at) }

  /** The texts of unknown elements, each with the path below Error. */
  function UnknownTexts(ts: seq<(seq<string>, string)>): (r: seq<Extra>) {
    if ts == [] then []
    else (if IsUnknown(ts[0].0) then [Extra(PathOf(ts[0].0[1..]), ts[0].1)] else []) + UnknownTexts(ts[1..])
  }

  function UnknownAll(x: Extras, us: seq<Extra>): Extras
    decreases |us|
  {
    if us == [] then x else UnknownAll(Unknown(x, us[0].name, us[0].value), us[1..])
  }

  lemma {:induction false} UnknownTextsAppend(a: seq<(seq<string>, string)>, b: seq<(seq<string>, string)>)
    ensures UnknownTexts(a + b) == UnknownTexts(a) + UnknownTexts(b)
  {
    hide IsKnown, PathOf;
    if a == [] {
      Nothing(b);
      Nothing(UnknownTexts(b));
    } else {
      TailOfSum(a, b);
      UnknownTextsAppend(a[1..], b);
      var first := if IsUnknown(a[0].0) then [Extra(PathOf(a[0].0[1..]), a[0].1)] else [];
      Regroup(first, UnknownTexts(a[1..]), UnknownTexts(b));
    }
  }

  lemma TailOfSum<T>(a: seq<T>, b: seq<T>)
    requires a != []
    ensures (a + b)[1..] == a[1..] + b && (a + b)[0] == a[0] && a + b != []
  {}

  lemma {:induction false} UnknownAllAppend(x: Extras, a: seq<Extra>, b: seq<Extra>)
    ensures UnknownAll(x, a + b) == UnknownAll(UnknownAll(x, a), b)
    decreases |a|
  {
    hide Unknown;
    if a == [] {
      assert a + b == b;
    } else {
      assert (a + b)[1..] == a[1..] + b;
      UnknownAllAppend(Unknown(x, a[0].name, a[0].value), a[1..], b);
    }
  }

  lemma ErrorNames()
    ensures GoodName("Error") && GoodName("Code") && GoodName("Message") && GoodName("Resource")
    ensures GoodName("FurtherDetails")
  {}

  const CODES := [(2, 4, 'C'), (2, 7, 'M'), (2, 8, 'R'), (2, 14, 'F')]

  lemma BufferCodes()
    ensures forall i :: 0 <= i < 4 ==> Code(Buffers()[i].names) == CODES[i]
  {}

  lemma BuffersValid()
    ensures ValidSchema(Buffers()) && |Buffers()| == 4 && GoodStack(ROOT)
  {
    hide GoodName, Code;
    ErrorNames();
    BufferCodes();
    DistinctByCode(Buffers(), CODES);
  }

  /** Where the text of an element goes. */
  lemma PathKinds(at: seq<string>)
    requires GoodStack(at) && at != [] && at[0] == "Error"
    ensures PathOf(at) == IGNORED <==> |at| == 1
    ensures Find(Buffers(), PathOf(at)) < 4 <==> IsKnown(at)
    ensures |at| > 1 ==> INSIDE <= PathOf(at) && PathOf(at)[6..] == PathOf(at[1..])
  {
    BuffersValid();
    hide PathOf, GoodName, ValidSchema, Buffers, Find;
    PathCons(ROOT);
    PathsDistinct(at, ROOT);
    assert |at| == 1 ==> at == ROOT;
    forall i | 0 <= i < 4 ensures at == Buffers()[i].names <==> i == Find(Buffers(), PathOf(at)) {
      FindIs(Buffers(), at, i);
    }
    if |at| > 1 {
      assert at == ["Error"] + at[1..];
      PathCons(at[1..]);
    }
  }

  lemma PathCons(rest: seq<string>)
    requires rest != []
    ensures PathOf(ROOT) == IGNORED
    ensures PathOf(["Error"] + rest) == INSIDE + PathOf(rest)
    ensures INSIDE <= PathOf(["Error"] + rest) && PathOf(["Error"] + rest)[6..] == PathOf(rest)
  {
    JoinCons("Error", rest, '/');
    assert PathOf(["Error"] + rest) == INSIDE + PathOf(rest);
  }

  /** Reading the inside of Error: the four buffers get the text of their elements, and the extras get
      the unknown texts in document order. */
  lemma {:induction false} InsideEval(at: seq<string>, d: ErrorData, f: Forest)
    requires GoodStack(at) && at != [] && at[0] == "Error" && GoodNames(f) && FitsPaths(at, f)
    requires ValidFields(Buffers(), d.fields)
    ensures var e := Eval(XmlCallback(), at, d, f);
      && e.1 == OK
      && ValidFields(Buffers(), e.0.fields)
      && e.0.extras == UnknownAll(d.extras, UnknownTexts(Texts(f, at)))
      && (forall i :: 0 <= i < 4 ==> e.0.fields[i] == d.fields[i].Append(TextIn(f, at, Buffers()[i].names)))
    decreases f
  {
    hide PathOf, GoodStack, ValidFields, Buffers, Unknown, UnknownAll, UnknownTexts, XmlCallback;
    FieldCount(d.fields);
    match f
    case Nil =>
      NothingAppended(d.fields);
      NoUnknown(d.extras);
    case Text(t, rest) =>
      OneText(at, d, t);
      InsideEval(at, XmlCallback()(PathOf(at), Some(t), d).0, rest);
      UnknownTextsAppend([(at, t)], Texts(rest, at));
      UnknownAllAppend(d.extras, UnknownTexts([(at, t)]), UnknownTexts(Texts(rest, at)));
      forall i | 0 <= i < 4
        ensures d.fields[i].Append(if at == Buffers()[i].names then t else "")
                  .Append(TextIn(rest, at, Buffers()[i].names))
             == d.fields[i].Append(TextIn(f, at, Buffers()[i].names))
      {
        FieldTwice(d.fields, i, if at == Buffers()[i].names then t else "", TextIn(rest, at, Buffers()[i].names));
      }
    case Elem(n, kids, rest) =>
      StackSnoc(at, n);
      InsideEval(at + [n], d, kids);
      var k := Eval(XmlCallback(), at + [n], d, kids).0;
      EndIgnored(PathOf(at + [n]), k);
      InsideEval(at, k, rest);
      UnknownTextsAppend(Texts(kids, at + [n]), Texts(rest, at));
      UnknownAllAppend(d.extras, UnknownTexts(Texts(kids, at + [n])), UnknownTexts(Texts(rest, at)));
      forall i | 0 <= i < 4
        ensures d.fields[i].Append(TextIn(kids, at + [n], Buffers()[i].names))
                  .Append(TextIn(rest, at, Buffers()[i].names))
             == d.fields[i].Append(TextIn(f, at, Buffers()[i].names))
      {
        FieldTwice(d.fields, i, TextIn(kids, at + [n], Buffers()[i].names), TextIn(rest, at, Buffers()[i].names));
      }
  }

  lemma EndIgnored(path: string, d: ErrorData)
    ensures XmlCallback()(path, None, d) == (d, OK)
  {}

  lemma NothingAppended(fields: Fields)
    requires ValidFields(Buffers(), fields)
    ensures forall i :: 0 <= i < |fields| ==> fields[i].Append("") == fields[i]
  {
    forall i | 0 <= i < |fields| ensures fields[i].Append("") == fields[i] {
      AppendNothing(fields[i]);
    }
  }

  lemma NoUnknown(x: Extras)
    ensures UnknownAll(x, UnknownTexts([])) == x
  {}

  lemma FieldTwice(fields: Fields, i: nat, a: string, b: string)
    requires ValidFields(Buffers(), fields) && i < |fields|
    ensures fields[i].Append(a).Append(b) == fields[i].Append(a + b)
  {
    AppendTwice(fields[i], a, b);
  }

  lemma OneText(at: seq<string>, d: ErrorData, t: string)
    requires GoodStack(at) && at != [] && at[0] == "Error" && ValidFields(Buffers(), d.fields)
    ensures var e := XmlCallback()(PathOf(at), Some(t), d);
      && e.1 == OK
      && ValidFields(Buffers(), e.0.fields)
      && e.0.extras == UnknownAll(d.extras, UnknownTexts([(at, t)]))
      && |e.0.fields| == 4 == |d.fields| == |Buffers()|
      && (forall i :: 0 <= i < 4 ==> e.0.fields[i] == d.fields[i].Append(if at == Buffers()[i].names then t else ""))
  {
    hide PathOf, GoodStack, Unknown, Find;
    BuffersValid();
    PathKinds(at);
    OneUnknown(d.extras, at, t);
    StoreValid(Buffers(), d.fields, PathOf(at), t);
    forall i | 0 <= i < 4
      ensures Store(Buffers(), d.fields, PathOf(at), t).0[i]
        == d.fields[i].Append(if at == Buffers()[i].names then t else "")
    {
      StoreField(Buffers(), d.fields, at, t, i);
    }
    NothingAppended(d.fields);
  }

  lemma OneUnknown(x: Extras, at: seq<string>, t: string)
    ensures UnknownAll(x, UnknownTexts([(at, t)]))
         == if IsUnknown(at) then Unknown(x, PathOf(at[1..]), t) else x
  {
    hide Unknown, PathOf, IsKnown;
    var ts := [(at, t)];
    assert ts[1..] == [] && UnknownTexts([]) == [];
    if IsUnknown(at) {
      var u := Extra(PathOf(at[1..]), t);
      assert UnknownTexts(ts) == [u] + [] == [u];
      assert [u][1..] == [];
    }
  }

  // ---------------------------------------------------------------- the extras are the runs of unknown texts

  /** Texts of one element in a row make up one extra. */
  function AddRun(rs: seq<Extra>, u: Extra): seq<Extra> {
    var n := |rs|;
    if n > 0 && rs[n - 1].name == u.name then rs[..n - 1] + [Extra(u.name, rs[n - 1].value + u.value)] else rs + [u]
  }

  function Runs(us: seq<Extra>): seq<Extra> {
    if us == [] then [] else AddRun(Runs(us[..|us| - 1]), us[|us| - 1])
  }

  /** What the extras take up in the multibuffer, terminators included. */
  function Space(rs: seq<Extra>): nat {
    if rs == [] then 0 else Space(rs[..|rs| - 1]) + |rs[|rs| - 1].name| + |rs[|rs| - 1].value| + 2
  }

  lemma SpaceSnoc(rs: seq<Extra>, u: Extra)
    ensures Space(rs + [u]) == Space(rs) + |u.name| + |u.value| + 2
  {
    assert (rs + [u])[..|rs|] == rs;
  }

  /** An unknown text that fits goes to the runs. */
  lemma UnknownIsRun(rs: seq<Extra>, u: Extra)
    requires Space(AddRun(rs, u)) <= EXTRAS_SIZE && |AddRun(rs, u)| <= EXTRA_DETAILS_BYTES
    ensures Unknown(Extras(rs, Space(rs)), u.name, u.value) == Extras(AddRun(rs, u), Space(AddRun(rs, u)))
    ensures Space(rs) <= Space(AddRun(rs, u)) && |rs| <= |AddRun(rs, u)|
  {
    hide Space;
    var n := |rs|;
    if n > 0 && rs[n - 1].name == u.name {
      var front, last := rs[..n - 1], rs[n - 1];
      assert rs == front + [last];
      SpaceSnoc(front, last);
      SpaceSnoc(front, Extra(u.name, last.value + u.value));
    } else {
      SpaceSnoc(rs, u);
    }
  }

  /** After a text did not fit: the multibuffer counts as full, and some run at the end is missing. */
  ghost predicate Dropped(x: Extras, rs: seq<Extra>) {
    x.size == EXTRAS_SIZE && |x.items| < |rs| && x.items == rs[..|x.items|]
  }

  /** The first unknown text that does not fit. */
  lemma UnknownDrops(rs: seq<Extra>, u: Extra)
    requires Space(rs) <= EXTRAS_SIZE < Space(AddRun(rs, u)) && |AddRun(rs, u)| <= EXTRA_DETAILS_BYTES
    ensures var x := Unknown(Extras(rs, Space(rs)), u.name, u.value);
      Dropped(x, AddRun(rs, u)) && |x.items| <= |rs|
  {
    hide Space;
    var n := |rs|;
    if n > 0 && rs[n - 1].name == u.name {
      var front, last := rs[..n - 1], rs[n - 1];
      assert rs == front + [last];
      SpaceSnoc(front, last);
      SpaceSnoc(front, Extra(u.name, last.value + u.value));
    } else {
      SpaceSnoc(rs, u);
    }
  }

  /** After that nothing is added, but more can be lost: text for the last extra takes it away. */
  lemma DroppedStays(x: Extras, rs: seq<Extra>, u: Extra)
    requires Dropped(x, rs)
    ensures Dropped(Unknown(x, u.name, u.value), AddRun(rs, u))
    ensures |Unknown(x, u.name, u.value).items| <= |x.items|
  {
    var n, m := |x.items|, |rs|;
    var y, rs' := Unknown(x, u.name, u.value), AddRun(rs, u);
    assert rs'[..m - 1] == rs[..m - 1];
    assert rs'[..n] == rs[..m - 1][..n] == x.items;
    if n > 0 && x.items[n - 1].name == u.name && u.value == "" {
      assert x.items[n - 1].value + "" == x.items[n - 1].value;
      assert x.items[..n - 1] + [x.items[n - 1]] == x.items;
    }
  }

  lemma RunsSnoc(us: seq<Extra>, k: nat)
    requires k < |us|
    ensures Runs(us[..k + 1]) == AddRun(Runs(us[..k]), us[k])
    ensures UnknownAll(Extras([], 0), us[..k + 1])
         == Unknown(UnknownAll(Extras([], 0), us[..k]), us[k].name, us[k].value)
  {
    hide Unknown, AddRun;
    assert us[..k + 1][..k] == us[..k] && us[..k + 1] == us[..k] + [us[k]];
    UnknownAllAppend(Extras([], 0), us[..k], [us[k]]);
    var x := UnknownAll(Extras([], 0), us[..k]);
    assert [us[k]][1..] == [];
    assert UnknownAll(x, [us[k]]) == UnknownAll(Unknown(x, us[k].name, us[k].value), []);
  }

  lemma RunGrows(rs: seq<Extra>, u: Extra)
    ensures |rs| <= |AddRun(rs, u)| <= |rs| + 1 && Space(rs) <= Space(AddRun(rs, u))
  {
    hide Space;
    var n := |rs|;
    if n > 0 && rs[n - 1].name == u.name {
      var front, last := rs[..n - 1], rs[n - 1];
      assert rs == front + [last];
      SpaceSnoc(front, last);
      SpaceSnoc(front, Extra(u.name, last.value + u.value));
    } else {
      SpaceSnoc(rs, u);
    }
  }

  lemma NoRuns(us: seq<Extra>)
    ensures Runs(us[..0]) == [] && Space([]) == 0 && UnknownAll(Extras([], 0), us[..0]) == Extras([], 0)
  {}

  /** Of the first k texts the extras are all runs when these fit, and otherwise some of the first ones. */
  lemma {:induction false} ExtrasOfPrefix(us: seq<Extra>, k: nat)
    requires k <= |us| && |Runs(us[..k])| <= EXTRA_DETAILS_BYTES
    ensures var x, rs := UnknownAll(Extras([], 0), us[..k]), Runs(us[..k]);
      if Space(rs) <= EXTRAS_SIZE then x == Extras(rs, Space(rs)) else Dropped(x, rs)
  {
    hide Unknown, UnknownAll, Runs, AddRun, Space, Dropped;
    NoRuns(us);
    if k > 0 {
      RunsSnoc(us, k - 1);
      var rs, u := Runs(us[..k - 1]), us[k - 1];
      RunGrows(rs, u);
      ExtrasOfPrefix(us, k - 1);
      if Space(AddRun(rs, u)) <= EXTRAS_SIZE {
        UnknownIsRun(rs, u);
      } else if Space(rs) <= EXTRAS_SIZE {
        UnknownDrops(rs, u);
      } else {
        DroppedStays(UnknownAll(Extras([], 0), us[..k - 1]), rs, u);
      }
    }
  }

  /** The extras are the runs exactly when these fit into the multibuffer; in any case they are the first
      of them, unchanged. */
  lemma UnknownsAreRuns(us: seq<Extra>)
    requires |Runs(us)| <= EXTRA_DETAILS_BYTES
    ensures var x := UnknownAll(Extras([], 0), us);
      && x.items <= Runs(us)
      && (x.items == Runs(us) <==> Space(Runs(us)) <= EXTRAS_SIZE)
      && (Space(Runs(us)) <= EXTRAS_SIZE ==> x == Extras(Runs(us), Space(Runs(us))))
  {
    hide UnknownAll, Runs, Space;
    assert us[..|us|] == us;
    ExtrasOfPrefix(us, |us|);
  }

  // ---------------------------------------------------------------- the array of extras

  /** Every write into the array of extras goes to one of its elements: an extra is written at the
      index that is the count before, so the count must never get beyond the length of the array. */
  ghost predicate IndicesInside(us: seq<Extra>) {
    forall k :: 0 <= k <= |us| ==> |UnknownAll(Extras([], 0), us[..k]).items| <= EXTRA_DETAILS_SIZE
  }

  /** A ninth run begins while everything still fits. */
  ghost predicate NinthFits(us: seq<Extra>) {
    exists k :: 0 <= k <= |us| && |Runs(us[..k])| > EXTRA_DETAILS_SIZE && Space(Runs(us[..k])) <= EXTRAS_SIZE
  }

  lemma {:induction false} NinthReached(us: seq<Extra>, k: nat) returns (j: nat)
    requires k <= |us| && |Runs(us[..k])| > EXTRA_DETAILS_SIZE
    ensures j <= k && |Runs(us[..j])| == EXTRA_DETAILS_SIZE + 1 && Space(Runs(us[..j])) <= Space(Runs(us[..k]))
  {
    hide Runs, AddRun, Space;
    NoRuns(us);
    RunsSnoc(us, k - 1);
    RunGrows(Runs(us[..k - 1]), us[k - 1]);
    if |Runs(us[..k])| == EXTRA_DETAILS_SIZE + 1 {
      j := k;
    } else {
      j := NinthReached(us, k - 1);
    }
  }

  /** As long as no ninth run fits, the count stays within the array. */
  lemma {:induction false} CountStays(us: seq<Extra>, k: nat)
    requires k <= |us| && !NinthFits(us)
    ensures var x, rs := UnknownAll(Extras([], 0), us[..k]), Runs(us[..k]);
      && |x.items| <= EXTRA_DETAILS_SIZE
      && (Dropped(x, rs) || (Space(rs) <= EXTRAS_SIZE && x == Extras(rs, Space(rs))))
  {
    hide Unknown, UnknownAll, Runs, AddRun, Space, Dropped;
    NoRuns(us);
    if k > 0 {
      CountStays(us, k - 1);
      RunsSnoc(us, k - 1);
      var x, rs, u := UnknownAll(Extras([], 0), us[..k - 1]), Runs(us[..k - 1]), us[k - 1];
      RunGrows(rs, u);
      if Dropped(x, rs) {
        DroppedStays(x, rs, u);
      } else if Space(AddRun(rs, u)) <= EXTRAS_SIZE {
        UnknownIsRun(rs, u);
      } else {
        UnknownDrops(rs, u);
      }
    }
  }

  /** The source compares the count with the size of the array in bytes. So all writes go into the array
      exactly when no ninth run begins while everything still fits. */
  lemma ArrayIsRespected(us: seq<Extra>)
    ensures IndicesInside(us) <==> !NinthFits(us)
  {
    hide UnknownAll, Runs, Space, Dropped;
    if NinthFits(us) {
      var k :| 0 <= k <= |us| && |Runs(us[..k])| > EXTRA_DETAILS_SIZE && Space(Runs(us[..k])) <= EXTRAS_SIZE;
      var j := NinthReached(us, k);
      ExtrasOfPrefix(us, j);
      assert |UnknownAll(Extras([], 0), us[..j]).items| > EXTRA_DETAILS_SIZE;
    } else {
      forall k | 0 <= k <= |us| ensures |UnknownAll(Extras([], 0), us[..k]).items| <= EXTRA_DETAILS_SIZE {
        CountStays(us, k);
      }
    }
  }

  lemma {:induction false} RunsOfPrefix(us: seq<Extra>, k: nat, n: nat)
    requires k <= n <= |us|
    ensures |Runs(us[..k])| <= |Runs(us[..n])|
    decreases n - k
  {
    hide Runs, AddRun, Space;
    if k < n {
      RunsSnoc(us, k);
      RunGrows(Runs(us[..k]), us[k]);
      RunsOfPrefix(us, k + 1, n);
    }
  }

  /** When all runs fit into the multibuffer, that is when there are at most eight of them. */
  lemma AtMostEight(us: seq<Extra>)
    ensures |Runs(us)| <= EXTRA_DETAILS_SIZE ==> IndicesInside(us)
    ensures Space(Runs(us)) <= EXTRAS_SIZE ==> (IndicesInside(us) <==> |Runs(us)| <= EXTRA_DETAILS_SIZE)
  {
    hide IndicesInside, Runs, Space;
    ArrayIsRespected(us);
    assert us[..|us|] == us;
    if |Runs(us)| <= EXTRA_DETAILS_SIZE {
      forall k | 0 <= k <= |us| ensures |Runs(us[..k])| <= EXTRA_DETAILS_SIZE {
        RunsOfPrefix(us, k, |us|);
      }
    }
  }

  /** n elements with different names, each with a text. */
  function Details(n: nat): Forest { if n == 0 then Nil else Elem(Exes(n), Text("x", Nil), Details(n - 1)) }

  function Exes(n: nat): (s: string)
    ensures |s| == n && forall i :: 0 <= i < n ==> s[i] == 'x'
  {
    if n == 0 then "" else Exes(n - 1) + "x"
  }

  lemma ExesUnknown(n: nat)
    requires n > 0
    ensures IsUnknown(ROOT + [Exes(n)]) && PathOf([Exes(n)]) == Exes(n)
  {
    var at := ROOT + [Exes(n)];
    assert at[1] == Exes(n) && at[1][0] == 'x';
    forall i | 0 <= i < |Buffers()| ensures Buffers()[i].names != at {
      assert Buffers()[i].names[1][0] != 'x';
    }
  }

  lemma {:induction false} DetailsUnknown(n: nat)
    ensures |UnknownsOf(Details(n))| == n
    ensures forall i :: 0 <= i < n ==> UnknownsOf(Details(n))[i] == Extra(Exes(n - i), "x")
  {
    hide IsUnknown, PathOf, Exes;
    if n > 0 {
      ExesUnknown(n);
      DetailsUnknown(n - 1);
      var at := ROOT + [Exes(n)];
      assert at[1..] == [Exes(n)];
      assert Texts(Text("x", Nil), at) == [(at, "x")];
      UnknownTextsAppend([(at, "x")], Texts(Details(n - 1), ROOT));
      assert [(at, "x")][1..] == [];
      assert UnknownTexts([(at, "x")]) == [Extra(Exes(n), "x")];
    }
  }

  lemma {:induction false} DifferentRuns(us: seq<Extra>, k: nat)
    requires k <= |us| && forall i :: 0 < i < |us| ==> us[i - 1].name != us[i].name
    ensures Runs(us[..k]) == us[..k]
  {
    hide Runs, Unknown, UnknownAll;
    NoRuns(us);
    if k > 0 {
      DifferentRuns(us, k - 1);
      RunsSnoc(us, k - 1);
      assert us[..k] == us[..k - 1] + [us[k - 1]];
    }
  }

  lemma {:induction false} SpaceAtMost(us: seq<Extra>, each: nat)
    requires forall i :: 0 <= i < |us| ==> |us[i].name| + |us[i].value| + 2 <= each
    ensures Space(us) <= |us| * each
  {
    if us != [] {
      SpaceAtMost(us[..|us| - 1], each);
    }
  }

  /** The concrete document: nine different elements inside Error, and the ninth extra is written behind
      the array. */
  lemma NineAreTooMany()
    ensures var us := UnknownsOf(Details(9));
      |Runs(us)| == 9 && Space(Runs(us)) <= EXTRAS_SIZE && !IndicesInside(us)
  {
    hide Texts, UnknownTexts, Runs, Space, Details, Exes, IndicesInside;
    var us := UnknownsOf(Details(9));
    DetailsUnknown(9);
    DifferentRuns(us, 9);
    assert us[..9] == us;
    SpaceAtMost(us, 12);
    AtMostEight(us);
  }

  /** The unknown texts of the error document whose root has the given children. */
  function UnknownsOf(kids: Forest): seq<Extra> { UnknownTexts(Texts(kids, ROOT)) }

  /** What the error parser makes of an error document: the texts of the four elements as far as the
      buffers hold them, and the runs of all other texts as extra details, in order; the first of them
      only, exactly when not all fit. */
  lemma ErrorDetails(kids: Forest)
    requires GoodNames(kids) && FitsPaths([], Elem("Error", kids, Nil))
    ensures var e := Eval(XmlCallback(), [], INITIAL, Elem("Error", kids, Nil));
      && e.1 == OK && |e.0.fields| == 4
      && (forall i :: 0 <= i < 4 ==> e.0.fields[i] == Filled(1024, TextIn(kids, ROOT, Buffers()[i].names)))
      && e.0.extras == UnknownAll(Extras([], 0), UnknownsOf(kids))
      && (|Runs(UnknownsOf(kids))| <= EXTRA_DETAILS_BYTES ==>
            && e.0.extras.items <= Runs(UnknownsOf(kids))
            && (e.0.extras.items == Runs(UnknownsOf(kids)) <==> Space(Runs(UnknownsOf(kids))) <= EXTRAS_SIZE))
  {
    hide Eval, PathOf, GoodStack, ValidFields, UnknownAll, UnknownTexts, XmlCallback, Filled, TextIn, Runs, Space,
      Buffers;
    BuffersValid();
    InitialIntact();
    assert [] + ["Error"] == ROOT;
    EvalElem(XmlCallback(), [], INITIAL, "Error", kids, Nil);
    InsideEval(ROOT, INITIAL, kids);
    var d := Eval(XmlCallback(), ROOT, INITIAL, kids).0;
    EndIgnored(PathOf(ROOT), d);
    EvalNothing(XmlCallback(), [], d);
    FieldCount(d.fields);
    forall i | 0 <= i < 4 ensures d.fields[i] == Filled(1024, TextIn(kids, ROOT, Buffers()[i].names)) {
      FilledFromEmpty(1024, TextIn(kids, ROOT, Buffers()[i].names));
    }
    if |Runs(UnknownsOf(kids))| <= EXTRA_DETAILS_BYTES {
      UnknownsAreRuns(UnknownsOf(kids));
    }
  }

  /** The four known elements, by name. */
  lemma ErrorTexts(kids: Forest)
    requires GoodNames(kids) && FitsPaths([], Elem("Error", kids, Nil))
    ensures var fields := Eval(XmlCallback(), [], INITIAL, Elem("Error", kids, Nil)).0.fields;
      && |fields| == 4
      && fields[0].text == Kept(TextIn(kids, ["Error"], ["Error", "Code"]), 1023)
      && fields[1].text == Kept(TextIn(kids, ["Error"], ["Error", "Message"]), 1023)
      && fields[2].text == Kept(TextIn(kids, ["Error"], ["Error", "Resource"]), 1023)
      && fields[3].text == Kept(TextIn(kids, ["Error"], ["Error", "FurtherDetails"]), 1023)
  {
    hide Eval, XmlCallback, Filled, TextIn, Runs, Space, Kept, UnknownAll, UnknownTexts;
    ErrorDetails(kids);
    FilledKeeps(1024, TextIn(kids, ROOT, ["Error", "Code"]));
    FilledKeeps(1024, TextIn(kids, ROOT, ["Error", "Message"]));
    FilledKeeps(1024, TextIn(kids, ROOT, ["Error", "Resource"]));
    FilledKeeps(1024, TextIn(kids, ROOT, ["Error", "FurtherDetails"]));
  }

  /** Which texts become extra details: those below an element of Error other than the four, under the names
      of the elements that lead there, separated by slashes. */
  lemma UnknownMeans(at: seq<string>, t: string)
    ensures UnknownTexts([(at, t)])
         == if |at| > 1 && at[0] == "Error"
               && at !in [["Error", "Code"], ["Error", "Message"], ["Error", "Resource"], ["Error", "FurtherDetails"]]
            then [Extra(Join(at[1..], '/'), t)] else []
  {
    var ts := [(at, t)];
    assert ts[1..] == [];
    assert Buffers()[0].names == ["Error", "Code"] && Buffers()[1].names == ["Error", "Message"];
    assert Buffers()[2].names == ["Error", "Resource"] && Buffers()[3].names == ["Error", "FurtherDetails"];
  }
}
