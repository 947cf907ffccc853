/** Why the block src/request.c builds is the CanonicalHeaders and SignedHeaders of AWS Signature
    Version 4: one entry per distinct name, names ascending, values of one name joined by commas. */
module SigV4Headers {
  import opened Strings
  import opened GnomeSort
  import opened KvSort
  import opened Grouping
  import opened HeaderFolding
  import opened CanonicalHeaders

  // ---------------------------------------------------------------- the reference

  /** The value of a header line, folds taken out. */
  function FoldedValue(line: string): string {
    var k := |Name(line)| + 2;
    if k <= |line| then Unfolded(line[k..]) else []
  }

  function Entry(g: Group<string, string>): string {
    Lower(g.key) + ":" + Join(g.values, ',') + "\n"
  }

  /** The CanonicalHeaders text of groups of values. */
  function Render(g: seq<Group<string, string>>): string {
    if g == [] then [] else Render(g[..|g| - 1]) + Entry(g[|g| - 1])
  }

  function LowerKeys(g: seq<Group<string, string>>): seq<string> {
    if g == [] then [] else LowerKeys(g[..|g| - 1]) + [Lower(g[|g| - 1].key)]
  }

  predicate LowerLess(a: string, b: string) { Less(Lower(a), Lower(b)) }

  /** block and signed are the CanonicalHeaders and SignedHeaders of the lines: the lower-cased
      names, each once and ascending; under each name its values, last line first. */
  ghost predicate IsSigV4(block: string, signed: string, lines: seq<string>) {
    exists g :: IsGrouping(g, Reverse(lines), Name, FoldedValue, LowerLess)
             && block == Render(g) && signed == Join(LowerKeys(g), ';')
  }

  /** The names the library signs: lower-cased x-amz- names and four standard ones. */
  predicate Signable(n: string) {
    || n in {"Content-MD5", "Content-Type", "Host", "Range"}
    || (Lower(n) == n && "x-amz-" <= n)
  }

  // ---------------------------------------------------------------- the order of names

  lemma LowerOfStandard()
    ensures Lower("Content-MD5") == "content-md5"
    ensures Lower("Content-Type") == "content-type"
    ensures Lower("Host") == "host" && Lower("Range") == "range"
  {}

  lemma ContentOrder()
    ensures Less("Content-MD5", "Content-Type") && !Less("Content-Type", "Content-MD5")
    ensures Less("content-md5", "content-type")
  {
    LessAt("Content-MD5", "Content-Type", 8);
    LessAt("content-md5", "content-type", 8);
  }

  /** Sorting the raw names sorts the lower-cased ones. */
  lemma SignableOrder(a: string, b: string)
    requires Signable(a) && Signable(b) && Less(a, b)
    ensures Less(Lower(a), Lower(b))
  {
    LowerOfStandard();
    ContentOrder();
    LessTotal(a, a);
    if "x-amz-" <= a { assert a[0] == 'x'; }
    if "x-amz-" <= b { assert b[0] == 'x'; }
  }

  // ---------------------------------------------------------------- the loop renders groups

  lemma RenderSnoc(g: seq<Group<string, string>>, x: Group<string, string>)
    ensures Render(g + [x]) == Render(g) + Entry(x)
    ensures LowerKeys(g + [x]) == LowerKeys(g) + [Lower(x.key)]
  {
    assert (g + [x])[..|g|] == g;
  }

  lemma EntrySnoc(k: string, vs: seq<string>, v: string)
    requires vs != []
    ensures var e := Entry(Group(k, vs));
      Entry(Group(k, vs + [v])) == e[..|e| - 1] + "," + v + "\n"
  {
    hide Join, Lower;
    JoinSnoc(vs, v, ',');
    var e := Entry(Group(k, vs));
    assert e[..|e| - 1] == Lower(k) + ":" + Join(vs, ',');
  }

  /** Adding a value to the last group turns the final newline into a comma. */
  lemma RenderJoin(g: seq<Group<string, string>>, v: string)
    requires g != [] && g[|g| - 1].values != []
    ensures var m := |g| - 1;
      var h := g[m := Group(g[m].key, g[m].values + [v])];
      Render(g) != [] && Render(h) == Render(g)[..|Render(g)| - 1] + "," + v + "\n" && LowerKeys(h) == LowerKeys(g)
  {
    hide Entry, Lower, Render, LowerKeys;
    var m := |g| - 1;
    var last := Group(g[m].key, g[m].values + [v]);
    LastUpdate(g, last);
    RenderSnoc(g[..m], g[m]);
    RenderSnoc(g[..m], last);
    EntrySnoc(g[m].key, g[m].values, v);
    assert g[m] == Group(g[m].key, g[m].values);
    EntryNonempty(g[m]);
    assert Render(g[..m]) + Entry(last) == Render(g)[..|Render(g)| - 1] + "," + v + "\n";
  }

  lemma FoldedIsUnfolded(line: string)
    requires WellFormed(line)
    ensures FoldedValue(line) == Unfolded(Value(line))
  {}

  /** What the loop writes for the lines is the rendering of their groups. */
  lemma {:induction false} BlockRenders(lines: seq<string>)
    requires AllWellFormed(lines)
    ensures var g := Groups(lines, Name, FoldedValue);
      Block(lines) == Render(g) && NameList(lines) == EachThen(LowerKeys(g), ';')
  {
    hide Block, NameList, FoldedValue, Unfolded, Name, Value, Lower, Repeats, WellFormed, AllWellFormed, Render,
      LowerKeys, Entry, EachThen;
    if lines == [] {
      BlockEmpty(lines);
      assert lines[..0] == lines;
      RenderEmpty();
    } else {
      var n := |lines| - 1;
      var front, x := lines[..n], lines[n];
      BlockStep(lines, n);
      BlockRenders(front);
      FoldedIsUnfolded(x);
      assert lines[..n + 1] == lines;
      RendersSnoc(front, x, Repeats(lines, n), Block(front), NameList(front));
    }
  }

  /** One more line extends the rendering the way it extends the block. */
  lemma RendersSnoc(front: seq<string>, x: string, same: bool, block: string, names: string)
    requires WellFormed(x) && same == (front != [] && Name(front[|front| - 1]) == Name(x))
    requires var g := Groups(front, Name, FoldedValue); block == Render(g) && names == EachThen(LowerKeys(g), ';')
    requires same ==> block != []
    ensures var g := Groups(front + [x], Name, FoldedValue);
      && ExtendBlock(block, same, x) == Render(g)
      && names + (if same then [] else Lower(Name(x)) + ";") == EachThen(LowerKeys(g), ';')
  {
    hide Groups, FoldedValue, Unfolded, Name, Value, Lower, WellFormed, Render, LowerKeys, EachThen, ExtendBlock;
    FoldedIsUnfolded(x);
    GroupsSnoc(front, x, Name, FoldedValue);
    if same {
      RendersSame(Groups(front, Name, FoldedValue), x);
    } else {
      RendersNew(Groups(front, Name, FoldedValue), x);
    }
  }

  lemma RendersSame(g: seq<Group<string, string>>, x: string)
    requires WellFormed(x) && g != [] && g[|g| - 1].values != []
    ensures var m := |g| - 1;
      var h := g[m := Group(g[m].key, g[m].values + [FoldedValue(x)])];
      Render(g) != [] && ExtendBlock(Render(g), true, x) == Render(h) && LowerKeys(h) == LowerKeys(g)
  {
    hide FoldedValue, Unfolded, Name, Value, Lower, WellFormed, Render, LowerKeys;
    FoldedIsUnfolded(x);
    RenderJoin(g, FoldedValue(x));
  }

  lemma RendersNew(g: seq<Group<string, string>>, x: string)
    requires WellFormed(x)
    ensures var h := g + [Group(Name(x), [FoldedValue(x)])];
      && ExtendBlock(Render(g), false, x) == Render(h)
      && EachThen(LowerKeys(g), ';') + (Lower(Name(x)) + ";") == EachThen(LowerKeys(h), ';')
  {
    hide FoldedValue, Unfolded, Name, Value, Lower, WellFormed, Render, LowerKeys, EachThen;
    FoldedIsUnfolded(x);
    RenderNew(g, Name(x), FoldedValue(x));
    EachThenSnoc(LowerKeys(g), Lower(Name(x)), ';');
    assert EachThen(LowerKeys(g), ';') + Lower(Name(x)) + [';'] == EachThen(LowerKeys(g), ';') + (Lower(Name(x)) + ";");
  }

  lemma RenderEmpty()
    ensures Render([]) == [] && LowerKeys([]) == [] && EachThen([], ';') == []
  {}

  lemma RenderNew(g: seq<Group<string, string>>, k: string, v: string)
    ensures Render(g + [Group(k, [v])]) == Render(g) + Lower(k) + ":" + v + "\n"
    ensures LowerKeys(g + [Group(k, [v])]) == LowerKeys(g) + [Lower(k)]
  {
    hide Render, Lower, LowerKeys;
    RenderSnoc(g, Group(k, [v]));
    var r, l := Render(g), Lower(k);
    assert r + (l + ":" + v + "\n") == r + l + ":" + v + "\n";
  }

  lemma EntryNonempty(g: Group<string, string>)
    ensures Entry(g) != []
  {}

  // ---------------------------------------------------------------- the theorem

  lemma LessIsStrictOrder()
    ensures StrictOrder(Less)
    ensures forall x, y :: x == y || Less(x, y) || Less(y, x)
  {
    forall x, y ensures (Less(x, y) ==> !Less(y, x)) && (x == y || Less(x, y) || Less(y, x)) {
      LessTotal(x, y);
    }
    forall x, y, z | Less(x, y) && Less(y, z) ensures Less(x, z) {
      LessTransitive(x, y, z);
    }
  }

  ghost predicate AllSignable(lines: seq<string>) {
    forall i :: 0 <= i < |lines| ==> Signable(Name(lines[i]))
  }

  /** canonicalize_signature_headers, that is the sort followed by the loop, produces the
      CanonicalHeaders and SignedHeaders of the lines. */
  lemma CanonicalHeadersMeetSigV4(lines: seq<string>)
    requires lines != [] && AllWellFormed(lines) && AllSignable(lines)
    ensures var s := Sorted(ByKey(Self, ':'), lines);
      AllWellFormed(s) && s != [] && IsSigV4(Block(s), NameList(s)[..|NameList(s)| - 1], lines)
  {
    hide *;
    var lt := ByKey(Self, ':');
    var s := Sorted(lt, lines);
    var g := Groups(s, Name, FoldedValue);
    ByKeyIsOrder(Self, ':');
    LessIsStrictOrder();
    NamesOrder();
    SortedWellFormed(lt, lines);
    SortedGrouping(lt, lines, Name, FoldedValue, Less);
    LowerGrouping(g, lines);
    BlockRenders(s);
    LowerKeysLength(g);
    SigV4Witness(g, lines, NameList(s));
  }

  lemma SortedWellFormed(lt: (string, string) -> bool, lines: seq<string>)
    requires AllWellFormed(lines) && lines != []
    ensures AllWellFormed(Sorted(lt, lines)) && Sorted(lt, lines) != []
  {
    hide WellFormed, Sorted;
    SortedMembers(lt, lines);
    SortedPermutes(lt, lines);
    var s := Sorted(lt, lines);
    forall i | 0 <= i < |s| ensures WellFormed(s[i]) {
      assert s[i] in lines;
    }
  }

  lemma SigV4Witness(g: seq<Group<string, string>>, lines: seq<string>, names: string)
    requires g != [] && IsGrouping(g, Reverse(lines), Name, FoldedValue, LowerLess)
    requires |LowerKeys(g)| == |g| && names == EachThen(LowerKeys(g), ';')
    ensures names != [] && IsSigV4(Render(g), names[..|names| - 1], lines)
  {
    hide IsGrouping, Render, LowerKeys, EachThen, Join, Reverse, Name, FoldedValue;
    var signed := Join(LowerKeys(g), ';');
    EachThenJoin(LowerKeys(g), ';');
    assert (signed + ";")[..|signed|] == signed;
  }

  lemma NamesOrder()
    ensures forall a, b :: ByKey(Self, ':')(a, b) <==> Less(Name(a), Name(b))
  {}

  lemma {:induction false} LowerKeysLength(g: seq<Group<string, string>>)
    ensures |LowerKeys(g)| == |g|
  {
    if g != [] { LowerKeysLength(g[..|g| - 1]); }
  }

  /** For signable names a grouping in raw order is a grouping in lower-case order. */
  lemma LowerGrouping(g: seq<Group<string, string>>, lines: seq<string>)
    requires AllSignable(lines) && IsGrouping(g, Reverse(lines), Name, FoldedValue, Less)
    ensures IsGrouping(g, Reverse(lines), Name, FoldedValue, LowerLess)
  {
    hide Less, Name, Signable, Lower, FoldedValue;
    var r := Reverse(lines);
    forall i | 0 <= i < |g| ensures Signable(g[i].key) {
      ValuesEmpty(r, Name, FoldedValue, g[i].key);
      var j :| 0 <= j < |r| && Name(r[j]) == g[i].key;
      ReverseMembers(lines, r[j]);
    }
    forall i, j | 0 <= i < j < |g| ensures LowerLess(g[i].key, g[j].key) {
      SignableOrder(g[i].key, g[j].key);
    }
  }

  // ---------------------------------------------------------------- the signed text, written out

  lemma {:induction false} LowerKeysChars(g: seq<Group<string, string>>, i: nat)
    requires |LowerKeys(g)| == |g| && i < |g|
    ensures LowerKeys(g)[i] == Lower(g[i].key)
  {
    LowerKeysLength(g[..|g| - 1]);
    if i < |g| - 1 { LowerKeysChars(g[..|g| - 1], i); }
  }

  ghost predicate NoCapital(s: string) { forall i :: 0 <= i < |s| ==> !('A' <= s[i] <= 'Z') }

  lemma {:induction false} JoinNoCapital(ss: seq<string>, d: char)
    requires (forall i :: 0 <= i < |ss| ==> NoCapital(ss[i])) && !('A' <= d <= 'Z')
    ensures NoCapital(Join(ss, d))
  {
    if |ss| > 1 { JoinNoCapital(ss[1..], d); }
  }

  /** The name n, in lower case, is that of a line. */
  ghost predicate NameOfSome(n: string, lines: seq<string>) {
    exists i :: 0 <= i < |lines| && n == Lower(Name(lines[i]))
  }

  /** The names of the lines in lower case, each once, ascending. */
  ghost predicate Lists(ns: seq<string>, lines: seq<string>) {
    && Strict(Less, ns)
    && (forall i :: 0 <= i < |lines| ==> Lower(Name(lines[i])) in ns)
    && (forall j :: 0 <= j < |ns| ==> NameOfSome(ns[j], lines))
  }

  lemma GroupsList(g: seq<Group<string, string>>, lines: seq<string>)
    requires IsGrouping(g, Reverse(lines), Name, FoldedValue, LowerLess)
    ensures Lists(LowerKeys(g), lines)
  {
    hide Less, Name, FoldedValue, Lower, LowerKeys, NameOfSome;
    var ns := LowerKeys(g);
    LowerKeysLength(g);
    assert Strict(Less, ns) by {
      forall i, j | 0 <= i < j < |ns| ensures Less(ns[i], ns[j]) {
        LowerKeysChars(g, i);
        LowerKeysChars(g, j);
        assert LowerLess(g[i].key, g[j].key);
      }
    }
    forall i | 0 <= i < |lines| ensures Lower(Name(lines[i])) in ns {
      KeyOfLine(g, lines, i);
    }
    forall j | 0 <= j < |ns| ensures NameOfSome(ns[j], lines) {
      LineOfKey(g, lines, j);
    }
  }

  lemma KeysNoCapital(g: seq<Group<string, string>>)
    ensures NoCapital(Join(LowerKeys(g), ';'))
  {
    hide Lower, LowerKeys, Join, NoCapital;
    LowerKeysLength(g);
    forall i | 0 <= i < |g| ensures NoCapital(LowerKeys(g)[i]) {
      LowerKeysChars(g, i);
      LowerHasNone(g[i].key);
    }
    JoinNoCapital(LowerKeys(g), ';');
  }

  /** SignedHeaders has no upper-case letter, and lists exactly the names of the lines, in lower case and
      ascending, separated by semicolons. */
  lemma SignedNames(block: string, signed: string, lines: seq<string>)
    requires IsSigV4(block, signed, lines)
    ensures NoCapital(signed)
    ensures exists ns: seq<string> :: signed == Join(ns, ';') && Lists(ns, lines)
  {
    hide IsGrouping, Name, FoldedValue, Render, Lower, LowerKeys, Join, NoCapital, Lists, LowerLess;
    var g: seq<Group<string, string>> :| IsGrouping(g, Reverse(lines), Name, FoldedValue, LowerLess)
          && block == Render(g) && signed == Join(LowerKeys(g), ';');
    GroupsList(g, lines);
    KeysNoCapital(g);
  }

  lemma LowerHasNone(s: string)
    ensures NoCapital(Lower(s))
  {
    LowerMeans(s, s);
  }

  lemma KeyOfLine(g: seq<Group<string, string>>, lines: seq<string>, i: nat)
    requires Covers(g, Reverse(lines), Name) && i < |lines| && |LowerKeys(g)| == |g|
    ensures Lower(Name(lines[i])) in LowerKeys(g)
  {
    hide Name, Lower, LowerKeys, Reverse;
    ReverseMembers(lines, lines[i]);
    var j :| 0 <= j < |Reverse(lines)| && Reverse(lines)[j] == lines[i];
    assert HasKey(g, Name(Reverse(lines)[j]));
    var m :| 0 <= m < |g| && g[m].key == Name(lines[i]);
    LowerKeysChars(g, m);
  }

  lemma LineOfKey(g: seq<Group<string, string>>, lines: seq<string>, j: nat)
    requires HoldsValues(g, Reverse(lines), Name, FoldedValue) && j < |g| && |LowerKeys(g)| == |g|
    ensures NameOfSome(LowerKeys(g)[j], lines)
  {
    hide Name, Lower, LowerKeys, Reverse, FoldedValue;
    LowerKeysChars(g, j);
    ValuesEmpty(Reverse(lines), Name, FoldedValue, g[j].key);
    var k :| 0 <= k < |Reverse(lines)| && Name(Reverse(lines)[k]) == g[j].key;
    ReverseMembers(lines, Reverse(lines)[k]);
    var i :| 0 <= i < |lines| && lines[i] == Reverse(lines)[k];
  }

  lemma LineParts(n: string, v: string)
    requires ':' !in n && '\r' !in v
    ensures Name(n + ": " + v) == n && FoldedValue(n + ": " + v) == v
  {
    hide Unfolded;
    var l := n + ": " + v;
    assert l == n + [':'] + (" " + v);
    BeforeIs(n, ':', " " + v);
    assert l[|n| + 2..] == v;
    NoFold(v);
  }

  const SAMPLE := ["x-amz-meta-a: 1", "Host: h", "x-amz-meta-a: 2"]
  const SAMPLE_GROUPS: seq<Group<string, string>> := [Group("Host", ["h"]), Group("x-amz-meta-a", ["2", "1"])]

  lemma SampleLines()
    ensures Name(SAMPLE[0]) == "x-amz-meta-a" && Name(SAMPLE[1]) == "Host" && Name(SAMPLE[2]) == "x-amz-meta-a"
    ensures FoldedValue(SAMPLE[0]) == "1" && FoldedValue(SAMPLE[1]) == "h" && FoldedValue(SAMPLE[2]) == "2"
  {
    hide Name, FoldedValue;
    LineParts("x-amz-meta-a", "1");
    LineParts("Host", "h");
    LineParts("x-amz-meta-a", "2");
    assert "x-amz-meta-a" + ": " + "1" == SAMPLE[0] && "Host" + ": " + "h" == SAMPLE[1];
    assert "x-amz-meta-a" + ": " + "2" == SAMPLE[2];
  }

  lemma SampleLower()
    ensures Lower("Host") == "host" && Lower("x-amz-meta-a") == "x-amz-meta-a" && Less("host", "x-amz-meta-a")
  {}

  lemma SampleValues(n: string)
    ensures Reverse(SAMPLE) == [SAMPLE[2], SAMPLE[1], SAMPLE[0]]
    ensures ValuesOf(Reverse(SAMPLE), Name, FoldedValue, n)
         == if n == "Host" then ["h"] else if n == "x-amz-meta-a" then ["2", "1"] else []
  {
    hide Name, FoldedValue;
    SampleLines();
    var r := [SAMPLE[2], SAMPLE[1], SAMPLE[0]];
    assert SAMPLE[1..][1..] == [SAMPLE[2]] && [SAMPLE[2]][1..] == [];
    assert Reverse([SAMPLE[2]]) == [SAMPLE[2]];
    assert Reverse(SAMPLE[1..]) == [SAMPLE[2], SAMPLE[1]];
    assert Reverse(SAMPLE) == r;
    assert r == [r[0]] + ([r[1]] + ([r[2]] + []));
    ValuesCons(r[2], [], Name, FoldedValue, n);
    ValuesCons(r[1], [r[2]] + [], Name, FoldedValue, n);
    ValuesCons(r[0], [r[1]] + ([r[2]] + []), Name, FoldedValue, n);
  }

  lemma SampleGrouping()
    ensures IsGrouping(SAMPLE_GROUPS, Reverse(SAMPLE), Name, FoldedValue, LowerLess)
  {
    hide Name, FoldedValue, Less, ValuesOf, Reverse, Lower;
    SampleLower();
    SampleLines();
    SampleValues("Host");
    SampleValues("x-amz-meta-a");
    assert SAMPLE_GROUPS[0].key == "Host" && SAMPLE_GROUPS[1].key == "x-amz-meta-a";
    forall i | 0 <= i < |Reverse(SAMPLE)| ensures HasKey(SAMPLE_GROUPS, Name(Reverse(SAMPLE)[i])) {
      assert SAMPLE_GROUPS[if i == 1 then 0 else 1].key == Name(Reverse(SAMPLE)[i]);
    }
  }

  lemma SampleRendered()
    ensures Render(SAMPLE_GROUPS) == "host:h\nx-amz-meta-a:2,1\n"
    ensures Join(LowerKeys(SAMPLE_GROUPS), ';') == "host;x-amz-meta-a"
  {
    hide Lower;
    SampleLower();
    var g := SAMPLE_GROUPS;
    assert g == ([] + [g[0]]) + [g[1]];
    RenderSnoc([], g[0]);
    RenderSnoc([] + [g[0]], g[1]);
    JoinTwo("2", "1");
    assert Entry(g[0]) == "host:h\n" && Entry(g[1]) == "x-amz-meta-a:2,1\n";
    assert LowerKeys(g) == ["host", "x-amz-meta-a"];
    assert ["host", "x-amz-meta-a"][1..] == ["x-amz-meta-a"];
  }

  /** The signed text of three headers, two of them with the same name. */
  lemma SampleSigned(block: string, signed: string)
    requires IsSigV4(block, signed, SAMPLE)
    ensures block == "host:h\nx-amz-meta-a:2,1\n" && signed == "host;x-amz-meta-a"
  {
    hide Name, FoldedValue, IsGrouping, Render, LowerKeys, Join, LowerLess;
    var g: seq<Group<string, string>> :| IsGrouping(g, Reverse(SAMPLE), Name, FoldedValue, LowerLess)
      && block == Render(g) && signed == Join(LowerKeys(g), ';');
    SampleGrouping();
    LowerLessIsStrictOrder();
    GroupingUnique(g, SAMPLE_GROUPS, Reverse(SAMPLE), Name, FoldedValue, LowerLess);
    SampleRendered();
  }

  // ---------------------------------------------------------------- the order of repeated names

  /** block is the CanonicalHeaders text with the values of each name in the order of the lines, which is
      the order in which they are sent. */
  ghost predicate InSentOrder(block: string, lines: seq<string>) {
    exists h :: IsGrouping(h, lines, Name, FoldedValue, LowerLess) && block == Render(h)
  }

  /** The groups with the values of each turned round. */
  function TurnedRound(g: seq<Group<string, string>>): (h: seq<Group<string, string>>)
    ensures |h| == |g|
    ensures forall i :: 0 <= i < |g| ==> h[i] == Group(g[i].key, Reverse(g[i].values))
  {
    if g == [] then [] else TurnedRound(g[..|g| - 1]) + [Group(g[|g| - 1].key, Reverse(g[|g| - 1].values))]
  }

  lemma {:induction false} ReverseTwice<T>(s: seq<T>)
    ensures Reverse(Reverse(s)) == s && |Reverse(s)| == |s|
  {
    if s != [] {
      ReverseTwice(s[1..]);
      ReverseAppend(Reverse(s[1..]), [s[0]]);
      assert [s[0]][1..] == [];
    }
  }

  lemma LowerLessIsStrictOrder()
    ensures StrictOrder(LowerLess)
  {
    forall x, y | LowerLess(x, y) ensures !LowerLess(y, x) {
      LessTotal(Lower(x), Lower(y));
    }
    forall x, y, z | LowerLess(x, y) && LowerLess(y, z) ensures LowerLess(x, z) {
      LessTransitive(Lower(x), Lower(y), Lower(z));
    }
  }

  lemma TurnedRoundGroups(g: seq<Group<string, string>>, lines: seq<string>)
    requires IsGrouping(g, Reverse(lines), Name, FoldedValue, LowerLess)
    ensures IsGrouping(TurnedRound(g), lines, Name, FoldedValue, LowerLess)
  {
    hide LowerLess, Name, FoldedValue, Reverse, ValuesOf, HasKey, TurnedRound;
    var h := TurnedRound(g);
    forall i | 0 <= i < |h| ensures h[i].values == ValuesOf(lines, Name, FoldedValue, h[i].key) != [] {
      var vs := ValuesOf(lines, Name, FoldedValue, g[i].key);
      ValuesReverse(lines, Name, FoldedValue, g[i].key);
      ReverseTwice(vs);
      assert g[i].values == Reverse(vs) && |g[i].values| == |vs|;
    }
    forall i | 0 <= i < |lines| ensures HasKey(h, Name(lines[i])) {
      TurnedRoundCovers(g, lines, i);
    }
  }

  lemma TurnedRoundCovers(g: seq<Group<string, string>>, lines: seq<string>, i: nat)
    requires Covers(g, Reverse(lines), Name) && i < |lines|
    ensures HasKey(TurnedRound(g), Name(lines[i]))
  {
    hide Name, Reverse;
    ReverseMembers(lines, lines[i]);
    var j :| 0 <= j < |Reverse(lines)| && Reverse(lines)[j] == lines[i];
    assert HasKey(g, Name(Reverse(lines)[j]));
    var m :| 0 <= m < |g| && g[m].key == Name(lines[i]);
    assert TurnedRound(g)[m].key == Name(lines[i]);
  }

  function Width(s: string): nat { |s| + 1 }

  lemma {:induction false} JoinWidth(ss: seq<string>, d: char)
    requires ss != []
    ensures |Join(ss, d)| + 1 == Sum(Width, ss)
  {
    hide Join, Sum;
    if |ss| == 1 {
      JoinOfOne(ss, d);
    } else {
      JoinWidth(ss[1..], d);
      assert ss == [ss[0]] + ss[1..];
      JoinCons(ss[0], ss[1..], d);
      SumCons(Width, ss[0], ss[1..]);
    }
  }

  lemma JoinOfOne(ss: seq<string>, d: char)
    requires |ss| == 1
    ensures Join(ss, d) == ss[0] && Sum(Width, ss) == |ss[0]| + 1
  {
    assert ss[..0] == [];
  }

  lemma {:induction false} ReversePermutes<T>(s: seq<T>)
    ensures multiset(Reverse(s)) == multiset(s)
  {
    if s != [] {
      ReversePermutes(s[1..]);
      assert s == [s[0]] + s[1..];
    }
  }

  lemma JoinReversed(ss: seq<string>, d: char)
    ensures |Join(Reverse(ss), d)| == |Join(ss, d)|
  {
    hide Join, Sum, Reverse;
    ReverseTwice(ss);
    if ss != [] {
      ReversePermutes(ss);
      SumPermuted(Width, Reverse(ss), ss);
      JoinWidth(ss, d);
      JoinWidth(Reverse(ss), d);
    } else {
      assert Reverse(ss) == ss;
    }
  }

  lemma SameTails<T>(a: seq<T>, b: seq<T>, c: seq<T>, d: seq<T>)
    requires |b| == |d|
    ensures a + b == c + d <==> a == c && b == d
  {
    if a + b == c + d {
      assert |a + b| == |c + d|;
      assert a == (a + b)[..|a|] == (c + d)[..|c|] == c;
      assert b == (a + b)[|a|..] == (c + d)[|c|..] == d;
    }
  }

  ghost predicate SameBothWays(vs: seq<string>) { Join(Reverse(vs), ',') == Join(vs, ',') }

  /** Turning the values round keeps the text of an entry exactly when it keeps their joined text. */
  lemma EntryTurned(g: Group<string, string>)
    ensures var h := Group(g.key, Reverse(g.values));
      |Entry(g)| == |Entry(h)| && (Entry(g) == Entry(h) <==> SameBothWays(g.values))
  {
    hide Join, Lower, Reverse;
    JoinReversed(g.values, ',');
    var a, v, w := Lower(g.key) + ":", Join(g.values, ','), Join(Reverse(g.values), ',');
    SameTails(a + v, "\n", a + w, "\n");
    SameTails(a, v, a, w);
  }

  lemma {:induction false} RenderTurned(g: seq<Group<string, string>>)
    ensures Render(TurnedRound(g)) == Render(g) <==> forall i :: 0 <= i < |g| ==> SameBothWays(g[i].values)
  {
    hide Entry, Render, SameBothWays, Reverse;
    if g == [] {
      assert TurnedRound(g) == g;
    } else {
      var n := |g| - 1;
      var h := TurnedRound(g);
      RenderTurned(g[..n]);
      EntryTurned(g[n]);
      assert g == g[..n] + [g[n]] && h == TurnedRound(g[..n]) + [h[n]];
      RenderSnoc(g[..n], g[n]);
      RenderSnoc(TurnedRound(g[..n]), h[n]);
      SameTails(Render(TurnedRound(g[..n])), Entry(h[n]), Render(g[..n]), Entry(g[n]));
    }
  }

  lemma GroupBothWays(g: seq<Group<string, string>>, lines: seq<string>, i: nat)
    requires IsGrouping(g, Reverse(lines), Name, FoldedValue, LowerLess) && i < |g|
    ensures SameBothWays(g[i].values) <==> SameBothWays(ValuesOf(lines, Name, FoldedValue, g[i].key))
  {
    hide LowerLess, Name, FoldedValue, Join, Reverse, ValuesOf;
    var vs := ValuesOf(lines, Name, FoldedValue, g[i].key);
    ValuesReverse(lines, Name, FoldedValue, g[i].key);
    assert g[i].values == Reverse(vs);
    ReverseTwice(vs);
  }

  lemma NameBothWays(g: seq<Group<string, string>>, lines: seq<string>, n: string)
    requires IsGrouping(g, Reverse(lines), Name, FoldedValue, LowerLess)
    requires forall i :: 0 <= i < |g| ==> SameBothWays(g[i].values)
    ensures SameBothWays(ValuesOf(lines, Name, FoldedValue, n))
  {
    hide LowerLess, Name, FoldedValue, SameBothWays, ValuesOf, IsGrouping;
    NameOccurs(g, lines, n);
    if HasKey(g, n) {
      var m :| 0 <= m < |g| && g[m].key == n;
      GroupBothWays(g, lines, m);
    } else {
      NothingBothWays();
    }
  }

  /** The groups are those of the names that occur, and a name that does not occur has no values to turn
      round. */
  lemma GroupsBothWays(g: seq<Group<string, string>>, lines: seq<string>)
    requires IsGrouping(g, Reverse(lines), Name, FoldedValue, LowerLess)
    ensures (forall i :: 0 <= i < |g| ==> SameBothWays(g[i].values)) <==>
      forall n :: SameBothWays(ValuesOf(lines, Name, FoldedValue, n))
  {
    hide LowerLess, Name, FoldedValue, SameBothWays, ValuesOf, IsGrouping;
    if forall i :: 0 <= i < |g| ==> SameBothWays(g[i].values) {
      forall n ensures SameBothWays(ValuesOf(lines, Name, FoldedValue, n)) {
        NameBothWays(g, lines, n);
      }
    } else {
      var i :| 0 <= i < |g| && !SameBothWays(g[i].values);
      GroupBothWays(g, lines, i);
      assert !SameBothWays(ValuesOf(lines, Name, FoldedValue, g[i].key));
    }
  }

  lemma NothingBothWays()
    ensures SameBothWays([])
  {}

  lemma NameOccurs(g: seq<Group<string, string>>, lines: seq<string>, n: string)
    requires IsGrouping(g, Reverse(lines), Name, FoldedValue, LowerLess)
    ensures HasKey(g, n) || ValuesOf(lines, Name, FoldedValue, n) == []
  {
    hide LowerLess, Name, FoldedValue;
    ValuesEmpty(lines, Name, FoldedValue, n);
    if ValuesOf(lines, Name, FoldedValue, n) != [] {
      var j :| 0 <= j < |lines| && Name(lines[j]) == n;
      ReverseMembers(lines, lines[j]);
      var k :| 0 <= k < |Reverse(lines)| && Reverse(lines)[k] == lines[j];
      assert HasKey(g, Name(Reverse(lines)[k]));
    }
  }

  /** The signed text has the values of every name in the order they are sent in exactly when, for every
      name, joining them in the other order gives the same text: where a name repeats with different
      values that is hardly ever so. */
  lemma RepeatedNamesSignedBackwards(block: string, signed: string, lines: seq<string>)
    requires IsSigV4(block, signed, lines)
    ensures InSentOrder(block, lines) <==> forall n :: SameBothWays(ValuesOf(lines, Name, FoldedValue, n))
  {
    hide LowerLess, Name, FoldedValue, IsGrouping, Render, SameBothWays, LowerKeys, Join;
    var g :| IsGrouping(g, Reverse(lines), Name, FoldedValue, LowerLess)
          && block == Render(g) && signed == Join(LowerKeys(g), ';');
    TurnedRoundGroups(g, lines);
    RenderTurned(g);
    GroupsBothWays(g, lines);
    if InSentOrder(block, lines) {
      var h :| IsGrouping(h, lines, Name, FoldedValue, LowerLess) && block == Render(h);
      LowerLessIsStrictOrder();
      GroupingUnique(h, TurnedRound(g), lines, Name, FoldedValue, LowerLess);
    }
  }

  /** For two headers of one name with values v and w the signed text has the wrong order, unless the
      texts "v,w" and "w,v" are the same. */
  lemma TwoHeadersSignedBackwards(a: string, b: string, block: string, signed: string)
    requires Name(a) == Name(b) && IsSigV4(block, signed, [a, b])
    requires FoldedValue(a) + "," + FoldedValue(b) != FoldedValue(b) + "," + FoldedValue(a)
    ensures !InSentOrder(block, [a, b])
  {
    hide Name, FoldedValue, IsSigV4, InSentOrder;
    var v, w := FoldedValue(a), FoldedValue(b);
    RepeatedNamesSignedBackwards(block, signed, [a, b]);
    if v != w { TwoValuesSignedBackwards(a, b); }
    JoinTwo(v, w);
    JoinTwo(w, v);
    assert SameBothWays(ValuesOf([a, b], Name, FoldedValue, Name(a))) ==> v + "," + w == w + "," + v;
  }

  lemma JoinTwo(v: string, w: string)
    ensures Join([v, w], ',') == v + "," + w
  {
    assert [v, w][1..] == [w];
  }

  /** In particular, for two headers of one name with different values it is the wrong order. */
  lemma TwoValuesSignedBackwards(a: string, b: string)
    requires Name(a) == Name(b) && FoldedValue(a) != FoldedValue(b)
    ensures ValuesOf([a, b], Name, FoldedValue, Name(a)) == [FoldedValue(a), FoldedValue(b)]
    ensures Reverse(ValuesOf([a, b], Name, FoldedValue, Name(a))) == [FoldedValue(b), FoldedValue(a)]
  {
    hide Name, FoldedValue;
    var va, vb := FoldedValue(a), FoldedValue(b);
    ValuesCons(a, [b], Name, FoldedValue, Name(a));
    ValuesCons(b, [], Name, FoldedValue, Name(a));
    assert [a] + [b] == [a, b] && [b] + [] == [b];
    ReverseAppend([va], [vb]);
    assert [va] + [vb] == [va, vb] && [va][1..] == [] && [vb][1..] == [];
  }
}
