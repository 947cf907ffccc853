/** The extra details of an error in memory: names and values are C strings in one multibuffer
    (inc/string_buffer.h), which the array of extras points into (src/error_parser.c). */
module ExtraDetails {
  import opened Strings
  import opened XmlDocuments
  import opened ErrorParser

  /** Where an extra's strings lie in the multibuffer. */
  datatype Pointers = Pointers(name: nat, value: nat)

  /** What snprintf writes at an offset leaves everything in front of it alone, and a string that fits
      is there afterwards. */
  lemma PrintedFrame(mem: seq<char>, at: nat, s: string)
    requires at <= |mem| && NUL !in s
    ensures var r := Printed(mem, at, |mem| - at, s);
      r[..at] == mem[..at] && (at + |s| < |mem| ==> Holds(r, at, s))
  {
    var r := Printed(mem, at, |mem| - at, s);
    if at + |s| < |mem| {
      assert r[at..at + |s|] == s;
    }
  }

  /** Extending a string from its terminator on. */
  lemma PrintedExtends(mem: seq<char>, p: nat, old_: string, s: string)
    requires Holds(mem, p, old_) && NUL !in s && p + |old_| + |s| < |mem|
    ensures Holds(Printed(mem, p + |old_|, |mem| - (p + |old_|), s), p, old_ + s)
  {
    var at := p + |old_|;
    var r := Printed(mem, at, |mem| - at, s);
    PrintedFrame(mem, at, s);
    assert r[p..at] == r[..at][p..] == mem[..at][p..] == mem[p..at] == old_;
    assert r[p..p + |old_ + s|] == r[p..at] + r[at..at + |s|];
  }

  // ---------------------------------------------------------------- the strings in the multibuffer

  /** Where the strings of extra i have to end: before those of the next one, or before the free part. */
  function End(ptrs: seq<Pointers>, n: nat, size: nat, i: nat): nat
    requires i < n <= |ptrs|
  {
    if i + 1 < n then ptrs[i + 1].name else size
  }

  /** Extra i lies where its pointers say. */
  ghost predicate Lies(mem: seq<char>, p: Pointers, x: Extra, end: nat) {
    && Holds(mem, p.name, x.name) && Holds(mem, p.value, x.value)
    && p.name + |x.name| < p.value && p.value + |x.value| < end
  }

  /** The strings lie one behind the other, and the last one ends where the free part begins, unless
      the buffer has overflowed. */
  ghost predicate Layout(mem: seq<char>, ptrs: seq<Pointers>, items: seq<Extra>, size: nat) {
    && |mem| == EXTRAS_SIZE && size <= EXTRAS_SIZE && |items| <= |ptrs|
    && (forall i :: 0 <= i < |items| ==> Lies(mem, ptrs[i], items[i], End(ptrs, |items|, size, i)))
    && (forall i :: 0 <= i < |items| ==> End(ptrs, |items|, size, i) <= size)
    && (items != [] ==> size > 0)
    && (size < EXTRAS_SIZE && items != [] ==>
          ptrs[|items| - 1].value + |items[|items| - 1].value| + 1 == size)
  }

  lemma LiesBelow(mem: seq<char>, mem': seq<char>, p: Pointers, x: Extra, end: nat)
    requires Lies(mem, p, x, end) && end <= |mem| == |mem'| && mem[..end] == mem'[..end]
    ensures Lies(mem', p, x, end)
  {
    hide Holds;
    HoldsBelow(mem, mem', p.name, x.name, end);
    HoldsBelow(mem, mem', p.value, x.value, end);
  }

  lemma PrefixOf(mem: seq<char>, mem': seq<char>, at: nat, end: nat)
    requires end <= at <= |mem| == |mem'| && mem[..at] == mem'[..at]
    ensures mem[..end] == mem'[..end]
  {
    assert mem[..end] == mem[..at][..end] && mem'[..end] == mem'[..at][..end];
  }

  /** Nothing below `at` changes: the first n extras stay where they are. */
  lemma LayoutBelow(mem: seq<char>, mem': seq<char>, ptrs: seq<Pointers>, items: seq<Extra>, size: nat, n: nat, at: nat)
    requires Layout(mem, ptrs, items, size) && n <= |items| && at <= |mem| == |mem'| && mem[..at] == mem'[..at]
    requires n == |items| ==> at == size
    requires n < |items| ==> ptrs[n].name <= at
    ensures Layout(mem', ptrs, items[..n], EXTRAS_SIZE)
  {
    hide Lies, Holds;
    forall i | 0 <= i < n
      ensures Lies(mem', ptrs[i], items[i], End(ptrs, n, EXTRAS_SIZE, i))
    {
      var end := End(ptrs, |items|, size, i);
      EndsInOrder(mem, ptrs, items, size, i, n);
      PrefixOf(mem, mem', at, end);
      LiesBelow(mem, mem', ptrs[i], items[i], end);
      LiesLonger(mem', ptrs[i], items[i], end, End(ptrs, n, EXTRAS_SIZE, i));
    }
  }

  lemma LiesLonger(mem: seq<char>, p: Pointers, x: Extra, end: nat, end': nat)
    requires Lies(mem, p, x, end) && end <= end'
    ensures Lies(mem, p, x, end')
  {}

  lemma {:induction false} EndsInOrder(mem: seq<char>, ptrs: seq<Pointers>, items: seq<Extra>, size: nat, i: nat,
                                       n: nat)
    requires Layout(mem, ptrs, items, size) && i < n <= |items|
    ensures End(ptrs, |items|, size, i) <= if n < |items| then ptrs[n].name else size
    decreases n - i
  {
    hide Holds;
    if i + 1 < n {
      EndsInOrder(mem, ptrs, items, size, i + 1, n);
    }
  }

  lemma LastExtends(mem: seq<char>, p: Pointers, x: Extra, size: nat, s: string)
    requires |mem| == EXTRAS_SIZE && size + |s| <= EXTRAS_SIZE && NUL !in s && Lies(mem, p, x, size)
    requires size < EXTRAS_SIZE ==> p.value + |x.value| + 1 == size
    ensures size > 0 && Lies(Printed(mem, size - 1, |mem| - (size - 1), s), p, Extra(x.name, x.value + s), size + |s|)
  {
    hide Holds, Printed;
    var mem' := Printed(mem, size - 1, |mem| - (size - 1), s);
    PrintedFrame(mem, size - 1, s);
    PrefixOf(mem, mem', size - 1, p.value);
    HoldsBelow(mem, mem', p.name, x.name, p.value);
    if p.value + |x.value| == size - 1 {
      PrintedExtends(mem, p.value, x.value, s);
    } else {
      assert s == "" && x.value + s == x.value;
      HoldsBelow(mem, mem', p.value, x.value, size - 1);
    }
  }

  /** The others stay where they are. */
  lemma FrontLies(mem: seq<char>, ptrs: seq<Pointers>, items: seq<Extra>, size: nat, s: string, i: nat)
    requires Layout(mem, ptrs, items, size) && i < |items| - 1 && NUL !in s
    ensures size > 0
    ensures Lies(Printed(mem, size - 1, |mem| - (size - 1), s), ptrs[i], items[i], ptrs[i + 1].name)
  {
    hide Holds, Printed, Lies;
    var n := |items| - 1;
    LastLies(mem, ptrs, items, size);
    PrintedFrame(mem, size - 1, s);
    var mem' := Printed(mem, size - 1, |mem| - (size - 1), s);
    EndsInOrder(mem, ptrs, items, size, i, n);
    PrefixOf(mem, mem', size - 1, ptrs[i + 1].name);
    LiesBelow(mem, mem', ptrs[i], items[i], ptrs[i + 1].name);
  }

  /** The last extra is extended. */
  lemma LayoutExtend(mem: seq<char>, ptrs: seq<Pointers>, items: seq<Extra>, size: nat, s: string)
    requires Layout(mem, ptrs, items, size) && items != [] && size + |s| <= EXTRAS_SIZE && NUL !in s
    ensures var n := |items| - 1;
      Layout(Printed(mem, size - 1, |mem| - (size - 1), s), ptrs,
             items[..n] + [Extra(items[n].name, items[n].value + s)], size + |s|)
  {
    hide Holds, Printed, Lies;
    var n := |items| - 1;
    LastLies(mem, ptrs, items, size);
    LastExtends(mem, ptrs[n], items[n], size, s);
    forall i | 0 <= i < n
      ensures Lies(Printed(mem, size - 1, |mem| - (size - 1), s), ptrs[i], items[i], ptrs[i + 1].name)
    {
      FrontLies(mem, ptrs, items, size, s, i);
    }
  }

  lemma LastLies(mem: seq<char>, ptrs: seq<Pointers>, items: seq<Extra>, size: nat)
    requires Layout(mem, ptrs, items, size) && items != []
    ensures var n := |items| - 1; Lies(mem, ptrs[n], items[n], size) && ptrs[n].name < size - 1
  {}

  /** A new extra behind the others. */
  lemma LayoutAdd(mem: seq<char>, mem1: seq<char>, mem2: seq<char>, ptrs: seq<Pointers>, items: seq<Extra>, size: nat,
                  x: Extra)
    requires Layout(mem, ptrs, items, size) && |items| < |ptrs| && NUL !in x.name && NUL !in x.value
    requires size + |x.name| + 1 + |x.value| + 1 <= EXTRAS_SIZE
    requires mem1 == Printed(mem, size, |mem| - size, x.name)
    requires mem2 == Printed(mem1, size + |x.name| + 1, |mem| - (size + |x.name| + 1), x.value)
    ensures Layout(mem2, ptrs[|items| := Pointers(size, size + |x.name| + 1)], items + [x],
                   size + |x.name| + |x.value| + 2)
  {
    hide Holds, Printed;
    var n, at := |items|, size + |x.name| + 1;
    var ptrs', items', size' := ptrs[n := Pointers(size, at)], items + [x], size + |x.name| + |x.value| + 2;
    PrintedFrame(mem, size, x.name);
    PrintedFrame(mem1, at, x.value);
    HoldsBelow(mem1, mem2, size, x.name, at);
    PrefixOf(mem1, mem2, at, size);
    forall i | 0 <= i < n ensures Lies(mem2, ptrs'[i], items'[i], End(ptrs', n + 1, size', i)) {
      var end := End(ptrs, n, size, i);
      PrefixOf(mem, mem2, size, end);
      LiesBelow(mem, mem2, ptrs[i], items[i], end);
    }
  }

  class ExtraDetails {
    const namesValues: array<char>
    var namesValuesSize: nat
    const extraDetails: array<Pointers>
    var extraDetailsCount: nat
    ghost var items: seq<Extra>

    ghost predicate Valid()
      reads this, namesValues, extraDetails
    {
      && namesValues.Length == EXTRAS_SIZE && extraDetails.Length == EXTRA_DETAILS_SIZE
      && extraDetailsCount == |items|
      && Layout(namesValues[..], extraDetails[..], items, namesValuesSize)
    }

    ghost function Model(): Extras
      reads this
    {
      Extras(items, namesValuesSize)
    }

    constructor ()
      ensures Valid() && Model() == Extras([], 0) && fresh(namesValues) && fresh(extraDetails)
    {
      namesValues := new char[EXTRAS_SIZE];
      extraDetails := new Pointers[EXTRA_DETAILS_SIZE](_ => Pointers(0, 0));
      namesValuesSize, extraDetailsCount, items := 0, 0, [];
    }

    /** string_multibuffer_add */
    method MultibufferAdd(str: string) returns (fit: bool)
      requires namesValues.Length == EXTRAS_SIZE && namesValuesSize <= EXTRAS_SIZE && NUL !in str
      modifies this`namesValuesSize, namesValues
      ensures (namesValuesSize, fit) == Added(old(namesValuesSize), |str|)
      ensures namesValues[..]
        == Printed(old(namesValues[..]), old(namesValuesSize), EXTRAS_SIZE - old(namesValuesSize), str)
    {
      hide Printed;
      var n := Snprintf(namesValues, namesValuesSize, namesValues.Length - namesValuesSize, str);
      namesValuesSize := namesValuesSize + n + 1;
      if namesValuesSize > namesValues.Length {
        namesValuesSize := namesValues.Length;
        fit := false;
      } else {
        fit := true;
      }
    }

    /** string_multibuffer_append */
    method MultibufferAppend(str: string) returns (fit: bool)
      requires namesValues.Length == EXTRAS_SIZE && 0 < namesValuesSize <= EXTRAS_SIZE && NUL !in str
      modifies this`namesValuesSize, namesValues
      ensures (namesValuesSize, fit) == Appended(old(namesValuesSize), |str|)
      ensures namesValues[..]
           == Printed(old(namesValues[..]), old(namesValuesSize) - 1, EXTRAS_SIZE - (old(namesValuesSize) - 1), str)
    {
      hide Printed;
      namesValuesSize := namesValuesSize - 1;
      fit := MultibufferAdd(str);
    }

    /** The name and the value of extra i as C strings. */
    method Get(i: nat) returns (ghost x: Extra, p: Pointers)
      requires Valid() && i < extraDetailsCount
      ensures x == Model().items[i] && p == extraDetails[i]
      ensures CString(namesValues[..], p.name) == x.name && CString(namesValues[..], p.value) == x.value
    {
      hide CString, Holds;
      x, p := items[i], extraDetails[i];
      HoldsCString(namesValues[..], p.name, x.name);
      HoldsCString(namesValues[..], p.value, x.value);
    }

    /** The part of errorXmlCallback for an element that is not one of the four. inside is false when the
        extra would be written behind the array; nothing is promised then. */
    method AddUnknown(elementName: string, data: string) returns (inside: bool)
      requires Valid() && NUL !in elementName && NUL !in data
      modifies this, namesValues, extraDetails
      ensures inside <==> |Unknown(old(Model()), elementName, data).items| <= EXTRA_DETAILS_SIZE
      ensures inside ==> Valid() && Model() == Unknown(old(Model()), elementName, data)
    {
      hide CString, Holds, Printed, Layout;
      ghost var mem, ptrs, size, n := namesValues[..], extraDetails[..], namesValuesSize, |items|;
      LayoutFacts(mem, ptrs, items, size);
      if extraDetailsCount > 0 {
        var x, p := Get(extraDetailsCount - 1);
        if CString(namesValues[..], p.name) == elementName {
          var fit := MultibufferAppend(data);
          if fit {
            LayoutExtend(mem, ptrs, items, size, data);
            items := items[..n - 1] + [Extra(elementName, x.value + data)];
          } else {
            PrintedFrame(mem, size - 1, data);
            LayoutBelow(mem, namesValues[..], ptrs, items, size, n - 1, size - 1);
            extraDetailsCount, items := extraDetailsCount - 1, items[..n - 1];
          }
          return true;
        }
      }
      inside := AddNew(elementName, data);
    }

    method AddNew(elementName: string, data: string) returns (inside: bool)
      requires Valid() && NUL !in elementName && NUL !in data
      requires extraDetailsCount > 0 ==> items[extraDetailsCount - 1].name != elementName
      modifies this, namesValues, extraDetails
      ensures inside <==> |Unknown(old(Model()), elementName, data).items| <= EXTRA_DETAILS_SIZE
      ensures inside ==> Valid() && Model() == Unknown(old(Model()), elementName, data)
    {
      hide CString, Holds, Printed, Layout;
      ghost var mem, ptrs, size, n := namesValues[..], extraDetails[..], namesValuesSize, |items|;
      LayoutFacts(mem, ptrs, items, size);
      var name := namesValuesSize;
      var fit := MultibufferAdd(elementName);
      ghost var mem1 := namesValues[..];
      PrintedFrame(mem, size, elementName);
      assert items[..n] == items;
      if !fit {
        LayoutBelow(mem, mem1, ptrs, items, size, n, size);
        return true;
      }
      var value := namesValuesSize;
      fit := MultibufferAdd(data);
      if !fit {
        PrintedFrame(mem1, value, data);
        PrefixOf(mem1, namesValues[..], value, size);
        LayoutBelow(mem, namesValues[..], ptrs, items, size, n, size);
        return true;
      }
      if extraDetailsCount == extraDetails.Length { return false; }
      LayoutAdd(mem, mem1, namesValues[..], ptrs, items, size, Extra(elementName, data));
      extraDetails[extraDetailsCount] := Pointers(name, value);
      assert extraDetails[..] == ptrs[n := Pointers(name, value)];
      extraDetailsCount, items := extraDetailsCount + 1, items + [Extra(elementName, data)];
      inside := true;
    }
  }

  /** The unknown texts of a whole document, one after the other. All writes go into the array exactly
      when no ninth run begins while everything still fits, and then the extras are in memory. */
  method AddUnknowns(us: seq<Extra>) returns (extras: ExtraDetails, inside: bool)
    requires NulFree(us)
    ensures inside <==> !NinthFits(us)
    ensures Space(Runs(us)) <= EXTRAS_SIZE ==> (inside <==> |Runs(us)| <= EXTRA_DETAILS_SIZE)
    ensures inside ==> extras.Valid() && extras.Model() == UnknownAll(Extras([], 0), us)
  {
    hide Unknown, UnknownAll, Layout, Runs, Space, NinthFits;
    extras := new ExtraDetails();
    inside := true;
    NoRuns(us);
    ArrayIsRespected(us);
    AtMostEight(us);
    var i := 0;
    while i < |us|
      invariant 0 <= i <= |us| && inside && extras.Valid() && fresh(extras) && fresh(extras.namesValues)
      invariant fresh(extras.extraDetails)
      invariant extras.Model() == UnknownAll(Extras([], 0), us[..i])
      invariant forall k :: 0 <= k <= i ==> |UnknownAll(Extras([], 0), us[..k]).items| <= EXTRA_DETAILS_SIZE
    {
      RunsSnoc(us, i);
      inside := extras.AddUnknown(us[i].name, us[i].value);
      if !inside { return; }
      i := i + 1;
    }
    assert us[..i] == us;
  }

  // ---------------------------------------------------------------- a whole document

  /** The texts of a document are C strings. */
  ghost predicate NulFreeTexts(f: Forest) {
    match f
    case Nil => true
    case Text(t, rest) => NUL !in t && NulFreeTexts(rest)
    case Elem(_, kids, rest) => NulFreeTexts(kids) && NulFreeTexts(rest)
  }

  ghost predicate NulFree(us: seq<Extra>) {
    forall i :: 0 <= i < |us| ==> NUL !in us[i].name && NUL !in us[i].value
  }

  lemma {:induction false} UnknownsNulFree(f: Forest, at: seq<string>)
    requires GoodNames(f) && GoodStack(at) && NulFreeTexts(f)
    ensures NulFree(UnknownTexts(Texts(f, at)))
    decreases f
  {
    hide IsUnknown, PathOf, GoodName, UnknownTexts;
    match f
    case Nil =>
      assert UnknownTexts([]) == [] by { NoUnknownTexts(); }
    case Text(t, rest) =>
      UnknownTextsAppend([(at, t)], Texts(rest, at));
      OneNulFree(at, t);
      UnknownsNulFree(rest, at);
    case Elem(n, kids, rest) =>
      UnknownTextsAppend(Texts(kids, at + [n]), Texts(rest, at));
      UnknownsNulFree(kids, at + [n]);
      UnknownsNulFree(rest, at);
  }

  lemma NoUnknownTexts()
    ensures UnknownTexts([]) == []
  {}

  lemma OneNulFree(at: seq<string>, t: string)
    requires GoodStack(at) && NUL !in t
    ensures NulFree(UnknownTexts([(at, t)]))
  {
    hide IsKnown, PathOf;
    assert [(at, t)][1..] == [];
    if IsUnknown(at) { PathNulFree(at[1..]); }
  }

  lemma PathNulFree(at: seq<string>)
    requires GoodStack(at)
    ensures NUL !in PathOf(at)
  {
    JoinLacks(at, '/', NUL);
  }

  /** The extras of an error document whose root has the given children: when they fit into the
      multibuffer, every write goes into the array exactly when there are at most eight runs. */
  method ParseExtras(kids: Forest) returns (extras: ExtraDetails, inside: bool)
    requires GoodNames(kids) && NulFreeTexts(kids)
    ensures inside <==> !NinthFits(UnknownsOf(kids))
    ensures Space(Runs(UnknownsOf(kids))) <= EXTRAS_SIZE ==>
      && (inside <==> |Runs(UnknownsOf(kids))| <= EXTRA_DETAILS_SIZE)
      && (inside ==> extras.Valid() && extras.Model() == Extras(Runs(UnknownsOf(kids)), Space(Runs(UnknownsOf(kids)))))
  {
    hide UnknownAll, UnknownTexts, Texts, Runs, Space, NinthFits, NulFreeTexts, ExtraDetails.Valid;
    UnknownsNulFree(kids, ROOT);
    extras, inside := AddUnknowns(UnknownsOf(kids));
    if Space(Runs(UnknownsOf(kids))) <= EXTRAS_SIZE && inside {
      UnknownsAreRuns(UnknownsOf(kids));
    }
  }

  lemma LayoutFacts(mem: seq<char>, ptrs: seq<Pointers>, items: seq<Extra>, size: nat)
    requires Layout(mem, ptrs, items, size)
    ensures size <= EXTRAS_SIZE == |mem| && |items| <= |ptrs| && (items != [] ==> size > 0)
    ensures items != [] ==> ptrs[|items| - 1].name < size
  {}
}
