/** What the sort of src/request.c computes, for any strict order: insertion of each entry, in
    turn, in front of the first entry that is not smaller. */
module GnomeSort {
  import opened Strings

  ghost predicate StrictWeakOrder<T(!new)>(lt: (T, T) -> bool) {
    && (forall x, y :: lt(x, y) ==> !lt(y, x))
    && (forall x, y, z :: lt(x, y) && lt(y, z) ==> lt(x, z))
    && (forall x, y, z :: lt(x, z) ==> lt(x, y) || lt(y, z))
  }

  /** x placed before the first entry that is not smaller than x. */
  function Insert<T>(lt: (T, T) -> bool, x: T, s: seq<T>): seq<T> {
    if s != [] && lt(s[0], x) then [s[0]] + Insert(lt, x, s[1..]) else [x] + s
  }

  function Sorted<T>(lt: (T, T) -> bool, values: seq<T>): seq<T> {
    if values == [] then []
    else Insert(lt, values[|values| - 1], Sorted(lt, values[..|values| - 1]))
  }

  ghost predicate Ascending<T>(lt: (T, T) -> bool, s: seq<T>) {
    forall i, j :: 0 <= i < j < |s| ==> !lt(s[j], s[i])
  }

  /** The entries of s that tie with x, in order. */
  function Ties<T>(lt: (T, T) -> bool, s: seq<T>, x: T): seq<T> {
    if s == [] then []
    else (if lt(s[0], x) || lt(x, s[0]) then [] else [s[0]]) + Ties(lt, s[1..], x)
  }

  /** What it means to be sorted the way kv_gnome_sort sorts: ascending, and entries that tie are
      in reverse input order, so the sort is not stable. */
  ghost predicate IsSortOf<T(!new)>(lt: (T, T) -> bool, values: seq<T>, r: seq<T>) {
    && Ascending(lt, r)
    && forall x :: Ties(lt, r, x) == Reverse(Ties(lt, values, x))
  }

  // ---------------------------------------------------------------- one pass of the loop

  /** The loop invariant of kv_gnome_sort: entry `top` of the input is on its way down from
      position top and has reached i; the other entries up to top are sorted. */
  ghost predicate Moving<T>(lt: (T, T) -> bool, v: seq<T>, input: seq<T>, i: nat, top: nat) {
    && |v| == |input| && i <= top < |v|
    && v[top + 1..] == input[top + 1..]
    && v[i] == input[top]
    && v[..i] + v[i + 1..top + 1] == Sorted(lt, input[..top])
    && forall k :: i < k <= top ==> !lt(v[k], v[i])
  }

  lemma MovingStart<T>(lt: (T, T) -> bool, input: seq<T>)
    ensures if input == [] then Sorted(lt, input) == input else Moving(lt, input, input, 0, 0)
  {
    if input != [] {
      assert input[..0] + input[1..1] == [];
    }
  }

  lemma Settle<T(!new)>(lt: (T, T) -> bool, v: seq<T>, input: seq<T>, i: nat, top: nat)
    requires StrictWeakOrder(lt) && Moving(lt, v, input, i, top)
    requires i == 0 || lt(v[i - 1], v[i])
    ensures top + 1 == |v| ==> v == Sorted(lt, input)
    ensures top + 1 < |v| ==> Moving(lt, v, input, top + 1, top + 1)
  {
    SettleSorted(lt, v, input, i, top);
    hide Sorted, StrictWeakOrder;
    if top + 1 == |v| {
      assert v[..top + 1] == v && input[..top + 1] == input;
    } else {
      assert v[top + 1] == v[top + 1..][0] == input[top + 1];
      assert v[top + 2..] == v[top + 1..][1..] == input[top + 2..];
      assert v[top + 2..top + 2] == [];
    }
  }

  lemma SettleSorted<T(!new)>(lt: (T, T) -> bool, v: seq<T>, input: seq<T>, i: nat, top: nat)
    requires StrictWeakOrder(lt) && Moving(lt, v, input, i, top)
    requires i == 0 || lt(v[i - 1], v[i])
    ensures v[..top + 1] == Sorted(lt, input[..top + 1])
  {
    var a, b := v[..i], v[i + 1..top + 1];
    SortedAscending(lt, input[..top]);
    AllBelow(lt, v[i], a, b);
    hide StrictWeakOrder, Ascending;
    InsertSplits(lt, v[i], a, b);
    assert input[..top + 1][..top] == input[..top];
    assert v[..top + 1] == a + [v[i]] + b;
  }

  // ---------------------------------------------------------------- why that is a sort

  lemma AscendingTail<T>(lt: (T, T) -> bool, s: seq<T>)
    requires s != [] && Ascending(lt, s)
    ensures Ascending(lt, s[1..])
  {
    forall i, j | 0 <= i < j < |s[1..]| ensures !lt(s[1..][j], s[1..][i]) {
      assert s[1..][i] == s[i + 1] && s[1..][j] == s[j + 1];
    }
  }

  lemma AscendingCons<T(!new)>(lt: (T, T) -> bool, x: T, s: seq<T>)
    requires StrictWeakOrder(lt) && Ascending(lt, s)
    requires s != [] ==> !lt(s[0], x)
    ensures Ascending(lt, [x] + s)
  {
    var r := [x] + s;
    forall i, j | 0 <= i < j < |r| ensures !lt(r[j], r[i]) {
      assert r[j] == s[j - 1];
      assert j == 1 || !lt(s[j - 1], s[0]);
      if i > 0 {
        assert r[i] == s[i - 1];
      }
    }
  }

  lemma {:induction false} InsertSplits<T>(lt: (T, T) -> bool, x: T, a: seq<T>, b: seq<T>)
    requires forall i :: 0 <= i < |a| ==> lt(a[i], x)
    requires b != [] ==> !lt(b[0], x)
    ensures Insert(lt, x, a + b) == a + [x] + b
  {
    if a == [] {
      assert a + b == b;
      assert a + [x] + b == [x] + b;
    } else {
      InsertSplits(lt, x, a[1..], b);
      assert (a + b)[1..] == a[1..] + b;
      assert a + [x] + b == [a[0]] + (a[1..] + [x] + b);
    }
  }

  lemma AllBelow<T(!new)>(lt: (T, T) -> bool, x: T, a: seq<T>, b: seq<T>)
    requires StrictWeakOrder(lt) && Ascending(lt, a + b)
    requires a != [] ==> lt(a[|a| - 1], x)
    ensures forall i :: 0 <= i < |a| ==> lt(a[i], x)
  {
    var s, n := a + b, |a| - 1;
    forall i | 0 <= i < |a| ensures lt(a[i], x) {
      assert s[i] == a[i] && s[n] == a[n];
      assert i == n || !lt(s[n], s[i]);
    }
  }

  lemma {:induction false} InsertAscending<T(!new)>(lt: (T, T) -> bool, x: T, s: seq<T>)
    requires StrictWeakOrder(lt) && Ascending(lt, s)
    ensures Ascending(lt, Insert(lt, x, s))
    ensures Insert(lt, x, s)[0] == x || (s != [] && Insert(lt, x, s)[0] == s[0])
  {
    if s != [] && lt(s[0], x) {
      AscendingTail(lt, s);
      InsertAscending(lt, x, s[1..]);
      var r := Insert(lt, x, s[1..]);
      assert |s| > 1 ==> !lt(s[1], s[0]);
      AscendingCons(lt, s[0], r);
    } else {
      AscendingCons(lt, x, s);
    }
  }

  /** The result is ascending. */
  lemma {:induction false} SortedAscending<T(!new)>(lt: (T, T) -> bool, values: seq<T>)
    requires StrictWeakOrder(lt)
    ensures Ascending(lt, Sorted(lt, values))
  {
    if values != [] {
      var front := values[..|values| - 1];
      SortedAscending(lt, front);
      InsertAscending(lt, values[|values| - 1], Sorted(lt, front));
    }
  }

  lemma {:induction false} InsertPermutes<T>(lt: (T, T) -> bool, x: T, s: seq<T>)
    ensures multiset(Insert(lt, x, s)) == multiset{x} + multiset(s)
  {
    if s != [] && lt(s[0], x) {
      InsertPermutes(lt, x, s[1..]);
      assert s == [s[0]] + s[1..];
    }
  }

  /** The result is a permutation of the input. */
  lemma {:induction false} SortedPermutes<T>(lt: (T, T) -> bool, values: seq<T>)
    ensures multiset(Sorted(lt, values)) == multiset(values)
    ensures |Sorted(lt, values)| == |values|
  {
    if values != [] {
      var front, x := values[..|values| - 1], values[|values| - 1];
      SortedPermutes(lt, front);
      InsertPermutes(lt, x, Sorted(lt, front));
      assert values == front + [x];
    }
    assert |multiset(Sorted(lt, values))| == |multiset(values)|;
  }

  lemma SortedMembers<T(!new)>(lt: (T, T) -> bool, values: seq<T>)
    ensures forall x :: x in Sorted(lt, values) <==> x in values
  {
    SortedPermutes(lt, values);
    forall x ensures x in Sorted(lt, values) <==> x in values {
      assert x in Sorted(lt, values) <==> x in multiset(Sorted(lt, values));
      assert x in values <==> x in multiset(values);
    }
  }

  lemma {:induction false} TiesAppend<T>(lt: (T, T) -> bool, a: seq<T>, b: seq<T>, x: T)
    ensures Ties(lt, a + b, x) == Ties(lt, a, x) + Ties(lt, b, x)
  {
    if a == [] {
      assert a + b == b;
    } else {
      assert (a + b)[1..] == a[1..] + b;
      TiesAppend(lt, a[1..], b, x);
    }
  }

  lemma {:induction false} InsertTies<T(!new)>(lt: (T, T) -> bool, y: T, s: seq<T>, x: T)
    requires StrictWeakOrder(lt)
    ensures Ties(lt, Insert(lt, y, s), x)
         == (if lt(y, x) || lt(x, y) then [] else [y]) + Ties(lt, s, x)
  {
    if s != [] && lt(s[0], y) {
      InsertTies(lt, y, s[1..], x);
      var r := Insert(lt, y, s);
      assert r[0] == s[0] && r[1..] == Insert(lt, y, s[1..]);
    } else {
      assert ([y] + s)[1..] == s;
    }
  }

  lemma TiesOne<T>(lt: (T, T) -> bool, y: T, x: T)
    ensures Ties(lt, [y], x) == Reverse(Ties(lt, [y], x)) == if lt(y, x) || lt(x, y) then [] else [y]
  {
    assert [y][1..] == [];
  }

  /** Entries that tie come out in reverse input order. */
  lemma {:induction false} SortedReversesTies<T(!new)>(lt: (T, T) -> bool, values: seq<T>, x: T)
    requires StrictWeakOrder(lt)
    ensures Ties(lt, Sorted(lt, values), x) == Reverse(Ties(lt, values, x))
  {
    if values != [] {
      var front, y := values[..|values| - 1], values[|values| - 1];
      SortedReversesTies(lt, front, x);
      InsertTies(lt, y, Sorted(lt, front), x);
      assert values == front + [y];
      TiesAppend(lt, front, [y], x);
      TiesOne(lt, y, x);
      ReverseAppend(Ties(lt, front, x), Ties(lt, [y], x));
    }
  }

  lemma {:induction false} TiesHead<T(!new)>(lt: (T, T) -> bool, s: seq<T>, x: T)
    requires StrictWeakOrder(lt) && Ascending(lt, s)
    ensures Ties(lt, s, x) != [] ==> s != [] && !lt(x, s[0])
    ensures s != [] && !lt(s[0], x) && !lt(x, s[0]) ==> Ties(lt, s, x) == [s[0]] + Ties(lt, s[1..], x)
  {
    if s != [] {
      AscendingTail(lt, s);
      TiesHead(lt, s[1..], x);
      assert |s| > 1 ==> !lt(s[1], s[0]);
    }
  }

  /** An ascending sequence is determined by its entries tie by tie. */
  lemma {:induction false} AscendingUnique<T(!new)>(lt: (T, T) -> bool, a: seq<T>, b: seq<T>)
    requires StrictWeakOrder(lt) && Ascending(lt, a) && Ascending(lt, b)
    requires forall x :: Ties(lt, a, x) == Ties(lt, b, x)
    ensures a == b
  {
    if a != [] {
      TiesHead(lt, a, a[0]);
      assert Ties(lt, a, a[0]) == Ties(lt, b, a[0]) && Ties(lt, a, a[0])[0] == a[0];
      TiesHead(lt, b, a[0]);
      TiesHead(lt, a, b[0]);
      TiesHead(lt, b, b[0]);
      assert Ties(lt, a, b[0]) == Ties(lt, b, b[0]);
      assert Ties(lt, b, a[0])[0] == b[0];
      AscendingTail(lt, a);
      AscendingTail(lt, b);
      forall x ensures Ties(lt, a[1..], x) == Ties(lt, b[1..], x) {
        TailTies(lt, a, b, x);
      }
      AscendingUnique(lt, a[1..], b[1..]);
      assert a == [a[0]] + a[1..] && b == [b[0]] + b[1..];
    } else if b != [] {
      TiesHead(lt, b, b[0]);
    }
  }

  lemma TailTies<T>(lt: (T, T) -> bool, a: seq<T>, b: seq<T>, x: T)
    requires a != [] && b != [] && a[0] == b[0]
    requires Ties(lt, a, x) == Ties(lt, b, x)
    ensures Ties(lt, a[1..], x) == Ties(lt, b[1..], x)
  {
    if !lt(a[0], x) && !lt(x, a[0]) {
      assert Ties(lt, a, x)[1..] == Ties(lt, a[1..], x);
      assert Ties(lt, b, x)[1..] == Ties(lt, b[1..], x);
    } else {
      assert Ties(lt, a, x) == Ties(lt, a[1..], x);
      assert Ties(lt, b, x) == Ties(lt, b[1..], x);
    }
  }

  /** The sort returns the one ascending sequence whose ties are the input's reversed. */
  lemma SortedUnique<T(!new)>(lt: (T, T) -> bool, values: seq<T>, r: seq<T>)
    requires StrictWeakOrder(lt)
    ensures r == Sorted(lt, values) <==> IsSortOf(lt, values, r)
  {
    var s := Sorted(lt, values);
    SortedAscending(lt, values);
    forall x ensures Ties(lt, s, x) == Reverse(Ties(lt, values, x)) {
      SortedReversesTies(lt, values, x);
    }
    assert IsSortOf(lt, values, s);
    if IsSortOf(lt, values, r) {
      AscendingUnique(lt, r, s);
    }
  }

  // ---------------------------------------------------------------- sums and strict sequences

  function Sum<T>(w: T -> nat, s: seq<T>): nat {
    if s == [] then 0 else Sum(w, s[..|s| - 1]) + w(s[|s| - 1])
  }

  lemma SumSnoc<T>(w: T -> nat, s: seq<T>, x: T)
    ensures Sum(w, s + [x]) == Sum(w, s) + w(x)
  {
    assert (s + [x])[..|s|] == s;
  }

  lemma {:induction false} SumCons<T>(w: T -> nat, x: T, s: seq<T>)
    ensures Sum(w, [x] + s) == w(x) + Sum(w, s)
  {
    if s == [] {
      assert [x] + s == [] + [x];
      SumSnoc(w, [], x);
    } else {
      var n := |s| - 1;
      SumCons(w, x, s[..n]);
      assert [x] + s == ([x] + s[..n]) + [s[n]];
      SumSnoc(w, [x] + s[..n], s[n]);
    }
  }

  lemma {:induction false} SumInsert<T>(lt: (T, T) -> bool, w: T -> nat, x: T, s: seq<T>)
    ensures Sum(w, Insert(lt, x, s)) == w(x) + Sum(w, s)
  {
    hide Sum;
    if s != [] && lt(s[0], x) {
      SumInsert(lt, w, x, s[1..]);
      SumCons(w, s[0], Insert(lt, x, s[1..]));
      SumCons(w, s[0], s[1..]);
      assert s == [s[0]] + s[1..];
    } else {
      SumCons(w, x, s);
    }
  }

  /** A total does not depend on the order of the entries. */
  lemma {:induction false} SumSorted<T>(lt: (T, T) -> bool, w: T -> nat, s: seq<T>)
    ensures Sum(w, Sorted(lt, s)) == Sum(w, s)
  {
    if s != [] {
      SumSorted(lt, w, s[..|s| - 1]);
      SumInsert(lt, w, s[|s| - 1], Sorted(lt, s[..|s| - 1]));
    }
  }

  lemma {:induction false} SumAppend<T>(w: T -> nat, a: seq<T>, b: seq<T>)
    ensures Sum(w, a + b) == Sum(w, a) + Sum(w, b)
  {
    if b == [] {
      assert a + b == a;
    } else {
      var n := |b| - 1;
      SumAppend(w, a, b[..n]);
      assert a + b == (a + b[..n]) + [b[n]];
      SumSnoc(w, a + b[..n], b[n]);
    }
  }

  lemma Without<T>(a: seq<T>, i: nat)
    requires i < |a|
    ensures multiset(a[..i] + a[i + 1..]) == multiset(a) - multiset{a[i]}
  {
    assert a == a[..i] + ([a[i]] + a[i + 1..]);
  }

  lemma SumWithout<T>(w: T -> nat, a: seq<T>, i: nat)
    requires i < |a|
    ensures Sum(w, a) == Sum(w, a[..i] + a[i + 1..]) + w(a[i])
  {
    hide Sum;
    assert a == a[..i] + ([a[i]] + a[i + 1..]);
    SumAppend(w, a[..i], [a[i]] + a[i + 1..]);
    SumAppend(w, a[..i], a[i + 1..]);
    SumCons(w, a[i], a[i + 1..]);
  }

  lemma {:induction false} SumPermuted<T>(w: T -> nat, a: seq<T>, b: seq<T>)
    requires multiset(a) == multiset(b)
    ensures Sum(w, a) == Sum(w, b)
  {
    hide Sum;
    SameLength(a, b);
    if b != [] {
      var x := b[0];
      assert x in multiset(a);
      var i :| 0 <= i < |a| && a[i] == x;
      var front, back := a[..i] + a[i + 1..], b[..0] + b[1..];
      Without(a, i);
      Without(b, 0);
      SumPermuted(w, front, back);
      SumWithout(w, a, i);
      SumWithout(w, b, 0);
    } else {
      assert a == b;
    }
  }

  lemma {:induction false} SumPrefix<T>(w: T -> nat, s: seq<T>, i: nat)
    requires i <= |s|
    ensures Sum(w, s[..i]) <= Sum(w, s)
  {
    if i == |s| {
      assert s[..i] == s;
    } else {
      SumPrefix(w, s[..|s| - 1], i);
      assert s[..|s| - 1][..i] == s[..i];
    }
  }

  ghost predicate Strict<T>(lt: (T, T) -> bool, s: seq<T>) {
    forall i, j :: 0 <= i < j < |s| ==> lt(s[i], s[j])
  }

  /** Entries that never tie have one strictly ascending order. */
  lemma {:induction false} StrictUnique<T(!new)>(lt: (T, T) -> bool, a: seq<T>, b: seq<T>)
    requires StrictWeakOrder(lt) && Strict(lt, a) && Strict(lt, b)
    requires multiset(a) == multiset(b)
    ensures a == b
  {
    hide Strict, StrictWeakOrder;
    SameLength(a, b);
    if a != [] {
      HeadsAgree(lt, a, b);
      TailMultiset(a);
      TailMultiset(b);
      StrictTail(lt, a);
      StrictTail(lt, b);
      StrictUnique(lt, a[1..], b[1..]);
      SameHeadAndTail(a, b);
    }
  }

  lemma SameHeadAndTail<T>(a: seq<T>, b: seq<T>)
    requires a != [] && b != [] && a[0] == b[0] && a[1..] == b[1..]
    ensures a == b
  {
    assert a == [a[0]] + a[1..] && b == [b[0]] + b[1..];
  }

  lemma TailMultiset<T>(s: seq<T>)
    requires s != []
    ensures multiset(s[1..]) == multiset(s) - multiset{s[0]}
  {
    assert s == [s[0]] + s[1..];
  }

  lemma SameLength<T>(a: seq<T>, b: seq<T>)
    requires multiset(a) == multiset(b)
    ensures |a| == |b|
  {
    assert |multiset(a)| == |a| && |multiset(b)| == |b|;
  }

  lemma HeadsAgree<T(!new)>(lt: (T, T) -> bool, a: seq<T>, b: seq<T>)
    requires StrictWeakOrder(lt) && Strict(lt, a) && Strict(lt, b)
    requires multiset(a) == multiset(b) && a != [] && b != []
    ensures a[0] == b[0]
  {
    assert a[0] in multiset(b) && b[0] in multiset(a);
    var i :| 0 <= i < |b| && b[i] == a[0];
    var j :| 0 <= j < |a| && a[j] == b[0];
  }

  lemma StrictTail<T>(lt: (T, T) -> bool, s: seq<T>)
    requires s != [] && Strict(lt, s)
    ensures Strict(lt, s[1..])
  {
    forall i, j | 0 <= i < j < |s[1..]| ensures lt(s[1..][i], s[1..][j]) {
      assert s[1..][i] == s[i + 1] && s[1..][j] == s[j + 1];
    }
  }
}
