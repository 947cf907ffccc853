/** Grouping a list by key, for any entries, keys and values: what one pass over a sorted list
    collects, and what that is in terms of the unsorted list. */
module Grouping {
  import opened Strings
  import opened GnomeSort

  datatype Group<K, V> = Group(key: K, values: seq<V>)

  /** One pass: an entry with the key of the entry before it joins that entry's group. */
  function Groups<T, K(==), V>(s: seq<T>, key: T -> K, val: T -> V): (r: seq<Group<K, V>>)
    ensures s != [] ==> r != [] && r[|r| - 1].key == key(s[|s| - 1])
    ensures forall i :: 0 <= i < |r| ==> r[i].values != []
  {
    if s == [] then []
    else
      var n := |s| - 1;
      var front := Groups(s[..n], key, val);
      var k, v := key(s[n]), val(s[n]);
      if n > 0 && key(s[n - 1]) == k
      then var m := |front| - 1; front[m := Group(k, front[m].values + [v])]
      else front + [Group(k, [v])]
  }

  lemma GroupsSnoc<T, K, V>(s: seq<T>, x: T, key: T -> K, val: T -> V)
    ensures var g, n := Groups(s, key, val), |s|;
      Groups(s + [x], key, val) ==
        if n > 0 && key(s[n - 1]) == key(x)
        then g[|g| - 1 := Group(key(x), g[|g| - 1].values + [val(x)])]
        else g + [Group(key(x), [val(x)])]
  {
    assert (s + [x])[..|s|] == s;
  }

  /** The values of key k, in the order of the list. */
  function ValuesOf<T, K(==), V>(s: seq<T>, key: T -> K, val: T -> V, k: K): seq<V> {
    if s == [] then []
    else (if key(s[0]) == k then [val(s[0])] else []) + ValuesOf(s[1..], key, val, k)
  }

  lemma {:induction false} ValuesAppend<T, K, V>(a: seq<T>, b: seq<T>, key: T -> K, val: T -> V, k: K)
    ensures ValuesOf(a + b, key, val, k) == ValuesOf(a, key, val, k) + ValuesOf(b, key, val, k)
  {
    if a == [] {
      assert a + b == b;
    } else {
      assert (a + b)[1..] == a[1..] + b && (a + b)[0] == a[0];
      ValuesAppend(a[1..], b, key, val, k);
      var first := if key(a[0]) == k then [val(a[0])] else [];
      var x, y := ValuesOf(a[1..], key, val, k), ValuesOf(b, key, val, k);
      assert first + (x + y) == (first + x) + y;
    }
  }

  lemma ValuesSnoc<T, K, V>(s: seq<T>, x: T, key: T -> K, val: T -> V, k: K)
    ensures ValuesOf(s + [x], key, val, k) == ValuesOf(s, key, val, k) + (if key(x) == k then [val(x)] else [])
  {
    ValuesAppend(s, [x], key, val, k);
    assert [x][1..] == [];
  }

  lemma ValuesCons<T, K, V>(x: T, s: seq<T>, key: T -> K, val: T -> V, k: K)
    ensures ValuesOf([x] + s, key, val, k) == (if key(x) == k then [val(x)] else []) + ValuesOf(s, key, val, k)
  {
    assert ([x] + s)[1..] == s;
  }

  lemma {:induction false} ValuesReverse<T, K, V>(s: seq<T>, key: T -> K, val: T -> V, k: K)
    ensures ValuesOf(Reverse(s), key, val, k) == Reverse(ValuesOf(s, key, val, k))
  {
    if s != [] {
      ValuesReverse(s[1..], key, val, k);
      ValuesSnoc(Reverse(s[1..]), s[0], key, val, k);
      var first := if key(s[0]) == k then [val(s[0])] else [];
      ReverseAppend(first, ValuesOf(s[1..], key, val, k));
      assert Reverse(first) == first by { if first != [] { assert first[1..] == []; } }
    }
  }

  lemma {:induction false} ValuesEmpty<T, K, V>(s: seq<T>, key: T -> K, val: T -> V, k: K)
    ensures ValuesOf(s, key, val, k) == [] <==> forall i :: 0 <= i < |s| ==> key(s[i]) != k
  {
    if s != [] {
      ValuesEmpty(s[1..], key, val, k);
      if key(s[0]) != k {
        if forall i :: 0 <= i < |s[1..]| ==> key(s[1..][i]) != k {
          forall i | 0 <= i < |s| ensures key(s[i]) != k {
            if i > 0 { assert s[i] == s[1..][i - 1]; }
          }
        } else {
          var i :| 0 <= i < |s[1..]| && key(s[1..][i]) == k;
          assert s[i + 1] == s[1..][i];
        }
      }
    }
  }

  /** The list is sorted by a strict order of the keys. */
  ghost predicate KeyOrdered<T, K(!new)>(s: seq<T>, key: T -> K, before: (K, K) -> bool) {
    forall i, j :: 0 <= i < j < |s| ==> key(s[i]) == key(s[j]) || before(key(s[i]), key(s[j]))
  }

  ghost predicate StrictOrder<K(!new)>(before: (K, K) -> bool) {
    && (forall x, y :: before(x, y) ==> !before(y, x))
    && (forall x, y, z :: before(x, y) && before(y, z) ==> before(x, z))
  }

  ghost predicate KeysAscend<K(!new), V>(g: seq<Group<K, V>>, before: (K, K) -> bool) {
    forall i, j :: 0 <= i < j < |g| ==> before(g[i].key, g[j].key)
  }

  ghost predicate HoldsValues<T, K, V>(g: seq<Group<K, V>>, s: seq<T>, key: T -> K, val: T -> V) {
    forall i :: 0 <= i < |g| ==> g[i].values == ValuesOf(s, key, val, g[i].key) != []
  }

  ghost predicate HasKey<K, V>(g: seq<Group<K, V>>, k: K) {
    exists m :: 0 <= m < |g| && g[m].key == k
  }

  ghost predicate Covers<T, K, V>(g: seq<Group<K, V>>, s: seq<T>, key: T -> K) {
    forall i :: 0 <= i < |s| ==> HasKey(g, key(s[i]))
  }

  /** The reference: one group per key that occurs, keys strictly ascending, each with exactly the
      values of that key. */
  ghost predicate IsGrouping<T, K(!new), V>(g: seq<Group<K, V>>, s: seq<T>, key: T -> K, val: T -> V,
                                            before: (K, K) -> bool)
  {
    KeysAscend(g, before) && HoldsValues(g, s, key, val) && Covers(g, s, key)
  }

  /** One pass over a list sorted by key groups it. */
  lemma {:induction false} GroupsAreGrouping<T, K(!new), V>(s: seq<T>, key: T -> K, val: T -> V,
                                                          before: (K, K) -> bool)
    requires StrictOrder(before) && KeyOrdered(s, key, before)
    ensures IsGrouping(Groups(s, key, val), s, key, val, before)
  {
    hide StrictOrder, KeysAscend, HoldsValues, Covers, Groups;
    EmptyGrouping<T, K, V>(key, val, before);
    if s != [] {
      var n := |s| - 1;
      var front, x := s[..n], s[n];
      var g := Groups(front, key, val);
      assert s == front + [x] && (n == 0 ==> front == []);
      OrderedFront(s, n, key, before);
      GroupsAreGrouping(front, key, val, before);
      assert n > 0 ==> key(s[n - 1]) == key(x) || before(key(s[n - 1]), key(x));
      GroupsSnoc(front, x, key, val);
      if n > 0 && key(front[n - 1]) == key(x) {
        JoinGroup(g, front, x, key, val, before);
      } else {
        NewGroup(g, front, x, key, val, before);
      }
    }
  }

  lemma OrderedFront<T, K(!new)>(s: seq<T>, n: nat, key: T -> K, before: (K, K) -> bool)
    requires n <= |s| && KeyOrdered(s, key, before)
    ensures KeyOrdered(s[..n], key, before)
  {}

  lemma EmptyGrouping<T, K(!new), V>(key: T -> K, val: T -> V, before: (K, K) -> bool)
    ensures Groups([], key, val) == [] && IsGrouping([], [], key, val, before)
  {}

  lemma JoinGroup<T, K(!new), V>(g: seq<Group<K, V>>, s: seq<T>, x: T, key: T -> K, val: T -> V, before: (K, K) -> bool)
    requires StrictOrder(before) && IsGrouping(g, s, key, val, before)
    requires g != [] && g[|g| - 1].key == key(x)
    ensures var m := |g| - 1;
      IsGrouping(g[m := Group(key(x), g[m].values + [val(x)])], s + [x], key, val, before)
  {
    var m := |g| - 1;
    var h := g[m := Group(key(x), g[m].values + [val(x)])];
    forall i | 0 <= i < |h| ensures h[i].values == ValuesOf(s + [x], key, val, h[i].key) != [] {
      ValuesSnoc(s, x, key, val, h[i].key);
      assert i == m || before(g[i].key, g[m].key);
    }
    forall i | 0 <= i < |s + [x]| ensures HasKey(h, key((s + [x])[i])) {
      if i < |s| {
        assert HasKey(g, key(s[i]));
        var q :| 0 <= q < |g| && g[q].key == key(s[i]);
        assert h[q].key == key(s[i]);
      } else {
        assert h[m].key == key(x);
      }
    }
  }

  lemma NewGroup<T, K(!new), V>(g: seq<Group<K, V>>, s: seq<T>, x: T, key: T -> K, val: T -> V, before: (K, K) -> bool)
    requires StrictOrder(before) && IsGrouping(g, s, key, val, before)
    requires g != [] ==> before(g[|g| - 1].key, key(x))
    ensures IsGrouping(g + [Group(key(x), [val(x)])], s + [x], key, val, before)
  {
    var h, n := g + [Group(key(x), [val(x)])], |g|;
    forall i | 0 <= i < n ensures before(g[i].key, key(x)) {
      assert i == n - 1 || before(g[i].key, g[n - 1].key);
    }
    forall i | 0 <= i < |s| ensures key(s[i]) != key(x) {
      assert HasKey(g, key(s[i]));
      var q :| 0 <= q < |g| && g[q].key == key(s[i]);
    }
    ValuesEmpty(s, key, val, key(x));
    forall i | 0 <= i < |h| ensures h[i].values == ValuesOf(s + [x], key, val, h[i].key) != [] {
      ValuesSnoc(s, x, key, val, h[i].key);
      assert i < n ==> h[i] == g[i];
    }
    forall i | 0 <= i < |s + [x]| ensures HasKey(h, key((s + [x])[i])) {
      if i < |s| {
        assert HasKey(g, key(s[i]));
        var q :| 0 <= q < |g| && g[q].key == key(s[i]);
        assert h[q].key == key(s[i]);
      } else {
        assert h[n].key == key(x);
      }
    }
  }

  /** A grouping is determined by the list. */
  lemma GroupingUnique<T, K(!new), V>(g: seq<Group<K, V>>, h: seq<Group<K, V>>, s: seq<T>,
                                      key: T -> K, val: T -> V, before: (K, K) -> bool)
    requires StrictOrder(before)
    requires IsGrouping(g, s, key, val, before) && IsGrouping(h, s, key, val, before)
    ensures g == h
  {
    SameKeys(g, h, s, key, val, before);
    SameKeys(h, g, s, key, val, before);
    AscendingKeysUnique(g, h, before);
    forall i | 0 <= i < |g| ensures g[i] == h[i] {
      assert g[i].key == h[i].key;
    }
  }

  lemma SameKeys<T, K(!new), V>(g: seq<Group<K, V>>, h: seq<Group<K, V>>, s: seq<T>,
                                key: T -> K, val: T -> V, before: (K, K) -> bool)
    requires IsGrouping(g, s, key, val, before) && IsGrouping(h, s, key, val, before)
    ensures forall i :: 0 <= i < |g| ==> HasKey(h, g[i].key)
  {
    forall i | 0 <= i < |g| ensures HasKey(h, g[i].key) {
      ValuesEmpty(s, key, val, g[i].key);
      var j :| 0 <= j < |s| && key(s[j]) == g[i].key;
      assert HasKey(h, key(s[j]));
    }
  }

  lemma {:induction false} AscendingKeysUnique<K(!new), V>(g: seq<Group<K, V>>, h: seq<Group<K, V>>,
                                                            before: (K, K) -> bool)
    requires StrictOrder(before) && KeysAscend(g, before) && KeysAscend(h, before)
    requires forall i :: 0 <= i < |g| ==> HasKey(h, g[i].key)
    requires forall i :: 0 <= i < |h| ==> HasKey(g, h[i].key)
    ensures |g| == |h| && forall i :: 0 <= i < |g| ==> g[i].key == h[i].key
  {
    if h != [] { SomeKey(g, h); }
    if g != [] {
      SomeKey(h, g);
      assert HasKey(h, g[0].key);
      var m :| 0 <= m < |h| && h[m].key == g[0].key;
      assert HasKey(g, h[0].key);
      var p :| 0 <= p < |g| && g[p].key == h[0].key;
      HeadIsLeast(h, m, before);
      HeadIsLeast(g, p, before);
      assert g[0].key == h[0].key;
      TailKeys(g, h, before);
      TailKeys(h, g, before);
      AscendingKeysUnique(g[1..], h[1..], before);
      forall i | 0 <= i < |g| ensures g[i].key == h[i].key {
        if i > 0 { assert g[1..][i - 1].key == h[1..][i - 1].key; }
      }
    }
  }

  lemma SomeKey<K, V>(g: seq<Group<K, V>>, h: seq<Group<K, V>>)
    requires h != [] && forall i :: 0 <= i < |h| ==> HasKey(g, h[i].key)
    ensures g != []
  {
    assert HasKey(g, h[0].key);
  }

  lemma HeadIsLeast<K(!new), V>(g: seq<Group<K, V>>, m: nat, before: (K, K) -> bool)
    requires m < |g| && KeysAscend(g, before)
    ensures m == 0 || before(g[0].key, g[m].key)
  {}

  lemma TailKeys<K(!new), V>(g: seq<Group<K, V>>, h: seq<Group<K, V>>, before: (K, K) -> bool)
    requires StrictOrder(before) && KeysAscend(g, before)
    requires g != [] && h != [] && g[0].key == h[0].key
    requires forall i :: 0 <= i < |g| ==> HasKey(h, g[i].key)
    ensures KeysAscend(g[1..], before)
    ensures forall i :: 0 <= i < |g[1..]| ==> HasKey(h[1..], g[1..][i].key)
  {
    var g', h' := g[1..], h[1..];
    forall i | 0 <= i < |g'| ensures HasKey(h', g'[i].key) {
      assert HasKey(h, g[i + 1].key);
      var q :| 0 <= q < |h| && h[q].key == g[i + 1].key;
      assert before(g[0].key, g[i + 1].key);
      assert h'[q - 1].key == g'[i].key;
    }
    forall i, j | 0 <= i < j < |g'| ensures before(g'[i].key, g'[j].key) {
      assert before(g[i + 1].key, g[j + 1].key);
    }
  }

  // ---------------------------------------------------------------- sorting first

  /** Sorting with kv_gnome_sort's order reverses the values of each key. */
  lemma {:induction false} InsertValues<T(!new), K, V>(lt: (T, T) -> bool, x: T, s: seq<T>, key: T -> K, val: T -> V,
                                                       k: K)
    requires forall a, b :: lt(a, b) ==> key(a) != key(b)
    ensures ValuesOf(Insert(lt, x, s), key, val, k)
         == (if key(x) == k then [val(x)] else []) + ValuesOf(s, key, val, k)
  {
    if s != [] && lt(s[0], x) {
      InsertValues(lt, x, s[1..], key, val, k);
      PastOther(s[0], x, s[1..], Insert(lt, x, s[1..]), key, val, k);
      assert s == [s[0]] + s[1..];
    } else {
      ValuesCons(x, s, key, val, k);
    }
  }

  lemma PastOther<T, K, V>(y: T, x: T, s: seq<T>, r: seq<T>, key: T -> K, val: T -> V, k: K)
    requires key(y) != key(x)
    requires ValuesOf(r, key, val, k) == (if key(x) == k then [val(x)] else []) + ValuesOf(s, key, val, k)
    ensures ValuesOf([y] + r, key, val, k)
         == (if key(x) == k then [val(x)] else []) + ValuesOf([y] + s, key, val, k)
  {
    ValuesCons(y, r, key, val, k);
    ValuesCons(y, s, key, val, k);
    hide ValuesOf;
  }

  lemma {:induction false} SortedValues<T(!new), K, V>(lt: (T, T) -> bool, s: seq<T>, key: T -> K, val: T -> V, k: K)
    requires forall a, b :: lt(a, b) ==> key(a) != key(b)
    ensures ValuesOf(Sorted(lt, s), key, val, k) == Reverse(ValuesOf(s, key, val, k))
  {
    if s != [] {
      var n := |s| - 1;
      SortedValues(lt, s[..n], key, val, k);
      InsertValues(lt, s[n], Sorted(lt, s[..n]), key, val, k);
      assert s == s[..n] + [s[n]];
      ValuesSnoc(s[..n], s[n], key, val, k);
      var last := if key(s[n]) == k then [val(s[n])] else [];
      ReverseAppend(ValuesOf(s[..n], key, val, k), last);
      assert Reverse(last) == last by { if last != [] { assert last[1..] == []; } }
    }
  }

  /** Sorting by key and grouping in one pass groups the list read backwards. */
  lemma SortedGrouping<T(!new), K(!new), V>(lt: (T, T) -> bool, s: seq<T>, key: T -> K, val: T -> V,
                                            before: (K, K) -> bool)
    requires StrictWeakOrder(lt) && StrictOrder(before)
    requires forall a, b :: lt(a, b) <==> before(key(a), key(b))
    requires forall x, y :: x == y || before(x, y) || before(y, x)
    ensures IsGrouping(Groups(Sorted(lt, s), key, val), Reverse(s), key, val, before)
  {
    var t, r := Sorted(lt, s), Reverse(s);
    var g := Groups(t, key, val);
    SortedAscending(lt, s);
    forall i, j | 0 <= i < j < |t| ensures key(t[i]) == key(t[j]) || before(key(t[i]), key(t[j])) {
      assert !lt(t[j], t[i]);
    }
    GroupsAreGrouping(t, key, val, before);
    forall k ensures ValuesOf(t, key, val, k) == ValuesOf(r, key, val, k) {
      SortedValues(lt, s, key, val, k);
      ValuesReverse(s, key, val, k);
    }
    SortedMembers(lt, s);
    forall i | 0 <= i < |r| ensures HasKey(g, key(r[i])) {
      ReverseMembers(s, r[i]);
      assert r[i] in t;
      var j :| 0 <= j < |t| && t[j] == r[i];
      assert HasKey(g, key(t[j]));
    }
  }

  /** That is also the grouping of the list itself exactly when the values of every key read the
      same in both directions, as they do when no key repeats. */
  lemma BackwardsIsForwards<T, K(!new), V>(g: seq<Group<K, V>>, s: seq<T>, key: T -> K, val: T -> V,
                                           before: (K, K) -> bool)
    requires StrictOrder(before) && IsGrouping(g, Reverse(s), key, val, before)
    ensures IsGrouping(g, s, key, val, before) <==>
      forall k :: Reverse(ValuesOf(s, key, val, k)) == ValuesOf(s, key, val, k)
  {
    hide StrictOrder, KeysAscend, Groups;
    var r := Reverse(s);
    forall k ensures ValuesOf(r, key, val, k) == Reverse(ValuesOf(s, key, val, k)) {
      ValuesReverse(s, key, val, k);
    }
    forall i | 0 <= i < |s| ensures HasKey(g, key(s[i])) {
      ReverseMembers(s, s[i]);
      var j :| 0 <= j < |r| && r[j] == s[i];
      assert HasKey(g, key(r[j]));
    }
    if IsGrouping(g, s, key, val, before) {
      forall k ensures Reverse(ValuesOf(s, key, val, k)) == ValuesOf(s, key, val, k) {
        ValuesEmpty(s, key, val, k);
        if ValuesOf(s, key, val, k) != [] {
          var j :| 0 <= j < |s| && key(s[j]) == k;
          assert HasKey(g, k);
          var m :| 0 <= m < |g| && g[m].key == k;
        }
      }
    } else {
      assert exists i :: 0 <= i < |g| && !(g[i].values == ValuesOf(s, key, val, g[i].key) != []);
      var i :| 0 <= i < |g| && !(g[i].values == ValuesOf(s, key, val, g[i].key) != []);
      assert g[i].values == Reverse(ValuesOf(s, key, val, g[i].key)) != [];
    }
  }
}
