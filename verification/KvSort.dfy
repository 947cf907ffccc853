/** The key comparison and the in-place sort of src/request.c that order the signed headers and
    query parameters. */
module KvSort {
  import opened Strings
  import opened GnomeSort

  /** The key of a "<key><delim><value>" string. */
  function Key(s: string, delim: char): string { Before(s, delim) }

  /** Dereferencing where the strings themselves stand for their pointers. */
  function Self(s: string): string { s }

  predicate KeyBefore<P>(text: P -> string, delim: char, a: P, b: P) {
    Less(Key(text(a), delim), Key(text(b), delim))
  }

  /** The order of pointers by the keys of the strings they designate. */
  function ByKey<P>(text: P -> string, delim: char): (P, P) -> bool {
    (a: P, b: P) => KeyBefore(text, delim, a, b)
  }

  /** lt is that order; stated so that a proof looks inside it only where two keys are compared. */
  ghost predicate Compares<P(!new)>(lt: (P, P) -> bool, text: P -> string, delim: char) {
    forall a, b {:trigger KeyBefore(text, delim, a, b)} :: KeyBefore(text, delim, a, b) == lt(a, b)
  }

  lemma ByKeyIsOrder<P(!new)>(text: P -> string, delim: char)
    ensures StrictWeakOrder(ByKey(text, delim))
  {
    var lt := ByKey(text, delim);
    forall x, y | lt(x, y) ensures !lt(y, x) {
      LessTotal(Key(text(x), delim), Key(text(y), delim));
    }
    forall x, y, z | lt(x, y) && lt(y, z) ensures lt(x, z) {
      LessTransitive(Key(text(x), delim), Key(text(y), delim), Key(text(z), delim));
    }
    forall x, y, z | lt(x, z) ensures lt(x, y) || lt(y, z) {
      LessTotal(Key(text(x), delim), Key(text(y), delim));
      if lt(y, x) { LessTransitive(Key(text(y), delim), Key(text(x), delim), Key(text(z), delim)); }
    }
  }

  /** headerle: despite its name, the strict order of the keys. The scan needs the delimiter in
      both strings: that is what stops it. */
  method HeaderLe(s1: string, s2: string, delim: char) returns (r: bool)
    requires delim in s1 && delim in s2
    ensures r == Less(Key(s1, delim), Key(s2, delim))
  {
    var p1, p2 := s1, s2;
    while true
      invariant delim in p1 && delim in p2
      invariant Less(Key(s1, delim), Key(s2, delim)) == Less(Key(p1, delim), Key(p2, delim))
      decreases p1
    {
      if p1[0] == delim {
        return p2[0] != delim;
      } else if p2[0] == delim {
        return false;
      } else if p2[0] < p1[0] {
        return false;
      } else if p2[0] > p1[0] {
        return true;
      }
      p1, p2 := p1[1..], p2[1..];
    }
  }

  // ---------------------------------------------------------------- signed characters

  /** The value of a plain char on a platform where it is signed. */
  function SignedCode(c: char): int { if c as int < 128 then c as int else c as int - 256 }

  /** The order that headerle decides there. */
  predicate SignedLess(a: string, b: string) {
    b != [] && (a == [] || SignedCode(a[0]) < SignedCode(b[0]) || (a[0] == b[0] && SignedLess(a[1..], b[1..])))
  }

  /** For keys of ASCII characters, which is what names of headers and parameters are made of, it does not
      matter whether characters are signed. */
  lemma {:induction false} SignedOrderOfAscii(a: string, b: string)
    requires (forall i :: 0 <= i < |a| ==> a[i] as int < 128) && (forall i :: 0 <= i < |b| ==> b[i] as int < 128)
    ensures SignedLess(a, b) == Less(a, b)
  {
    if a != [] && b != [] { SignedOrderOfAscii(a[1..], b[1..]); }
  }

  /** For others it does. */
  lemma SignedOrderDiffers()
    ensures Less("a", "\U{E4}") && !SignedLess("a", "\U{E4}") && SignedLess("\U{E4}", "a")
  {}

  ghost predicate AllHave<P>(v: seq<P>, text: P -> string, delim: char) {
    forall k :: 0 <= k < |v| ==> delim in text(v[k])
  }

  /** The comparison that decides whether entry i has found its place. */
  method InPlace<P(!new)>(values: array<P>, i: nat, text: P -> string, delim: char, ghost lt: (P, P) -> bool)
    returns (r: bool)
    requires i < values.Length && Compares(lt, text, delim)
    requires i > 0 ==> delim in text(values[i - 1]) && delim in text(values[i])
    ensures r <==> i == 0 || lt(values[i - 1], values[i])
  {
    r := i == 0;
    if !r {
      r := HeaderLe(text(values[i - 1]), text(values[i]), delim);
      assert r == KeyBefore(text, delim, values[i - 1], values[i]);
    }
  }

  /** Swaps entry i with the entry before it. */
  method MoveDown<P(!new)>(values: array<P>, i: nat, ghost lt: (P, P) -> bool, ghost input: seq<P>, ghost top: nat)
    requires |input| <= values.Length
    requires Moving(lt, values[..|input|], input, i, top)
    requires 0 < i && !lt(values[i - 1], values[i])
    modifies values
    ensures Moving(lt, values[..|input|], input, i - 1, top)
    ensures values[..|input|] == old(values[..|input|][i := values[i - 1]][i - 1 := values[i]])
    ensures values[|input|..] == old(values[|input|..])
  {
    var tmp := values[i];
    values[i] := values[i - 1];
    values[i - 1] := tmp;
  }

  /** The loop of kv_gnome_sort, with the jump back to the last highest index. */
  method GnomeLoop<P(!new)>(values: array<P>, size: nat, text: P -> string, delim: char, ghost lt: (P, P) -> bool)
    requires size <= values.Length
    requires AllHave(values[..size], text, delim)
    requires StrictWeakOrder(lt) && Compares(lt, text, delim)
    modifies values
    ensures values[..size] == Sorted(lt, old(values[..size]))
    ensures values[size..] == old(values[size..])
  {
    hide Moving, StrictWeakOrder, Sorted, Compares, KeyBefore;
    ghost var input := values[..size];
    MovingStart(lt, input);
    var i, lastHighest := 0, 0;
    while i < size
      invariant 0 <= i <= lastHighest <= size
      invariant values[size..] == old(values[size..])
      invariant AllHave(values[..size], text, delim)
      invariant i < size ==> lastHighest < size && Moving(lt, values[..size], input, i, lastHighest)
      invariant i == size ==> values[..size] == Sorted(lt, input)
      decreases size - lastHighest, i
    {
      ghost var v := values[..size];
      var advance := InPlace(values, i, text, delim, lt);
      if advance {
        Settle(lt, v, input, i, lastHighest);
        lastHighest := lastHighest + 1;
        i := lastHighest;
      } else {
        MoveDown(values, i, lt, input, lastHighest);
        i := i - 1;
      }
    }
  }

  /** kv_gnome_sort. It moves pointers; text reads the string that a pointer designates. */
  method KvGnomeSort<P(!new)>(values: array<P>, size: nat, text: P -> string, delim: char)
    requires size <= values.Length
    requires AllHave(values[..size], text, delim)
    modifies values
    ensures values[..size] == Sorted(ByKey(text, delim), old(values[..size]))
    ensures values[size..] == old(values[size..])
  {
    ByKeyIsOrder(text, delim);
    hide KeyBefore;
    GnomeLoop(values, size, text, delim, ByKey(text, delim));
  }
}
