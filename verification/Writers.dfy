/** A char buffer that is filled through an advancing write pointer. */
module Writers {
  import opened Strings

  class Writer {
    const buf: array<char>
    var n: nat

    ghost predicate Valid() reads this { n <= buf.Length }

    /** Everything written so far. */
    ghost function Text(): (s: string)
      reads this, buf
      requires Valid()
      ensures |s| == n
    {
      buf[..n]
    }

    constructor (b: array<char>)
      ensures buf == b && n == 0 && Valid()
    {
      buf := b;
      n := 0;
    }

    /** *p++ = c */
    method Put(c: char)
      requires Valid() && n < buf.Length
      modifies this, buf
      ensures Valid() && Text() == old(Text()) + [c]
    {
      buf[n] := c;
      n := n + 1;
    }

    /** *(p - 1) = c */
    method SetLast(c: char)
      requires Valid() && n > 0
      modifies buf
      ensures Valid() && n == old(n) && Text() == old(Text()[..n - 1]) + [c]
    {
      buf[n - 1] := c;
    }

    /** while (is_blank(*(p - 1))) p--; some earlier character has to stop the scan. */
    method BackOverBlanks()
      requires Valid() && RTrim(Text()) != []
      modifies this
      ensures Valid() && n <= old(n) && Text() == RTrim(old(Text()))
    {
      while IsBlank(buf[n - 1])
        invariant Valid() && 0 < n <= old(n)
        invariant RTrim(Text()) == RTrim(old(Text())) != []
        decreases n
      {
        assert Text()[..n - 1] == buf[..n - 1];
        n := n - 1;
      }
    }

    /** *p = 0 */
    method Terminate()
      requires Valid() && n < buf.Length && NUL !in Text()
      modifies buf
      ensures Valid() && n == old(n) && Text() == old(Text()) && Holds(buf[..], 0, Text())
    {
      buf[n] := NUL;
      assert buf[..][0..n] == buf[..n];
    }
  }
}
