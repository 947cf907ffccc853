/** The growing char queue of src/s3.c in memory: a ring of blocks, linked both ways. Its methods are
    the operations of module ByteQueue. */
module GrowBuffer {
  import opened ByteQueue

  class Node {
    var size: nat
    var start: nat
    const data: array<char>
    var prev: Node
    var next: Node

    /** malloc, and the assignments that follow it; what malloc leaves in data is arbitrary. */
    constructor ()
      ensures size == 0 && start == 0 && prev == this && next == this
      ensures data.Length == BLOCK && fresh(data)
    {
      size, start := 0, 0;
      data := new char[BLOCK];
      prev, next := this, this;
    }
  }

  function Succ(i: nat, n: nat): nat { if i + 1 < n then i + 1 else 0 }
  function Pred(i: nat, n: nat): nat requires 0 < n { if i > 0 then i - 1 else n - 1 }

  /** No two nodes are the same or share an array. */
  ghost predicate Distinct(nodes: seq<Node>) {
    forall i, j :: 0 <= i < j < |nodes| ==> nodes[i] != nodes[j] && nodes[i].data != nodes[j].data
  }

  /** The nodes form one cycle in which prev undoes next. */
  ghost predicate Ring(nodes: seq<Node>)
    reads nodes`prev, nodes`next
  {
    && (forall i :: 0 <= i < |nodes| ==> nodes[i].next == nodes[Succ(i, |nodes|)])
    && (forall i :: 0 <= i < |nodes| ==> nodes[i].prev == nodes[Pred(i, |nodes|)])
  }

  /** Only the first block has been read from, and every block lies within its array. */
  ghost predicate Blocks(nodes: seq<Node>)
    reads nodes`size, nodes`start
  {
    forall i :: 0 <= i < |nodes| ==>
      && nodes[i].data.Length == BLOCK
      && 0 < nodes[i].size && nodes[i].start + nodes[i].size <= BLOCK
      && (i > 0 ==> nodes[i].start == 0)
  }

  /** The unread bytes of a node. */
  ghost function Unread(n: Node): (r: seq<char>)
    reads n`size, n`start, n.data
  {
    if n.start + n.size <= n.data.Length then n.data[n.start..n.start + n.size] else []
  }

  ghost function Arrays(nodes: seq<Node>): set<object> { set n | n in nodes :: n.data }

  /** The nodes and their arrays. */
  ghost function Repr(nodes: seq<Node>): set<object> { (set n | n in nodes) + Arrays(nodes) }

  ghost function UnreadOf(nodes: seq<Node>): (r: seq<seq<char>>)
    reads nodes`size, nodes`start, Arrays(nodes)
    ensures |r| == |nodes| && forall i :: 0 <= i < |nodes| ==> r[i] == Unread(nodes[i])
    decreases |nodes|
  {
    if nodes == [] then [] else UnreadOf(nodes[..|nodes| - 1]) + [Unread(nodes[|nodes| - 1])]
  }

  lemma ReprTail(nodes: seq<Node>)
    requires nodes != []
    ensures Repr(nodes[1..]) <= Repr(nodes)
  {}

  lemma ReprSnoc(nodes: seq<Node>, buf: Node)
    ensures Repr(nodes + [buf]) == Repr(nodes) + {buf, buf.data}
  {
    var more := nodes + [buf];
    assert more[|nodes|] == buf;
    assert forall n <- nodes :: n in more;
  }

  lemma BlocksSnoc(nodes: seq<Node>, buf: Node)
    requires Blocks(nodes) && buf.data.Length == BLOCK && 0 < buf.size <= BLOCK && buf.start == 0
    ensures Blocks(nodes + [buf])
  {}

  class GrowBuffer {
    var gb: Node?
    ghost var nodes: seq<Node>

    ghost predicate Valid()
      reads this, nodes
    {
      && (gb == null <==> nodes == []) && (nodes != [] ==> gb == nodes[0])
      && Distinct(nodes) && Ring(nodes) && Blocks(nodes)
    }

    ghost function Model(): (q: Queue)
      reads this, nodes, Arrays(nodes)
      requires Valid()
      ensures q.Valid()
    {
      Queue(UnreadOf(nodes), if nodes == [] then 0 else nodes[0].start)
    }

    constructor ()
      ensures Valid() && Model() == EMPTY
    {
      gb, nodes := null, [];
    }

    /** A new block goes behind the last one; it is still empty. */
    method AddBlock() returns (buf: Node)
      requires Valid()
      modifies this, nodes`prev, nodes`next
      ensures fresh(buf) && fresh(buf.data) && nodes == old(nodes) + [buf] && gb == nodes[0]
      ensures buf.size == 0 && buf.start == 0 && buf.data.Length == BLOCK && Unread(buf) == []
      ensures Distinct(nodes) && Ring(nodes)
    {
      hide Blocks;
      buf := new Node();
      if gb != null {
        Link(buf);
      } else {
        gb := buf;
      }
      nodes := nodes + [buf];
    }

    /** The four pointer assignments. */
    method Link(buf: Node)
      requires Valid() && gb != null && buf !in nodes
      modifies buf`prev, buf`next, nodes`prev, nodes`next
      ensures Ring(nodes + [buf])
    {
      hide Blocks;
      ghost var n := |nodes|;
      var first: Node := gb;
      var last := first.prev;
      assert last == nodes[n - 1];
      buf.prev := last;
      buf.next := first;
      last.next := buf;
      first.prev := buf;
      ghost var ns := nodes + [buf];
      forall i | 0 <= i < n + 1
        ensures ns[i].next == ns[Succ(i, n + 1)] && ns[i].prev == ns[Pred(i, n + 1)]
      {
        if i < n {
          assert ns[i] == nodes[i];
          assert i > 0 ==> nodes[i] != nodes[0];
          assert i < n - 1 ==> nodes[i] != nodes[n - 1];
        }
      }
    }

    /** The bytes go behind what the last block holds. */
    method Write(buf: Node, x: seq<char>)
      requires nodes != [] && Distinct(nodes) && buf == nodes[|nodes| - 1] && buf.data.Length == BLOCK
      requires buf.start == 0 && buf.size + |x| <= BLOCK
      modifies buf`size, buf.data
      ensures buf.size == old(buf.size) + |x|
      ensures Unread(buf) == old(Unread(buf)) + x
      ensures forall i :: 0 <= i < |nodes| - 1 ==> Unread(nodes[i]) == old(Unread(nodes[i]))
    {
      hide Unread, UnreadOf;
      WriteBytes(buf, x);
    }

    /** A round that needs a new block. */
    method PutNew(x: seq<char>)
      requires Valid() && 0 < |x| <= BLOCK
      modifies this, nodes`prev, nodes`next
      ensures Valid() && UnreadOf(nodes) == old(UnreadOf(nodes)) + [x]
      ensures nodes[0].start == if old(nodes) == [] then 0 else old(nodes[0].start)
      ensures fresh(Repr(nodes) - old(Repr(nodes)))
    {
      hide Ring, Unread, UnreadOf, Distinct, Repr, Arrays, Blocks;
      ghost var olds, before := nodes, UnreadOf(nodes);
      var buf := AddBlock();
      ReprSnoc(olds, buf);
      assert forall i :: 0 <= i < |olds| ==> Unread(olds[i]) == before[i];
      Write(buf, x);
      assert [] + x == x;
      BlocksSnoc(olds, buf);
      assert forall i :: 0 <= i < |olds| ==> nodes[i] == olds[i];
      assert UnreadOf(nodes) == before + [x];
    }

    /** A round that goes on in the last block. */
    method PutTail(buf: Node, x: seq<char>)
      requires Valid() && nodes != [] && buf == nodes[|nodes| - 1] && buf.start == 0
      requires 0 < |x| <= BLOCK - buf.size
      modifies buf`size, buf.data
      ensures Valid() && UnreadOf(nodes) == old(UnreadOf(nodes)[..|nodes| - 1]) + [old(Unread(buf)) + x]
    {
      hide Unread, UnreadOf;
      Write(buf, x);
      assert UnreadOf(nodes) == old(UnreadOf(nodes)[..|nodes| - 1]) + [old(Unread(buf)) + x];
    }

    /** One round of the loop of growbuffer_append. */
    method Put(x: seq<char>)
      requires Valid() && Model().CanAppend() && 0 < |x| <= Model().Room()
      modifies this, Repr(nodes)
      ensures Valid() && Model() == old(Model()).Put(x)
      ensures fresh(Repr(nodes) - old(Repr(nodes)))
    {
      hide Ring, Unread, UnreadOf;
      ghost var q := Model();
      TailFacts();
      var buf: Node? := if gb != null then gb.prev else null;
      if buf == null || buf.size == BLOCK {
        PutNew(x);
      } else {
        PutTail(buf, x);
      }
      assert Model().blocks == q.Put(x).blocks;
      assert Model().headStart == q.headStart;
    }

    lemma TailFacts()
      requires Valid()
      ensures gb == null <==> nodes == []
      ensures gb != null ==> gb.prev == nodes[|nodes| - 1] && (Model().CanAppend() ==> gb.prev.start == 0)
      ensures gb != null ==> |Unread(gb.prev)| == gb.prev.size
      ensures Model().Room() == if gb == null || gb.prev.size == BLOCK then BLOCK else BLOCK - gb.prev.size
    {}

    /** growbuffer_append. sound is false when the block that the bytes go to has been read from: they
        are then not written behind what it holds, and nothing is promised. */
    method Append(data: seq<char>) returns (dataLen: nat, sound: bool)
      requires Valid()
      modifies this, Repr(nodes)
      ensures sound <==> data == [] || old(Model()).CanAppend()
      ensures sound ==> Valid() && dataLen == |data|
      ensures sound ==> Model() == if data == [] then old(Model()) else old(Model()).Append(data)
      ensures fresh(Repr(nodes) - old(Repr(nodes)))
    {
      hide Ring, Unread, UnreadOf, Distinct, Blocks, Queue.Append, Queue.Put, Queue.Room, Queue.CanAppend, Queue.Valid;
      if data == [] { return 0, true; }
      TailUnread();
      if gb != null && gb.next == gb && gb.start != 0 { return 0, false; }
      AppendNothing(Model());
      var rest := data;
      while rest != []
        invariant Valid() && Model().CanAppend()
        invariant Model().Append(rest) == old(Model()).Append(data)
        invariant fresh(Repr(nodes) - old(Repr(nodes)))
        decreases |rest|
      {
        TailFacts();
        var room := if gb == null || gb.prev.size == BLOCK then BLOCK else BLOCK - gb.prev.size;
        var k := if |rest| < room then |rest| else room;
        PutKeeps(Model(), rest[..k]);
        AppendStep(Model(), rest);
        Put(rest[..k]);
        rest := rest[k..];
      }
      AppendNothing(Model());
      dataLen, sound := |data|, true;
    }

    lemma TailUnread()
      requires Valid()
      ensures Model().CanAppend() <==> gb == null || gb.next != gb || gb.start == 0
    {
      assert |nodes| == 1 <==> gb != null && gb.next == gb;
    }

    /** k bytes of the first block have been read. */
    method Advance(k: nat)
      requires Valid() && nodes != [] && k <= gb.size
      modifies gb`start, gb`size
      ensures nodes[0].start == old(nodes[0].start) + k && nodes[0].size == old(nodes[0].size) - k
      ensures Unread(nodes[0]) == old(Unread(nodes[0])[k..])
      ensures forall i :: 0 < i < |nodes| ==> Unread(nodes[i]) == old(Unread(nodes[i]))
      ensures Distinct(nodes) && Ring(nodes)
      ensures Blocks(nodes[1..]) && (gb.size > 0 ==> Blocks(nodes))
      ensures |nodes| > 1 ==> nodes[1].start == 0
    {
      hide Ring, UnreadOf;
      gb.start, gb.size := gb.start + k, gb.size - k;
      assert forall i :: 0 < i < |nodes| ==> nodes[i] != gb;
    }

    /** growbuffer_read */
    method Read(amt: nat, buffer: array<char>) returns (amtReturn: nat)
      requires Valid() && amt <= buffer.Length && buffer !in Arrays(nodes)
      modifies this, nodes, buffer
      ensures Valid() && amtReturn <= amt && (Model(), buffer[..amtReturn]) == old(Model()).Read(amt)
      ensures Repr(nodes) <= old(Repr(nodes))
    {
      hide Ring, Distinct, UnreadOf, Unread, Blocks, Arrays, Repr, Queue.Valid;
      ghost var q, olds := Model(), nodes;
      if gb == null {
        assert buffer[..0] == [];
        return 0;
      }
      UnreadIs();
      ReprTail(nodes);
      amtReturn := if gb.size > amt then amt else gb.size;
      CopyFrom(gb.data, gb.start, amtReturn, buffer);
      assert forall i :: 0 <= i < |nodes| ==> Unread(nodes[i]) == q.blocks[i];
      Advance(amtReturn);
      if gb.size == 0 {
        Unlink();
        assert UnreadOf(nodes) == q.blocks[1..];
      } else {
        assert UnreadOf(nodes) == [q.blocks[0][amt..]] + q.blocks[1..];
      }
      assert buffer[..amtReturn] == q.blocks[0][..amtReturn] == q.Read(amt).1;
      assert Model().headStart == q.Read(amt).0.headStart;
    }

    lemma UnreadIs()
      requires Valid() && gb != null
      ensures gb.start + gb.size <= gb.data.Length && |Unread(gb)| == gb.size
      ensures forall k :: 0 <= k <= gb.size ==> gb.data[gb.start..gb.start + k] == Unread(gb)[..k]
      ensures forall i :: 0 <= i < |nodes| ==> nodes[i].data in Arrays(nodes)
    {}

    /** The first block leaves the ring. */
    method Unlink()
      requires nodes != [] && gb == nodes[0] && Distinct(nodes) && Ring(nodes)
      modifies this, nodes`prev, nodes`next
      ensures nodes == old(nodes)[1..] && Distinct(nodes) && Ring(nodes)
      ensures (gb == null <==> nodes == []) && (nodes != [] ==> gb == nodes[0])
    {
      assert |nodes| == 1 <==> nodes[0].next == nodes[0];
      if gb.next == gb {
        gb := null;
      } else {
        var buf: Node := gb;
        gb := buf.next;
        Bypass(buf);
      }
      nodes := nodes[1..];
    }

    /** The two pointer assignments. */
    method Bypass(buf: Node)
      requires |nodes| > 1 && buf == nodes[0] && Distinct(nodes) && Ring(nodes)
      modifies nodes`prev, nodes`next
      ensures Ring(nodes[1..])
    {
      ghost var n := |nodes|;
      assert buf.prev == nodes[n - 1] && buf.next == nodes[1];
      buf.prev.next := buf.next;
      buf.next.prev := buf.prev;
    }

    /** growbuffer_destroy: every node is freed once, and none is looked at after that. */
    method Destroy() returns (freed: seq<Node>)
      requires Valid()
      ensures freed == nodes
    {
      freed := [];
      var cur, start := gb, gb;
      while cur != null
        invariant |freed| <= |nodes| && freed == nodes[..|freed|]
        invariant cur == if |freed| < |nodes| then nodes[|freed|] else null
        invariant cur != null ==> cur !in freed
        decreases |nodes| - |freed|
      {
        var next := cur.next;
        freed := freed + [cur];
        cur := if next == start then null else next;
      }
    }
  }

  /** memcpy(buffer, &src[at], n) */
  method CopyFrom(src: array<char>, at: nat, n: nat, buffer: array<char>)
    requires at + n <= src.Length && n <= buffer.Length && src != buffer
    modifies buffer
    ensures buffer[..n] == src[at..at + n]
  {
    var i := 0;
    while i < n
      invariant 0 <= i <= n && forall j :: 0 <= j < i ==> buffer[j] == src[at + j]
    {
      buffer[i] := src[at + i];
      i := i + 1;
    }
  }

  /** memcpy(&buf->data[buf->size], x); buf->size += |x| */
  method WriteBytes(buf: Node, x: seq<char>)
    requires buf.data.Length == BLOCK && buf.start == 0 && buf.size + |x| <= BLOCK
    modifies buf`size, buf.data
    ensures buf.size == old(buf.size) + |x|
    ensures Unread(buf) == old(Unread(buf)) + x
  {
    CopyTo(buf.data, buf.size, x);
    buf.size := buf.size + |x|;
    assert buf.data[..buf.size] == old(buf.data[..buf.size]) + x;
  }

  /** memcpy(&dst[at], x, |x|) */
  method CopyTo(dst: array<char>, at: nat, x: seq<char>)
    requires at + |x| <= dst.Length
    modifies dst
    ensures dst[..] == Written(old(dst[..]), at, x)
  {
    var i := 0;
    while i < |x|
      invariant 0 <= i <= |x|
      invariant forall j :: 0 <= j < i ==> dst[at + j] == x[j]
      invariant forall j :: 0 <= j < at || at + i <= j < dst.Length ==> dst[j] == old(dst[j])
    {
      dst[at + i] := x[i];
      i := i + 1;
    }
    assert forall j :: at <= j < at + |x| ==> dst[j] == x[j - at];
  }
}
