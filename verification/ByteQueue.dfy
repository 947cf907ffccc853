/** The growing byte queue of src/s3.c on values: what it holds, block by block. */
module ByteQueue {
  import opened Strings

  /** sizeof(growbuffer.data) */
  const BLOCK: nat := 65536

  function Flatten(bs: seq<seq<char>>): seq<char> {
    if bs == [] then [] else bs[0] + Flatten(bs[1..])
  }

  /** The unread bytes of each block in ring order, and how far the first block has been read. */
  datatype Queue = Queue(blocks: seq<seq<char>>, headStart: nat) {

    /** No block is empty, and none reaches beyond its array. */
    ghost predicate Valid() {
      && (forall i :: 0 <= i < |blocks| ==> 0 < |blocks[i]| <= BLOCK)
      && (blocks == [] ==> headStart == 0)
      && (blocks != [] ==> headStart + |blocks[0]| <= BLOCK)
    }

    /** The bytes that are still to be read. */
    function Contents(): seq<char> { Flatten(blocks) }

    /** The last block has not been read from: growbuffer_append writes at data[size], which is the
        end of what is stored only when start is 0. */
    predicate CanAppend() { |blocks| == 1 ==> headStart == 0 }

    /** One round of the loop of growbuffer_append: k bytes go to a new block or to the last one. */
    function Room(): (r: nat)
      requires Valid()
      ensures 0 < r <= BLOCK
    {
      if blocks == [] || |blocks[|blocks| - 1]| == BLOCK then BLOCK else BLOCK - |blocks[|blocks| - 1]|
    }

    function Put(x: seq<char>): (q: Queue)
      requires Valid() && CanAppend() && 0 < |x| <= Room()
    {
      var n := |blocks| - 1;
      if n < 0 || |blocks[n]| == BLOCK then Queue(blocks + [x], headStart)
      else Queue(blocks[..n] + [blocks[n] + x], headStart)
    }

    /** growbuffer_append */
    function Append(data: seq<char>): (q: Queue)
      requires Valid() && CanAppend()
      ensures q.Valid() && q.CanAppend()
      decreases |data|
    {
      if data == [] then this
      else
        var k := if |data| < Room() then |data| else Room();
        Put(data[..k]).Append(data[k..])
    }

    /** growbuffer_read: the queue afterwards, and the bytes delivered. */
    function Read(amt: nat): (Queue, seq<char>) {
      if blocks == [] then (this, [])
      else
        var b := blocks[0];
        if amt < |b| then (Queue([b[amt..]] + blocks[1..], headStart + amt), b[..amt])
        else (Queue(blocks[1..], 0), b)
    }
  }

  const EMPTY := Queue([], 0)

  // ---------------------------------------------------------------- first in, first out

  lemma {:induction false} FlattenSnoc(bs: seq<seq<char>>, b: seq<char>)
    ensures Flatten(bs + [b]) == Flatten(bs) + b
  {
    if bs == [] {
      assert Flatten([b]) == b + Flatten([]) == b;
    } else {
      FlattenSnoc(bs[1..], b);
      assert (bs + [b])[1..] == bs[1..] + [b];
    }
  }

  lemma PutContents(q: Queue, x: seq<char>)
    requires q.Valid() && q.CanAppend() && 0 < |x| <= q.Room()
    ensures q.Put(x).Contents() == q.Contents() + x
  {
    var n := |q.blocks| - 1;
    if n < 0 || |q.blocks[n]| == BLOCK {
      FlattenSnoc(q.blocks, x);
    } else {
      assert q.blocks == q.blocks[..n] + [q.blocks[n]];
      FlattenSnoc(q.blocks[..n], q.blocks[n]);
      FlattenSnoc(q.blocks[..n], q.blocks[n] + x);
    }
  }

  /** An append adds its bytes at the end. */
  lemma {:induction false} AppendContents(q: Queue, data: seq<char>)
    requires q.Valid() && q.CanAppend()
    ensures q.Append(data).Contents() == q.Contents() + data
    decreases |data|
  {
    hide Flatten;
    if data == [] {
      Nothing(q.Contents());
    } else {
      var k := if |data| < q.Room() then |data| else q.Room();
      PutKeeps(q, data[..k]);
      PutContents(q, data[..k]);
      AppendContents(q.Put(data[..k]), data[k..]);
      hide Queue.Put, Queue.Contents, Queue.Room, Queue.Valid, Queue.CanAppend;
    }
  }

  lemma PutKeeps(q: Queue, x: seq<char>)
    requires q.Valid() && q.CanAppend() && 0 < |x| <= q.Room()
    ensures q.Put(x).Valid() && q.Put(x).CanAppend()
  {}

  lemma AppendNothing(q: Queue)
    requires q.Valid() && q.CanAppend()
    ensures q.Append([]) == q
  {}

  lemma AppendStep(q: Queue, data: seq<char>)
    requires q.Valid() && q.CanAppend() && data != []
    ensures var k := if |data| < q.Room() then |data| else q.Room();
      q.Put(data[..k]).Valid() && q.Put(data[..k]).CanAppend() && q.Append(data) == q.Put(data[..k]).Append(data[k..])
  {
    PutKeeps(q, data[..if |data| < q.Room() then |data| else q.Room()]);
    hide Queue.Put, Queue.Room, Queue.Valid, Queue.CanAppend;
  }

  /** A read delivers the first bytes and makes progress. */
  lemma ReadContents(q: Queue, amt: nat)
    requires q.Valid()
    ensures var r := q.Read(amt);
      && r.0.Valid()
      && q.Contents() == r.1 + r.0.Contents()
      && |r.1| <= amt
      && (amt > 0 && q.Contents() != [] ==> r.1 != [])
  {
    if q.blocks != [] {
      var b := q.blocks[0];
      if amt < |b| {
        assert b == b[..amt] + b[amt..];
        assert ([b[amt..]] + q.blocks[1..])[1..] == q.blocks[1..];
      }
    }
  }

  datatype Op = AppendOp(data: seq<char>) | ReadOp(amt: nat)

  /** Every append of the run finds its last block unread. */
  predicate Usable(q: Queue, ops: seq<Op>)
    requires q.Valid()
    decreases |ops|
  {
    ops == [] ||
    match ops[0]
    case AppendOp(data) => q.CanAppend() && Usable(q.Append(data), ops[1..])
    case ReadOp(amt) => ReadContents(q, amt); Usable(q.Read(amt).0, ops[1..])
  }

  /** The queue after a run, and everything the reads delivered. */
  function Run(q: Queue, ops: seq<Op>): (Queue, seq<char>)
    requires q.Valid() && Usable(q, ops)
    decreases |ops|
  {
    if ops == [] then (q, [])
    else
      match ops[0]
      case AppendOp(data) => Run(q.Append(data), ops[1..])
      case ReadOp(amt) =>
        ReadContents(q, amt);
        var r := q.Read(amt);
        var rest := Run(r.0, ops[1..]);
        (rest.0, r.1 + rest.1)
  }

  function Appended(ops: seq<Op>): seq<char> {
    if ops == [] then []
    else (match ops[0] case AppendOp(data) => data case ReadOp(_) => []) + Appended(ops[1..])
  }

  /** In any run nothing is lost, duplicated or reordered: what was delivered, followed by what is
      left, is what was there at first, followed by what was appended. */
  lemma {:induction false} RunIsFifo(q: Queue, ops: seq<Op>)
    requires q.Valid() && Usable(q, ops)
    ensures var r := Run(q, ops);
      r.0.Valid() && r.1 + r.0.Contents() == q.Contents() + Appended(ops)
    decreases |ops|
  {
    hide Flatten, Queue.Valid, Queue.CanAppend, Queue.Append, Queue.Contents, Queue.Read;
    if ops == [] {
      Nothing(q.Contents());
    } else {
      match ops[0]
      case AppendOp(data) =>
        AppendContents(q, data);
        RunIsFifo(q.Append(data), ops[1..]);
        Regroup(q.Contents(), data, Appended(ops[1..]));
      case ReadOp(amt) =>
        ReadContents(q, amt);
        var r := q.Read(amt);
        RunIsFifo(r.0, ops[1..]);
        var rest := Run(r.0, ops[1..]);
        Nothing(Appended(ops[1..]));
        Regroup(r.1, rest.1, rest.0.Contents());
        Regroup(r.1, r.0.Contents(), Appended(ops[1..]));
    }
  }

  /** Reading with a buffer of amt bytes until nothing comes: everything is delivered, and it takes at
      most as many reads as there are bytes. */
  lemma {:induction false} DrainedByReads(q: Queue, amt: nat, n: nat)
    requires q.Valid() && amt > 0 && n >= |q.Contents()|
    ensures var ops := seq(n, _ => ReadOp(amt));
      Usable(q, ops) && Run(q, ops) == (EMPTY, q.Contents())
    decreases n
  {
    var ops := seq(n, _ => ReadOp(amt));
    ReadContents(q, amt);
    if n == 0 {
      EmptyContents(q);
    } else {
      var r := q.Read(amt);
      assert ops[1..] == seq(n - 1, _ => ReadOp(amt));
      if q.Contents() == [] { EmptyContents(q); }
      DrainedByReads(r.0, amt, n - 1);
    }
  }

  lemma EmptyContents(q: Queue)
    requires q.Valid() && q.Contents() == []
    ensures q == EMPTY
  {
  }

  /** The way the program uses it: all appends come before all reads. Then every append is sound. */
  lemma {:induction false} AppendsThenReads(q: Queue, appends: seq<Op>, pulls: seq<Op>)
    requires q.Valid() && q.CanAppend()
    requires forall i :: 0 <= i < |appends| ==> appends[i].AppendOp?
    requires forall i :: 0 <= i < |pulls| ==> pulls[i].ReadOp?
    ensures Usable(q, appends + pulls)
    decreases |appends| + |pulls|
  {
    if appends != [] {
      assert (appends + pulls)[1..] == appends[1..] + pulls;
      AppendsThenReads(q.Append(appends[0].data), appends[1..], pulls);
    } else {
      assert appends + pulls == pulls;
      OnlyReads(q, pulls);
    }
  }

  lemma {:induction false} OnlyReads(q: Queue, pulls: seq<Op>)
    requires q.Valid() && forall i :: 0 <= i < |pulls| ==> pulls[i].ReadOp?
    ensures Usable(q, pulls)
    decreases |pulls|
  {
    if pulls != [] {
      ReadContents(q, pulls[0].amt);
      OnlyReads(q.Read(pulls[0].amt).0, pulls[1..]);
    }
  }

  // ---------------------------------------------------------------- why the last block must be unread

  /** memcpy(&buf->data[buf->size], x) on a block whose array is mem. */
  function Written(mem: seq<char>, size: nat, x: seq<char>): seq<char>
    requires size + |x| <= |mem|
  {
    mem[..size] + x + mem[size + |x|..]
  }

  /** The write extends what the block holds, whatever is written, exactly when the block is unread. */
  lemma WriteIsAppend(mem: seq<char>, start: nat, size: nat)
    requires start + size < |mem|
    ensures (forall x: seq<char> :: |x| == 1 ==>
               Written(mem, size, x)[start..start + size + 1] == mem[start..start + size] + x)
       <==> start == 0
  {
    if start > 0 {
      var c := if mem[start + size] == 'a' then 'b' else 'a';
      var x := [c];
      assert Written(mem, size, x)[start..start + size + 1][size] == mem[start + size];
      assert (mem[start..start + size] + x)[size] == c;
    } else {
      forall x: seq<char> | |x| == 1
        ensures Written(mem, size, x)[start..start + size + 1] == mem[start..start + size] + x
      {
        assert Written(mem, size, x)[..size + 1] == mem[..size] + x;
      }
    }
  }
}
