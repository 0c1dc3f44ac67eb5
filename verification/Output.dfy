/**
 The output buffer of a client: messages are built in place behind the bytes still to be
 written; the socket takes any number of bytes from the front; when room runs out the
 pending bytes are moved down, or into a larger block.
 */
module Output {
  import opened Bytes
  import opened FrameSpec
  import opened Modular

  const O_BLOCK := 8192

  datatype Room = At(offset: nat) | NoMemory | Abort

  function Blocks(n: nat): (s: nat)
    ensures n <= s < n + O_BLOCK && s % O_BLOCK == 0
  {
    (n + O_BLOCK - 1) / O_BLOCK * O_BLOCK
  }

  class Buffer {
    var mem: array<Byte>
    var left: nat
    var done: nat
    /** Everything messages were made of, and everything the socket took. */
    ghost var committed: seq<Byte>
    ghost var written: seq<Byte>

    ghost predicate Valid()
      reads this, mem
    {
      && done + left <= mem.Length && mem.Length % O_BLOCK == 0
      && committed == written + mem[done..done + left]
    }

    constructor ()
      ensures Valid() && fresh(mem) && committed == [] && written == []
      ensures left == done == 0 && mem.Length == O_BLOCK
    {
      mem := new Byte[O_BLOCK];
      left, done := 0, 0;
      committed, written := [], [];
    }

    /** memmove(Mem, Mem + Done, n) */
    method MoveDown(n: nat)
      requires done + n <= mem.Length
      modifies mem
      ensures mem[..n] == old(mem[done..done + n])
    {
      forall i | 0 <= i < n {
        mem[i] := mem[done + i];
      }
    }

    /** malloc and memcpy into a block that holds the pending bytes and the new message. */
    method MoveOver(n: nat, size: nat)
      requires done + n <= mem.Length && n <= size
      modifies `mem
      ensures fresh(mem) && mem.Length == size && mem[..n] == old(mem[done..done + n])
    {
      var m := new Byte[size];
      forall i | 0 <= i < n {
        m[i] := mem[done + i];
      }
      mem := m;
    }

    /**
     ClntOutBuffer: makes room for a message of need bytes, of which copyN are already
     there behind the pending bytes. When no memory is left the request is refused or dropped.
     */
    method ClntOutBuffer(need: nat, copyN: nat, refuse: bool, exhausted: bool) returns (r: Room)
      requires Valid() && copyN <= need && done + left + copyN <= mem.Length
      modifies this`mem, this`done, mem
      ensures Valid() && (mem == old(mem) || fresh(mem))
      ensures r.At? <==> need <= old(mem.Length) - left || !exhausted
      ensures r.Abort? ==> refuse
      ensures r.NoMemory? ==> !refuse
      ensures r.At? ==> r.offset == done + left && r.offset + need <= mem.Length
      ensures r.At? ==> mem[r.offset..r.offset + copyN] == old(mem[done + left..done + left + copyN])
      ensures !r.At? ==> mem == old(mem) && done == old(done) && mem[..] == old(mem[..])
      ensures need <= old(mem.Length) - left ==> mem == old(mem) && done == 0
      ensures need > old(mem.Length) - left && r.At? ==> done == 0 && mem.Length == Blocks(left + need)
    {
      if need <= mem.Length - left {
        Compact(copyN);
        r := At(left);
      } else if !exhausted {
        Grow(copyN, Blocks(left + need));
        r := At(left);
      } else if refuse {
        r := Abort;
      } else {
        r := NoMemory;
      }
    }

    /** The pending bytes and those of the message are moved to the front. */
    method Compact(copyN: nat)
      requires Valid() && done + left + copyN <= mem.Length
      modifies this`done, mem
      ensures Valid() && done == 0 && mem[left..left + copyN] == old(mem[done + left..done + left + copyN])
    {
      ghost var pending, part := mem[done..done + left], mem[done + left..done + left + copyN];
      MovePending(copyN);
      Parted(mem[..left + copyN], mem[..], pending, part);
      done := 0;
    }

    method MovePending(copyN: nat)
      requires done + left + copyN <= mem.Length
      modifies mem
      ensures mem[..left + copyN] == old(mem[done..done + left]) + old(mem[done + left..done + left + copyN])
    {
      Cut(mem[..], done, done + left, done + left + copyN);
      MoveDown(left + copyN);
    }

    /** They are moved to the front of a larger block. */
    method Grow(copyN: nat, size: nat)
      requires Valid() && done + left + copyN <= mem.Length && left + copyN <= size && size % O_BLOCK == 0
      modifies this`done, this`mem
      ensures Valid() && fresh(mem) && mem.Length == size && done == 0
      ensures mem[left..left + copyN] == old(mem[done + left..done + left + copyN])
    {
      var n := left + copyN;
      ghost var pending, part := mem[done..done + left], mem[done + left..done + n];
      Cut(mem[..], done, done + left, done + n);
      MoveOver(n, size);
      Parted(mem[..n], mem[..], pending, part);
      done := 0;
    }

    /** _clnt_r_ptr and Evnt_Buffer: room for a message at the end of the buffer. */
    method Reserve(need: nat, refuse: bool, exhausted: bool) returns (r: Room)
      requires Valid()
      modifies this`mem, this`done, mem
      ensures Valid() && (mem == old(mem) || fresh(mem))
      ensures r.At? <==> need <= old(mem.Length) - left || !exhausted
      ensures r.Abort? ==> refuse
      ensures r.NoMemory? ==> !refuse
      ensures r.At? ==> r.offset == done + left && r.offset + need <= mem.Length
      ensures need <= old(mem.Length) - left ==>
                mem == old(mem) && done == if old(done) + left + need <= mem.Length then old(done) else 0
      ensures r.At? ==> (r.offset, mem.Length) == Spot(old(done), left, old(mem.Length), need)
      ensures done == old(done) || done == 0
    {
      var n := done + left;
      if n + need <= mem.Length {
        r := At(n);
      } else {
        r := ClntOutBuffer(need, 0, refuse, exhausted);
      }
    }

    /** Building a message in the reserved room. */
    method Build(msg: seq<Byte>)
      requires Valid() && done + left + |msg| <= mem.Length
      modifies mem
      ensures Valid() && mem[done + left..done + left + |msg|] == msg
    {
      ghost var pending := mem[done..done + left];
      forall i | 0 <= i < |msg| {
        mem[done + left + i] := msg[i];
      }
      assert mem[done..done + left] == pending;
    }

    /** FT_Clnt_reply, FT_Clnt_error and the event senders: the message joins the pending bytes. */
    method Commit(size: nat)
      requires Valid() && done + left + Align(size) <= mem.Length
      modifies this`left, this`committed
      ensures Valid()
      ensures left == old(left) + Align(size)
      ensures committed == old(committed) + mem[done + old(left)..done + left]
    {
      ghost var at := done + left;
      MorePending(written, mem[..], done, at, at + Align(size));
      left := left + Align(size);
      committed := committed + mem[at..done + left];
    }

    /**
     A whole message, from reservation to commitment. Up to three bytes of what the buffer held
     before follow it as padding, which must not reach beyond the buffer.
     */
    method Send(msg: seq<Byte>, refuse: bool, exhausted: bool) returns (r: Room, ghost pad: seq<Byte>)
      requires Valid() && !Overruns(done, left, mem.Length, |msg|)
      modifies this, mem
      ensures Valid() && (mem == old(mem) || fresh(mem))
      ensures written == old(written)
      ensures committed == if r.At? then old(committed) + msg + pad else old(committed)
      ensures r.At? ==> |pad| == Align(|msg|) - |msg| && left == old(left) + Align(|msg|)
      ensures !r.At? ==> left == old(left) && exhausted
      ensures done == old(done) || done == 0
      ensures old(done + left) + |msg| <= old(mem.Length) ==> mem == old(mem) && done == old(done)
    {
      pad := [];
      r := Reserve(|msg|, refuse, exhausted);
      if r.At? {
        pad := Append(msg);
      }
    }

    /** The message is built in its place and committed. */
    method Append(msg: seq<Byte>) returns (ghost pad: seq<Byte>)
      requires Valid() && done + left + Align(|msg|) <= mem.Length
      modifies this`left, this`committed, mem
      ensures Valid() && |pad| == Align(|msg|) - |msg| && left == old(left) + Align(|msg|)
      ensures committed == old(committed) + msg + pad
    {
      Build(msg);
      ghost var at := done + left;
      pad := mem[at + |msg|..at + Align(|msg|)];
      Cut(mem[..], at, at + |msg|, at + Align(|msg|));
      Regroup(committed, msg, pad);
      Commit(|msg|);
    }

    /** The write half of _Clnt_ConnRW: the socket takes k of the pending bytes. */
    method Drain(k: nat)
      requires Valid() && k <= left
      modifies this`left, this`done, this`written
      ensures Valid()
      ensures committed == old(committed) && left == old(left) - k
      ensures written == old(written) + mem[old(done)..old(done) + k]
      ensures done == if k == 0 || left > 0 then old(done) + k else 0
    {
      if k > 0 {
        TakePending(written, mem[..], done, left, k);
        written := written + mem[done..done + k];
        left := left - k;
        if left > 0 {
          done := done + k;
        } else {
          done := 0;
        }
      }
    }
  }

  /** The first k pending bytes have been written. */
  lemma TakePending(written: seq<Byte>, m: seq<Byte>, done: nat, left: nat, k: nat)
    requires done + left <= |m| && k <= left
    ensures written + m[done..done + left] == written + m[done..done + k] + m[done + k..done + left]
    ensures k == left ==> written + m[done..done + left] == written + m[done..done + k] + m[0..0]
  {
    Cut(m, done, done + k, done + left);
    Regroup(written, m[done..done + k], m[done + k..done + left]);
  }

  lemma MorePending(written: seq<Byte>, m: seq<Byte>, i: nat, j: nat, k: nat)
    requires i <= j <= k <= |m|
    ensures written + m[i..k] == written + m[i..j] + m[j..k]
  {
    Cut(m, i, j, k);
    Regroup(written, m[i..j], m[j..k]);
  }

  lemma Cut(m: seq<Byte>, i: nat, j: nat, k: nat)
    requires i <= j <= k <= |m|
    ensures m[i..k] == m[i..j] + m[j..k]
  {
  }

  lemma Parted(front: seq<Byte>, m: seq<Byte>, pending: seq<Byte>, part: seq<Byte>)
    requires front == pending + part && |front| <= |m| && front == m[..|front|]
    ensures m[0..|pending|] == pending && m[|pending|..|pending| + |part|] == part
  {
    assert m[0..|pending|] == front[..|pending|];
    assert m[|pending|..|pending| + |part|] == front[|pending|..];
  }

  /** Where a message of size bytes goes, and the size of the buffer then. */
  function Spot(done: nat, left: nat, capacity: nat, size: nat): (p: (nat, nat))
    ensures p.0 + size <= p.1
  {
    if done + left + size <= capacity then (done + left, capacity)
    else if left + size <= capacity then (left, capacity)
    else (left, Blocks(left + size))
  }

  /** The reservation has room for the message, but not for its padding. */
  predicate Overruns(done: nat, left: nat, capacity: nat, size: nat) {
    var p := Spot(done, left, capacity, size); p.0 + Align(size) > p.1
  }

  lemma AlignGap(size: nat)
    ensures Align(size) - size == if size % 4 == 0 then 0 else 4 - size % 4
  {
    var q, r := size / 4, size % 4;
    assert size == 4 * q + r;
  }

  /**
   That happens exactly when the size is not a multiple of four and the bytes that stay free
   behind the message, where it fits first, are fewer than its padding.
   */
  lemma OverrunExact(done: nat, left: nat, capacity: nat, size: nat)
    ensures Overruns(done, left, capacity, size) <==>
              size % 4 != 0 &&
              (if done + left + size <= capacity then capacity - done - left - size < 4 - size % 4
               else if left + size <= capacity then capacity - left - size < 4 - size % 4
               else Blocks(left + size) - left - size < 4 - size % 4)
  {
    AlignGap(size);
  }

  /** So never in a buffer whose pending bytes begin and end at multiples of four. */
  lemma AlignedFits(done: nat, left: nat, capacity: nat, size: nat)
    requires done % 4 == 0 && left % 4 == 0 && capacity % O_BLOCK == 0
    ensures !Overruns(done, left, capacity, size)
  {
    var p := Spot(done, left, capacity, size);
    assert p.1 % O_BLOCK == 0;
    Words(p.0, p.1, size);
  }

  /** Align rounds up to the next multiple of four. */
  lemma AlignLeast(size: nat, k: nat)
    requires size <= 4 * k
    ensures Align(size) <= 4 * k
  {
  }

  lemma Words(at: nat, capacity: nat, size: nat)
    requires at % 4 == 0 && capacity % O_BLOCK == 0 && at + size <= capacity
    ensures at + Align(size) <= capacity
  {
    var c := capacity / O_BLOCK;
    assert capacity == 4 * (2048 * c) && at == 4 * (at / 4);
    AlignLeast(size, 2048 * c - at / 4);
  }

  /** An event, error or reply to be sent, or a write that takes at most that many bytes. */
  datatype Op = Post(msg: seq<Byte>, refuse: bool, exhausted: bool) | Write(most: nat)

  /** Sizes of messages are multiples of four, or else the places they begin at are, and all writes. */
  predicate Whole(op: Op, even: bool) {
    match op
    case Post(msg, _, _) => even || |msg| % 4 == 0
    case Write(most) => even ==> most % 4 == 0
  }

  /** The accepted messages in order, each with its padding. */
  ghost function Stream(ops: seq<Op>, taken: seq<bool>, pads: seq<seq<Byte>>): seq<Byte>
    requires |ops| == |taken| == |pads|
  {
    if ops == [] then [] else
      var n := |ops| - 1;
      Stream(ops[..n], taken[..n], pads[..n]) + if ops[n].Post? && taken[n] then ops[n].msg + pads[n] else []
  }

  /** What is known of every operation: padding is short, and only want of memory refuses a message. */
  ghost predicate Outcome(op: Op, taken: bool, pad: seq<Byte>) {
    op.Post? ==> (taken ==> |pad| == Align(|op.msg|) - |op.msg|) && (!taken ==> op.exhausted)
  }

  lemma StreamMore(ops: seq<Op>, n: nat, taken: seq<bool>, pads: seq<seq<Byte>>, t: bool, pad: seq<Byte>)
    requires n < |ops| && |taken| == |pads| == n
    ensures Stream(ops[..n + 1], taken + [t], pads + [pad])
         == Stream(ops[..n], taken, pads) + if ops[n].Post? && t then ops[n].msg + pad else []
  {
    assert ops[..n + 1][..n] == ops[..n] && (taken + [t])[..n] == taken && (pads + [pad])[..n] == pads;
  }

  /** After the first n operations: what was accepted, and that it was committed. */
  ghost predicate Ran(c0: seq<Byte>, c: seq<Byte>, ops: seq<Op>, n: nat, taken: seq<bool>, pads: seq<seq<Byte>>) {
    && n == |taken| == |pads| <= |ops| && c == c0 + Stream(ops[..n], taken, pads)
    && forall i | 0 <= i < n :: Outcome(ops[i], taken[i], pads[i])
  }

  lemma RanMore(c0: seq<Byte>, c: seq<Byte>, c': seq<Byte>, ops: seq<Op>, n: nat, taken: seq<bool>, pads: seq<seq<Byte>>, t: bool, pad: seq<Byte>)
    requires Ran(c0, c, ops, n, taken, pads) && n < |ops| && Outcome(ops[n], t, pad)
    requires c' == if ops[n].Post? && t then c + ops[n].msg + pad else c
    ensures Ran(c0, c', ops, n + 1, taken + [t], pads + [pad])
  {
    StreamMore(ops, n, taken, pads, t, pad);
    if ops[n].Post? && t { JoinFour(c0, Stream(ops[..n], taken, pads), ops[n].msg, pad); }
  }

  lemma JoinFour(a: seq<Byte>, b: seq<Byte>, c: seq<Byte>, d: seq<Byte>)
    ensures a + b + c + d == a + (b + (c + d))
  {
  }

  /** Pending bytes that begin and end at multiples of four. */
  ghost predicate Aligned(b: Buffer)
    reads b
  {
    b.done % 4 == 0 && b.left % 4 == 0
  }

  lemma NoOverrun(done: nat, left: nat, capacity: nat, size: nat)
    requires size % 4 == 0 || (done % 4 == 0 && left % 4 == 0)
    requires capacity % O_BLOCK == 0
    ensures !Overruns(done, left, capacity, size)
  {
    if size % 4 == 0 { OverrunExact(done, left, capacity, size); } else { AlignedFits(done, left, capacity, size); }
  }

  lemma StaysAligned(left: nat, size: nat)
    ensures left % 4 == 0 ==> (left + Align(size)) % 4 == 0
  {
    if left % 4 == 0 { Multiples(left, Align(size), 4); }
  }

  /** Sending one message. */
  method PostOne(b: Buffer, msg: seq<Byte>, refuse: bool, exhausted: bool) returns (taken: bool, ghost pad: seq<Byte>)
    requires b.Valid() && !Overruns(b.done, b.left, b.mem.Length, |msg|)
    modifies b, b.mem
    ensures b.Valid() && (b.mem == old(b.mem) || fresh(b.mem)) && Outcome(Post(msg, refuse, exhausted), taken, pad)
    ensures b.committed == if taken then old(b.committed) + msg + pad else old(b.committed)
    ensures b.done == old(b.done) || b.done == 0
    ensures b.left == old(b.left) || b.left == old(b.left) + Align(|msg|)
  {
    var r;
    r, pad := b.Send(msg, refuse, exhausted);
    taken := r.At?;
  }

  /** One write of the socket. */
  method WriteSome(b: Buffer, most: nat)
    requires b.Valid()
    modifies b, b.mem
    ensures b.Valid() && b.mem == old(b.mem) && b.committed == old(b.committed)
    ensures old(Aligned(b)) && most % 4 == 0 ==> Aligned(b)
  {
    var k := if most < b.left then most else b.left;
    if Aligned(b) && most % 4 == 0 {
      Multiples(b.done, k, 4);
      Multiples(k, b.left, 4);
    }
    b.Drain(k);
  }

  method Step(b: Buffer, op: Op, ghost even: bool) returns (taken: bool, ghost pad: seq<Byte>)
    requires b.Valid() && Whole(op, even) && (even ==> Aligned(b))
    modifies b, b.mem
    ensures b.Valid() && (b.mem == old(b.mem) || fresh(b.mem)) && (even ==> Aligned(b)) && Outcome(op, taken, pad)
    ensures b.committed == if op.Post? && taken then old(b.committed) + op.msg + pad else old(b.committed)
  {
    taken, pad := false, [];
    match op
    case Post(msg, refuse, exhausted) =>
      NoOverrun(b.done, b.left, b.mem.Length, |msg|);
      StaysAligned(b.left, |msg|);
      taken, pad := PostOne(b, msg, refuse, exhausted);
    case Write(most) => WriteSome(b, most);
  }

  /**
   A whole run of sends and partial writes: what was written and what is pending are the
   accepted messages in order. Either all sizes are multiples of four, or all writes are.
   */
  method Play(b: Buffer, ops: seq<Op>, ghost even: bool) returns (ghost taken: seq<bool>, ghost pads: seq<seq<Byte>>)
    requires b.Valid() && (even ==> Aligned(b)) && forall op <- ops :: Whole(op, even)
    modifies b, b.mem
    ensures b.Valid() && |taken| == |pads| == |ops|
    ensures forall i | 0 <= i < |ops| :: Outcome(ops[i], taken[i], pads[i])
    ensures b.written + b.mem[b.done..b.done + b.left]
         == old(b.written + b.mem[b.done..b.done + b.left]) + Stream(ops, taken, pads)
  {
    taken, pads := [], [];
    var n: nat := 0;
    while n < |ops|
      invariant b.Valid() && (b.mem == old(b.mem) || fresh(b.mem)) && (even ==> Aligned(b))
      invariant Ran(old(b.committed), b.committed, ops, n, taken, pads)
    {
      ghost var c := b.committed;
      var t, pad := Step(b, ops[n], even);
      RanMore(old(b.committed), c, b.committed, ops, n, taken, pads, t, pad);
      taken, pads := taken + [t], pads + [pad];
      n := n + 1;
    }
    assert ops[..n] == ops;
  }

  /** After an odd partial write and a compaction a reply of 37 bytes overruns a full block. */
  method OverrunAfterOddWrite() returns (b: Buffer)
    ensures b.Valid() && Overruns(b.done, b.left, b.mem.Length, 37)
  {
    b := new Buffer();
    var r, pad := b.Send(seq(8156, _ => 0), true, false);
    b.Drain(1);
  }
}
