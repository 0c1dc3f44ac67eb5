/**
 The server's side of the stream: one buffer, a count of bytes still missing and a
 function pointer that says what to do when they have arrived. Reads return whatever has
 come in, so a request may arrive in any number of pieces.
 */
module Connection {
  import opened Bytes
  import opened FrameSpec

  /** clnt->Eval. */
  datatype Eval = EvalInit | EvalAuth | EvalSelect | EvalFunction
  datatype Status = Running | Ended(fate: Fate) | Lost

  function ServerHeader(s: seq<Byte>, swap: bool): (r: seq<Byte>)
    requires |s| >= HEADER
    ensures |r| == |s|
  {
    if swap then Swap16(s, 2) else s
  }

  /** The buffer state stands for the unparsed rest of the stream. */
  ghost predicate Holds(eval: Eval, swap: bool, seqNum: nat, left: nat, buf: seq<Byte>, stage: Stage, rest: seq<Byte>) {
    && |buf| == |rest| && |rest| + left <= MAX_BYTES
    && match eval
       case EvalInit =>
         stage == Setup && seqNum == 0 && |rest| + left == PREFIX && buf == rest
       case EvalAuth =>
         && stage == Setup && seqNum == 0 && |rest| >= PREFIX
         && ValidOrder(rest) && swap == Swapped(rest) && Field(rest, 2, swap) == 11
         && |rest| + left == SetupLength(rest)
       case EvalSelect =>
         stage == Requests(swap, seqNum) && |rest| + left == HEADER && buf == rest
       case EvalFunction =>
         && stage.Requests? && stage.swap == swap && seqNum == (stage.seqNum + 1) % 65536
         && |rest| >= HEADER && rest[0] < FIRST_EXTENSION && 1 < Field(rest, 2, swap)
         && |rest| + left == 4 * Field(rest, 2, swap) && buf == ServerHeader(rest, swap)
  }

  /** As long as something is missing, the parser would wait as well. */
  lemma HoldsNeeds(eval: Eval, swap: bool, seqNum: nat, left: nat, buf: seq<Byte>, stage: Stage, rest: seq<Byte>)
    requires Holds(eval, swap, seqNum, left, buf, stage, rest) && left > 0
    ensures Parse(stage, rest) == Waiting([], stage, rest)
  {
  }

  /** Bytes that arrive are appended, in the buffer and in the rest. */
  lemma HoldsMore(eval: Eval, swap: bool, seqNum: nat, left: nat, buf: seq<Byte>, stage: Stage, rest: seq<Byte>, t: seq<Byte>)
    requires Holds(eval, swap, seqNum, left, buf, stage, rest) && |t| <= left
    ensures Holds(eval, swap, seqNum, left - |t|, buf + t, stage, rest + t)
  {
    match eval
    case EvalInit =>
    case EvalSelect =>
    case EvalAuth =>
      FieldStays(rest, t, 2, swap);
      FieldStays(rest, t, 6, swap);
      FieldStays(rest, t, 8, swap);
    case EvalFunction =>
      FieldStays(rest, t, 2, swap);
      HeaderStays(rest, t, swap);
  }

  lemma HeaderStays(s: seq<Byte>, t: seq<Byte>, swap: bool)
    requires |s| >= HEADER
    ensures ServerHeader(s + t, swap) == ServerHeader(s, swap) + t
  {
  }

  /** What the parser says about a complete header, and the state in which the body is awaited. */
  ghost predicate Decided(swap: bool, next: nat, buf: seq<Byte>, stage: Stage, r: seq<Byte>) {
    && |r| == HEADER
    && var length := Field(r, 2, swap);
       if r[0] >= FIRST_EXTENSION then Head(stage, r) == Fail(Exited)
       else if length > MAX_LENGTH || length == 0 then Head(stage, r) == Fail(Aborted)
       else if length == 1 then Head(stage, r) == Take(|r|, [Frame(buf, next)], Requests(swap, next))
       else Holds(EvalFunction, swap, next, (length - 1) * 4, buf, stage, r)
  }

  lemma HeaderDecides(swap: bool, seqNum: nat, buf: seq<Byte>, stage: Stage, r: seq<Byte>)
    requires Holds(EvalSelect, swap, seqNum, 0, buf, stage, r)
    ensures buf == r && Decided(swap, (seqNum + 1) % 65536, ServerHeader(r, swap), stage, r)
  {
    assert r[..HEADER] == r;
  }

  /** The bytes that have arrived at the socket and were not read yet. */
  class Socket {
    var queue: seq<Byte>

    constructor ()
      ensures queue == []
    {
      queue := [];
    }

    method Arrive(bytes: seq<Byte>)
      modifies this
      ensures queue == old(queue) + bytes
    {
      queue := queue + bytes;
    }

    /** Finstat and Fread: any number of the waiting bytes, up to n, may be delivered, but not none of them. */
    method Fread(n: nat, mem: array<Byte>, at: nat) returns (k: nat, ghost chunk: seq<Byte>)
      requires at + n <= mem.Length
      modifies this, mem
      ensures k <= n && |chunk| == k && old(queue) == chunk + queue
      ensures k == 0 ==> n == 0 || queue == []
      ensures mem[..at] == old(mem[..at]) && mem[at..at + k] == chunk
    {
      var most := if n < |queue| then n else |queue|;
      k :| 0 <= k <= most && (k == 0 ==> most == 0);
      chunk := queue[..k];
      forall i | at <= i < at + k {
        mem[i] := queue[i - at];
      }
      queue := queue[k..];
    }
  }

  /** The stream so far, the frames delivered and the unparsed rest add up. */
  ghost predicate Explains(consumed: seq<Byte>, log: seq<Frame>, stage: Stage, rest: seq<Byte>) {
    Parse(Setup, consumed) == Parse(stage, rest).After(log)
  }

  lemma ExplainsMore(consumed: seq<Byte>, log: seq<Frame>, stage: Stage, rest: seq<Byte>, t: seq<Byte>)
    requires Explains(consumed, log, stage, rest) && Parse(stage, rest) == Waiting([], stage, rest)
    ensures Explains(consumed + t, log, stage, rest + t)
  {
    assert log + [] == log;
    ParseAppend(Setup, consumed, t);
  }

  /** Both together, for bytes that are still missing. */
  lemma MoreBytes(eval: Eval, swap: bool, seqNum: nat, left: nat, buf: seq<Byte>, stage: Stage, rest: seq<Byte>, t: seq<Byte>,
                  consumed: seq<Byte>, log: seq<Frame>)
    requires Holds(eval, swap, seqNum, left, buf, stage, rest) && 0 < left && |t| <= left
    requires Explains(consumed, log, stage, rest)
    ensures Holds(eval, swap, seqNum, left - |t|, buf + t, stage, rest + t)
    ensures Explains(consumed + t, log, stage, rest + t)
  {
    HoldsNeeds(eval, swap, seqNum, left, buf, stage, rest);
    HoldsMore(eval, swap, seqNum, left, buf, stage, rest, t);
    ExplainsMore(consumed, log, stage, rest, t);
  }

  /** A complete head is taken off the rest and added to the log. */
  lemma ExplainsTake(consumed: seq<Byte>, log: seq<Frame>, stage: Stage, rest: seq<Byte>, fs: seq<Frame>, next: Stage)
    requires Explains(consumed, log, stage, rest) && Head(stage, rest) == Take(|rest|, fs, next)
    ensures Explains(consumed, log + fs, next, [])
  {
    assert rest[|rest|..] == [];
    AfterTwice(Parse(next, []), fs, log);
  }

  lemma ExplainsFail(consumed: seq<Byte>, log: seq<Frame>, stage: Stage, rest: seq<Byte>, fate: Fate)
    requires Explains(consumed, log, stage, rest) && Head(stage, rest) == Fail(fate)
    ensures Parse(Setup, consumed) == Over(log, fate)
  {
    assert log + [] == log;
  }

  class Client {
    const mem: array<Byte>
    var left: nat
    var done: nat
    var eval: Eval
    var swap: bool
    var seqNum: nat
    var status: Status
    /** The requests handed to their functions, oldest first. */
    var log: seq<Frame>
    ghost var consumed: seq<Byte>
    ghost var stage: Stage
    ghost var rest: seq<Byte>

    ghost predicate Sound()
      reads this, mem
    {
      && mem.Length == MAX_BYTES && done <= MAX_BYTES
      && Holds(eval, swap, seqNum, left, mem[..done], stage, rest)
      && Explains(consumed, log, stage, rest)
    }

    /** Between two reads: either waiting for more bytes, or finished as the parser says. */
    ghost predicate Valid()
      reads this, mem
    {
      match status
      case Running => Sound() && left > 0
      case Ended(fate) => Parse(Setup, consumed) == Over(log, fate)
      case Lost => Parse(Setup, consumed).frames == log
    }

    constructor ()
      ensures Valid() && consumed == [] && log == [] && status == Running && fresh(mem)
    {
      mem := new Byte[MAX_BYTES];
      left, done, eval, swap, seqNum, status, log := PREFIX, 0, EvalInit, false, 0, Running, [];
      consumed, stage, rest := [], Setup, [];
      new;
      assert mem[..0] == [];
      AfterNothing(Parse(Setup, []));
    }

    /** What every read and every evaluation leaves to the parser: the delivered frames. */
    lemma Delivered()
      requires Valid()
      ensures log == Parse(Setup, consumed).frames
      ensures status == Running ==> Parse(Setup, consumed) == Waiting(log, stage, rest) && done + left <= mem.Length
      ensures status.Ended? ==> Parse(Setup, consumed) == Over(log, status.fate)
    {
      if status == Running {
        HoldsNeeds(eval, swap, seqNum, left, mem[..done], stage, rest);
      }
    }

    /** Fread into the buffer behind what is already there. */
    method Receive(sock: Socket) returns (ghost chunk: seq<Byte>)
      requires done + left <= mem.Length
      modifies this`left, this`done, mem, sock
      ensures |chunk| <= old(left) && left == old(left) - |chunk| && done == old(done) + |chunk| <= mem.Length
      ensures mem[..done] == old(mem[..done]) + chunk
      ensures old(sock.queue) == chunk + sock.queue
      ensures |chunk| > 0 || old(left) == 0 || |sock.queue| == 0
    {
      var k;
      k, chunk := sock.Fread(left, mem, done);
      assert mem[..done + k] == mem[..done] + mem[done..done + k];
      done, left := done + k, left - k;
    }

    /** The same, with the parser looking on. */
    method Fill(sock: Socket)
      requires Sound() && left > 0
      modifies this`left, this`done, this`consumed, this`rest, mem, sock
      ensures Sound()
      ensures consumed + sock.queue == old(consumed + sock.queue)
      ensures |sock.queue| <= old(|sock.queue|)
      ensures |sock.queue| < old(|sock.queue|) || |sock.queue| == 0
    {
      ghost var buf, n := mem[..done], left;
      var chunk := Receive(sock);
      MoreBytes(eval, swap, seqNum, n, buf, stage, rest, chunk, consumed, log);
      Regroup(consumed, chunk, sock.queue);
      consumed, rest := consumed + chunk, rest + chunk;
    }

    /** The reset after a request: wait for the next header at the start of the buffer. */
    method NextHeader()
      requires mem.Length == MAX_BYTES && Explains(consumed, log, Requests(swap, seqNum), [])
      modifies this`left, this`done, this`eval, this`stage, this`rest
      ensures Sound() && left > 0
    {
      eval := EvalSelect;
      left, done := HEADER, 0;
      stage, rest := Requests(swap, seqNum), [];
      assert mem[..0] == [];
    }

    /** _Clnt_EvalFunction: the whole request is there; call its function. */
    method Dispatch()
      requires Sound() && eval == EvalFunction && left == 0
      modifies this`left, this`done, this`eval, this`stage, this`rest, this`log
      ensures Sound() && left > 0
    {
      assert rest[..|rest|] == rest;
      ExplainsTake(consumed, log, stage, rest, [Frame(mem[..done], seqNum)], Requests(swap, seqNum));
      log := log + [Frame(mem[..done], seqNum)];
      NextHeader();
    }

    /** The header's length field is put into server order in the buffer. */
    method ServerOrder()
      requires mem.Length == MAX_BYTES && done == HEADER
      modifies mem
      ensures mem[..4] == ServerHeader(old(mem[..4]), swap)
      ensures Card16(mem[2], mem[3]) == Field(old(mem[..4]), 2, swap) && mem[0] == old(mem[0])
    {
      if swap {
        mem[2], mem[3] := mem[3], mem[2];
      }
    }

    /** A request that is only a header is called at once. */
    method CallAtOnce(ghost r: seq<Byte>)
      requires mem.Length == MAX_BYTES && Explains(consumed, log, stage, r)
      requires Head(stage, r) == Take(|r|, [Frame(mem[..4], seqNum)], Requests(swap, seqNum))
      modifies this`left, this`done, this`eval, this`stage, this`rest, this`log
      ensures Sound() && left > 0
    {
      ExplainsTake(consumed, log, stage, r, [Frame(mem[..4], seqNum)], Requests(swap, seqNum));
      log := log + [Frame(mem[..4], seqNum)];
      NextHeader();
    }

    /** Clnt_EvalSelect: the header is there; check it and see how much is to follow. */
    method Select(sock: Socket)
      requires Sound() && eval == EvalSelect && left == 0 && status == Running
      modifies this, mem, sock
      ensures Valid() && status != Lost
      ensures consumed + sock.queue == old(consumed + sock.queue) && |sock.queue| <= old(|sock.queue|)
    {
      var length := ReadHeader();
      if mem[0] >= FIRST_EXTENSION {
        Refuse(Exited);
      } else if length > MAX_LENGTH || length == 0 {
        Refuse(Aborted);
      } else if length == 1 {
        CallAtOnce(rest);
      } else {
        left := (length - 1) * 4;
        eval := EvalFunction;
        ReadBody(sock);
      }
    }

    /** The header in server order, and the next sequence number. */
    method ReadHeader() returns (length: nat)
      requires Sound() && eval == EvalSelect && left == 0
      modifies this`seqNum, mem
      ensures mem.Length == MAX_BYTES && done == HEADER && Explains(consumed, log, stage, rest)
      ensures mem[0] == rest[0] && length == Field(rest, 2, swap) && mem[..done] == ServerHeader(rest, swap)
      ensures Decided(swap, seqNum, mem[..done], stage, rest)
    {
      HeaderDecides(swap, seqNum, mem[..done], stage, rest);
      ServerOrder();
      seqNum := (seqNum + 1) % 65536;
      length := Card16(mem[2], mem[3]);
    }

    /** ClntAbort and exit. */
    method Refuse(fate: Fate)
      requires Explains(consumed, log, stage, rest) && Head(stage, rest) == Fail(fate)
      modifies this`status
      ensures status == Ended(fate) && Valid()
    {
      ExplainsFail(consumed, log, stage, rest, fate);
      status := Ended(fate);
    }

    /** The read inside _Clnt__EvalSelect: what is there of the body is taken at once. */
    method ReadBody(sock: Socket)
      requires Sound() && eval == EvalFunction && left > 0 && status == Running
      modifies this, mem, sock
      ensures Valid() && status != Lost
      ensures consumed + sock.queue == old(consumed + sock.queue) && |sock.queue| <= old(|sock.queue|)
    {
      Fill(sock);
      if left == 0 {
        Dispatch();
      }
    }

    /** _Clnt_EvalAuth: the connection setup is complete. */
    method Auth()
      requires Sound() && eval == EvalAuth && left == 0
      modifies this`left, this`done, this`eval, this`stage, this`rest
      ensures Sound() && left > 0
    {
      assert log + [] == log;
      ExplainsTake(consumed, log, stage, rest, [], Requests(swap, seqNum));
      NextHeader();
    }

    /** The byte order is known: puts the fields of the prefix into server order. */
    method PrefixOrder()
      requires mem.Length == MAX_BYTES
      modifies mem
      ensures Card16(mem[2], mem[3]) == Field(old(mem[..PREFIX]), 2, swap)
      ensures Card16(mem[6], mem[7]) == Field(old(mem[..PREFIX]), 6, swap)
      ensures Card16(mem[8], mem[9]) == Field(old(mem[..PREFIX]), 8, swap)
    {
      if swap {
        mem[2], mem[3] := mem[3], mem[2];
        mem[4], mem[5] := mem[5], mem[4];
        mem[6], mem[7] := mem[7], mem[6];
        mem[8], mem[9] := mem[9], mem[8];
      }
    }

    /** _Clnt_EvalInit: the fixed part of the connection setup is there. */
    method Init()
      requires Sound() && eval == EvalInit && left == 0 && status == Running
      modifies this, mem
      ensures Valid() && status != Lost
      ensures consumed == old(consumed)
    {
      ghost var r := rest;
      assert mem[..PREFIX] == r;
      if mem[0] != 0x42 && mem[0] != 0x6C {
        ExplainsFail(consumed, log, stage, r, Aborted);
        status := Ended(Aborted);
        return;
      }
      swap := mem[0] == 0x6C;
      PrefixOrder();
      if Card16(mem[2], mem[3]) != 11 {
        ExplainsFail(consumed, log, stage, r, Aborted);
        status := Ended(Aborted);
        return;
      }
      left := Align(Card16(mem[6], mem[7])) + Align(Card16(mem[8], mem[9]));
      eval := EvalAuth;
      if left == 0 {
        Auth();
      }
    }

    /** The read half of _Clnt_ConnRW. */
    method Read(sock: Socket, hangup: bool)
      requires Valid() && status == Running
      modifies this, mem, sock
      ensures Valid()
      ensures consumed + sock.queue == old(consumed + sock.queue)
      ensures status == Lost <==> hangup
      ensures hangup || |sock.queue| == 0 || |sock.queue| < old(|sock.queue|)
    {
      if hangup {
        Delivered();
        status := Lost;
        return;
      }
      Fill(sock);
      if left == 0 {
        match eval
        case EvalInit => Init();
        case EvalAuth => Auth();
        case EvalSelect => Select(sock);
        case EvalFunction => Dispatch();
      }
    }
  }

  /** A parser that ended, or that has seen everything, has delivered all there is. */
  lemma NothingElse(consumed: seq<Byte>, queue: seq<Byte>)
    requires Parse(Setup, consumed).Over? || queue == []
    ensures Parse(Setup, consumed + queue).frames == Parse(Setup, consumed).frames
  {
    if queue == [] {
      assert consumed + queue == consumed;
    } else {
      ParseAppend(Setup, consumed, queue);
    }
  }

  /** Whatever the pieces are in which a stream is read, in the end the parser's requests were dispatched. */
  method Serve(client: Client, sock: Socket)
    requires client.Valid() && client.status != Lost
    modifies client, client.mem, sock
    ensures client.Valid() && client.log == Parse(Setup, old(client.consumed + sock.queue)).frames
    ensures client.status == Running ==> sock.queue == []
  {
    ghost var stream := client.consumed + sock.queue;
    while client.status == Running && sock.queue != []
      invariant client.Valid() && client.status != Lost
      invariant client.consumed + sock.queue == stream
      decreases |sock.queue|
    {
      client.Read(sock, false);
    }
    client.Delivered();
    NothingElse(client.consumed, sock.queue);
  }

  lemma {:induction false} FlatMore(ps: seq<seq<Byte>>, p: seq<Byte>)
    ensures Flat(ps + [p]) == Flat(ps) + p
  {
    if ps == [] {
      assert [p][1..] == [];
    } else {
      assert (ps + [p])[1..] == ps[1..] + [p];
      FlatMore(ps[1..], p);
    }
  }

  /** The same when the bytes arrive while the client is read: after every piece there is a read. */
  method Session(client: Client, sock: Socket, pieces: seq<seq<Byte>>)
    requires client.Valid() && client.status != Lost
    modifies client, client.mem, sock
    ensures client.Valid() && client.log == Parse(Setup, old(client.consumed + sock.queue) + Flat(pieces)).frames
  {
    ghost var start := client.consumed + sock.queue;
    var i: nat := 0;
    while i < |pieces|
      invariant i <= |pieces| && client.Valid() && client.status != Lost
      invariant client.consumed + sock.queue == start + Flat(pieces[..i])
    {
      FlatMore(pieces[..i], pieces[i]);
      assert pieces[..i] + [pieces[i]] == pieces[..i + 1];
      Regroup(client.consumed, sock.queue, pieces[i]);
      Regroup(start, Flat(pieces[..i]), pieces[i]);
      sock.Arrive(pieces[i]);
      if client.status == Running {
        client.Read(sock, false);
      }
      i := i + 1;
    }
    assert pieces[..i] == pieces;
    Serve(client, sock);
  }

  /**
   Request framing does not depend on fragmentation: two connections that took the same bytes
   off their sockets, in whatever pieces, delivered the same requests with the same numbers.
   */
  lemma FragmentationIndependent(a: Client, b: Client)
    requires a.Valid() && b.Valid() && a.consumed == b.consumed
    ensures a.log == b.log
    ensures a.status == Running && b.status == Running ==> a.rest == b.rest && a.stage == b.stage
  {
    a.Delivered();
    b.Delivered();
  }
}
