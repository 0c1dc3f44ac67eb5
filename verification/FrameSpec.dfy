/**
 The client's byte stream as the protocol defines it: a connection setup followed by
 requests, each in the byte order the client announced. The parser here sees the whole
 stream at once and knows nothing of reads or buffers.
 */
module FrameSpec {
  import opened Bytes

  const PREFIX := 12
  const HEADER := 4
  const MAX_LENGTH := 65535
  const MAX_BYTES := 262140
  const FIRST_EXTENSION := 128

  datatype Fate = Aborted | Exited
  datatype Stage = Setup | Requests(swap: bool, seqNum: nat)
  /** A request as its handler sees it: the length field in server order. */
  datatype Frame = Frame(bytes: seq<Byte>, seqNum: nat)

  function Card16(hi: Byte, lo: Byte): (n: nat)
    ensures n < 65536
  {
    256 * hi + lo
  }

  /** The 16-bit field at offset i, as a client of the given byte order wrote it. */
  function Field(s: seq<Byte>, i: nat, swap: bool): (n: nat)
    requires i + 1 < |s|
    ensures n < 65536
  {
    if swap then Card16(s[i + 1], s[i]) else Card16(s[i], s[i + 1])
  }

  function Align(n: nat): (r: nat)
    ensures n <= r < n + 4 && r % 4 == 0
  {
    (n + 3) / 4 * 4
  }

  /** Exchanges the two bytes of the 16-bit field at offset i. */
  function Swap16(s: seq<Byte>, i: nat): (r: seq<Byte>)
    requires i + 1 < |s|
    ensures |r| == |s|
  {
    s[i := s[i + 1]][i + 1 := s[i]]
  }

  predicate ValidOrder(s: seq<Byte>)
    requires |s| >= PREFIX
  {
    s[0] == 0x42 || s[0] == 0x6C
  }

  predicate Swapped(s: seq<Byte>)
    requires |s| >= PREFIX
  {
    s[0] == 0x6C
  }

  /** Length of the whole connection setup with its two authorization strings. */
  function SetupLength(s: seq<Byte>): (n: nat)
    requires |s| >= PREFIX
    ensures PREFIX <= n <= MAX_BYTES
  {
    PREFIX + Align(Field(s, 6, Swapped(s))) + Align(Field(s, 8, Swapped(s)))
  }

  datatype Next = Need | Fail(fate: Fate) | Take(n: nat, frames: seq<Frame>, stage: Stage)

  /** What the head of the stream amounts to in the given stage. */
  function Head(stage: Stage, s: seq<Byte>): (r: Next)
    ensures r.Take? ==> 0 < r.n <= |s|
  {
    match stage
    case Setup =>
      if |s| < PREFIX then Need
      else if !ValidOrder(s) || Field(s, 2, Swapped(s)) != 11 then Fail(Aborted)
      else if |s| < SetupLength(s) then Need
      else Take(SetupLength(s), [], Requests(Swapped(s), 0))
    case Requests(swap, seqNum) =>
      if |s| < HEADER then Need
      else if s[0] >= FIRST_EXTENSION then Fail(Exited)
      else
        var length := Field(s, 2, swap);
        if length == 0 || length > MAX_LENGTH then Fail(Aborted)
        else if |s| < 4 * length then Need
        else
          var next := (seqNum + 1) % 65536;
          var q := s[..4 * length];
          Take(4 * length, [Frame(if swap then Swap16(q, 2) else q, next)], Requests(swap, next))
  }

  datatype Outcome =
    | Waiting(frames: seq<Frame>, stage: Stage, rest: seq<Byte>)
    | Over(frames: seq<Frame>, fate: Fate)
  {
    function After(fs: seq<Frame>): Outcome {
      match this
      case Waiting(frames, stage, rest) => Waiting(fs + frames, stage, rest)
      case Over(frames, fate) => Over(fs + frames, fate)
    }
  }

  /** The whole stream, parsed in one go. */
  function Parse(stage: Stage, s: seq<Byte>): Outcome
    decreases |s|
  {
    match Head(stage, s)
    case Need => Waiting([], stage, s)
    case Fail(fate) => Over([], fate)
    case Take(n, frames, next) => Parse(next, s[n..]).After(frames)
  }

  /** Once the head is decided, more bytes do not change it. */
  lemma HeadStable(stage: Stage, s: seq<Byte>, t: seq<Byte>)
    requires !Head(stage, s).Need?
    ensures Head(stage, s + t) == Head(stage, s)
  {
    match stage
    case Setup =>
      FieldStays(s, t, 2, Swapped(s));
      FieldStays(s, t, 6, Swapped(s));
      FieldStays(s, t, 8, Swapped(s));
    case Requests(swap, seqNum) =>
      FieldStays(s, t, 2, swap);
      if Head(stage, s).Take? { PrefixStays(s, t, 4 * Field(s, 2, swap)); }
  }

  lemma FieldStays(s: seq<Byte>, t: seq<Byte>, i: nat, swap: bool)
    requires i + 1 < |s|
    ensures (s + t)[0] == s[0] && Field(s + t, i, swap) == Field(s, i, swap)
  {
  }

  lemma PrefixStays(s: seq<Byte>, t: seq<Byte>, n: nat)
    requires n <= |s|
    ensures (s + t)[..n] == s[..n]
  {
  }

  /** Parsing may stop anywhere and go on with the unparsed rest. */
  lemma {:induction false} ParseAppend(stage: Stage, s: seq<Byte>, t: seq<Byte>)
    ensures match Parse(stage, s)
            case Waiting(frames, next, rest) => Parse(stage, s + t) == Parse(next, rest + t).After(frames)
            case Over(frames, fate) => Parse(stage, s + t) == Over(frames, fate)
    decreases |s|
  {
    match Head(stage, s)
    case Need =>
      AfterNothing(Parse(stage, s + t));
    case Fail(fate) =>
      HeadStable(stage, s, t);
    case Take(n, frames, next) =>
      HeadStable(stage, s, t);
      assert (s + t)[n..] == s[n..] + t;
      ParseAppend(next, s[n..], t);
      match Parse(next, s[n..])
      case Waiting(fs, st, rest) => AfterTwice(Parse(st, rest + t), fs, frames);
      case Over(fs, f) =>
  }

  lemma AfterNothing(o: Outcome)
    ensures o.After([]) == o
  {
    assert [] + o.frames == o.frames;
  }

  lemma AfterTwice(o: Outcome, fs: seq<Frame>, gs: seq<Frame>)
    ensures o.After(fs).After(gs) == o.After(gs + fs)
  {
    assert gs + (fs + o.frames) == gs + fs + o.frames;
  }

  predicate ValidRequest(swap: bool, q: seq<Byte>) {
    |q| >= HEADER && q[0] < FIRST_EXTENSION && |q| == 4 * Field(q, 2, swap)
  }

  function Flat(qs: seq<seq<Byte>>): seq<Byte> {
    if qs == [] then [] else qs[0] + Flat(qs[1..])
  }

  ghost predicate HaveHeaders(qs: seq<seq<Byte>>) {
    forall q <- qs :: |q| >= HEADER
  }

  /** The frames a client's requests should arrive as, numbered after seqNum. */
  ghost function Numbered(swap: bool, seqNum: nat, qs: seq<seq<Byte>>): (fs: seq<Frame>)
    requires HaveHeaders(qs)
    ensures |fs| == |qs|
    decreases |qs|
  {
    if qs == [] then [] else
      assert |qs[0]| >= HEADER;
      var next := (seqNum + 1) % 65536;
      [Frame(if swap then Swap16(qs[0], 2) else qs[0], next)] + Numbered(swap, next, qs[1..])
  }

  lemma ModStep(a: nat, n: nat)
    requires a < 65536
    ensures ((a + 1) % 65536 + n) % 65536 == (a + (n + 1)) % 65536
  {
    if a == 65535 { assert (a + (n + 1)) % 65536 == (65536 + n) % 65536 == n % 65536; }
  }

  lemma OneRequest(swap: bool, seqNum: nat, q: seq<Byte>, t: seq<Byte>)
    requires ValidRequest(swap, q)
    ensures var next := (seqNum + 1) % 65536;
            Head(Requests(swap, seqNum), q + t)
            == Take(|q|, [Frame(if swap then Swap16(q, 2) else q, next)], Requests(swap, next))
  {
    assert q[..|q|] == q;
    HeadStable(Requests(swap, seqNum), q, t);
  }

  lemma ParseOne(swap: bool, seqNum: nat, q: seq<Byte>, t: seq<Byte>)
    requires ValidRequest(swap, q)
    ensures var next := (seqNum + 1) % 65536;
            Parse(Requests(swap, seqNum), q + t)
            == Parse(Requests(swap, next), t).After([Frame(if swap then Swap16(q, 2) else q, next)])
  {
    OneRequest(swap, seqNum, q, t);
    DropFirst(q, t);
  }

  /** Any one of these frames. */
  lemma {:induction false} NumberedAt(swap: bool, seqNum: nat, qs: seq<seq<Byte>>, i: nat)
    requires HaveHeaders(qs) && i < |qs| && seqNum < 65536
    ensures Numbered(swap, seqNum, qs)[i] == Frame(if swap then Swap16(qs[i], 2) else qs[i], (seqNum + 1 + i) % 65536)
    decreases |qs|
  {
    if i > 0 {
      ModStep(seqNum, i);
      NumberedAt(swap, (seqNum + 1) % 65536, qs[1..], i - 1);
    }
  }

  /** Frames put before an outcome that waits. */
  lemma AfterWaiting(frames: seq<Frame>, more: seq<Frame>, stage: Stage)
    ensures Waiting(more, stage, []).After(frames) == Waiting(frames + more, stage, [])
  {
  }

  ghost predicate AllValid(swap: bool, qs: seq<seq<Byte>>)
    ensures AllValid(swap, qs) ==> HaveHeaders(qs)
  {
    forall q <- qs :: ValidRequest(swap, q)
  }

  lemma TailValid(swap: bool, qs: seq<seq<Byte>>)
    requires AllValid(swap, qs) && qs != []
    ensures ValidRequest(swap, qs[0]) && AllValid(swap, qs[1..])
  {
  }

  lemma SendStep(swap: bool, seqNum: nat, q: seq<Byte>, t: seq<Byte>, frames: seq<Frame>, stage: Stage)
    requires ValidRequest(swap, q) && Parse(Requests(swap, (seqNum + 1) % 65536), t) == Waiting(frames, stage, [])
    ensures Parse(Requests(swap, seqNum), q + t)
         == Waiting([Frame(if swap then Swap16(q, 2) else q, (seqNum + 1) % 65536)] + frames, stage, [])
  {
    ParseOne(swap, seqNum, q, t);
    AfterWaiting([Frame(if swap then Swap16(q, 2) else q, (seqNum + 1) % 65536)], frames, stage);
  }

  lemma {:induction false} SendParseTo(swap: bool, seqNum: nat, qs: seq<seq<Byte>>, last: nat)
    requires AllValid(swap, qs) && seqNum < 65536 && last == (seqNum + |qs|) % 65536
    ensures Parse(Requests(swap, seqNum), Flat(qs)) == Waiting(Numbered(swap, seqNum, qs), Requests(swap, last), [])
    decreases |qs|
  {
    if qs != [] {
      var q, next := qs[0], (seqNum + 1) % 65536;
      TailValid(swap, qs);
      ModStep(seqNum, |qs| - 1);
      SendParseTo(swap, next, qs[1..], last);
      SendStep(swap, seqNum, q, Flat(qs[1..]), Numbered(swap, next, qs[1..]), Requests(swap, last));
    }
  }

  /** The parser is the inverse of sending: every list of requests comes back as it was sent. */
  lemma SendParse(swap: bool, seqNum: nat, qs: seq<seq<Byte>>)
    requires AllValid(swap, qs) && seqNum < 65536
    ensures Parse(Requests(swap, seqNum), Flat(qs))
         == Waiting(Numbered(swap, seqNum, qs), Requests(swap, (seqNum + |qs|) % 65536), [])
  {
    SendParseTo(swap, seqNum, qs, (seqNum + |qs|) % 65536);
  }

  lemma DropFirst(q: seq<Byte>, t: seq<Byte>)
    ensures (q + t)[|q|..] == t
  {
  }
}
