/**
 The stream as a client writes it, byte by byte: the connection setup of section 8 of the X
 Window System Protocol with its two authorization strings, and requests with their length
 fields. Nothing here depends on how the server reads it.
 */
module ClientStream {
  import opened Bytes
  import opened FrameSpec
  import opened Connection

  /** A 16-bit number, least significant byte first or last. */
  function Put16(lsb: bool, n: nat): (r: seq<Byte>)
    requires n < 65536
    ensures |r| == 2
  {
    if lsb then [n % 256, n / 256] else [n / 256, n % 256]
  }

  /** What a client says first. */
  datatype Hello = Hello(lsb: bool, unused: Byte, minor: nat, spare: seq<Byte>,
                         proto: seq<Byte>, pad: seq<Byte>, auth: seq<Byte>, pad': seq<Byte>)
  {
    predicate Valid() {
      && minor < 65536 && |spare| == 2 && |proto| < 65536 && |auth| < 65536
      && |pad| < 4 && (|proto| + |pad|) % 4 == 0
      && |pad'| < 4 && (|auth| + |pad'|) % 4 == 0
    }

    function Prefix(): (r: seq<Byte>)
      requires Valid()
      ensures |r| == 12
    {
      [if lsb then 0x6C else 0x42, unused] + Put16(lsb, 11) + Put16(lsb, minor)
      + Put16(lsb, |proto|) + Put16(lsb, |auth|) + spare
    }

    function Strings(): (r: seq<Byte>)
    {
      proto + pad + auth + pad'
    }
  }

  /** A request: its opcode, the byte behind it and the rest. */
  datatype Request = Request(opcode: Byte, data: Byte, body: seq<Byte>) {
    predicate Valid() { opcode < 128 && |body| % 4 == 0 && |body| / 4 < 65535 }

    /** As a client of that byte order writes it: the third and fourth byte are the length in words. */
    function Bytes(lsb: bool): (r: seq<Byte>)
      requires Valid()
      ensures |r| == 4 + |body|
    {
      [opcode, data] + Put16(lsb, 1 + |body| / 4) + body
    }
  }

  ghost predicate Sendable(rs: seq<Request>) {
    forall i | 0 <= i < |rs| :: rs[i].Valid()
  }

  /** The requests as the client writes them, and what is on the wire. */
  function Encoded(lsb: bool, rs: seq<Request>): (qs: seq<seq<Byte>>)
    requires Sendable(rs)
    ensures |qs| == |rs| && forall i | 0 <= i < |rs| :: qs[i] == rs[i].Bytes(lsb)
  {
    seq(|rs|, i requires 0 <= i < |rs| => rs[i].Bytes(lsb))
  }

  function Stream(lsb: bool, rs: seq<Request>): seq<Byte>
    requires Sendable(rs)
  {
    Flat(Encoded(lsb, rs))
  }

  /**
   Every request has reached its function, in order and numbered from 1, with its length
   in the server's byte order, the most significant byte first, and all else as sent.
   */
  ghost predicate Arrived(rs: seq<Request>, frames: seq<Frame>)
    requires Sendable(rs)
  {
    && |frames| == |rs|
    && forall i | 0 <= i < |rs| :: frames[i] == Frame(rs[i].Bytes(false), (1 + i) % 65536)
  }

  lemma PutField(lsb: bool, n: nat, s: seq<Byte>, i: nat)
    requires n < 65536 && i + 2 <= |s| && s[i..i + 2] == Put16(lsb, n)
    ensures Field(s, i, lsb) == n
  {
    assert s[i] == s[i..i + 2][0] && s[i + 1] == s[i..i + 2][1];
  }

  /** What was written in either byte order is a valid request there, and one frame. */
  lemma OneArrives(lsb: bool, r: Request, q: seq<Byte>)
    requires r.Valid() && q == r.Bytes(lsb)
    ensures ValidRequest(lsb, q)
    ensures (if lsb then Swap16(q, 2) else q) == r.Bytes(false)
  {
    assert q[2..4] == Put16(lsb, 1 + |r.body| / 4);
    PutField(lsb, 1 + |r.body| / 4, q, 2);
  }

  lemma EncodedValid(lsb: bool, rs: seq<Request>)
    requires Sendable(rs)
    ensures AllValid(lsb, Encoded(lsb, rs))
  {
    var qs := Encoded(lsb, rs);
    forall i | 0 <= i < |rs| ensures ValidRequest(lsb, qs[i]) { OneArrives(lsb, rs[i], qs[i]); }
  }

  lemma FrameAt(lsb: bool, qs: seq<seq<Byte>>, i: nat, b: seq<Byte>)
    requires HaveHeaders(qs) && i < |qs| && b == if lsb then Swap16(qs[i], 2) else qs[i]
    ensures Numbered(lsb, 0, qs)[i] == Frame(b, (1 + i) % 65536)
  {
    NumberedAt(lsb, 0, qs, i);
  }

  lemma NumberedArrive(lsb: bool, rs: seq<Request>)
    requires Sendable(rs) && HaveHeaders(Encoded(lsb, rs))
    ensures Arrived(rs, Numbered(lsb, 0, Encoded(lsb, rs)))
  {
    var qs := Encoded(lsb, rs);
    forall i | 0 <= i < |rs| ensures Numbered(lsb, 0, qs)[i] == Frame(rs[i].Bytes(false), (1 + i) % 65536) {
      OneArrives(lsb, rs[i], qs[i]);
      FrameAt(lsb, qs, i, rs[i].Bytes(false));
    }
  }

  /** The requests come back, whatever the byte order. */
  lemma RequestsParse(lsb: bool, rs: seq<Request>)
    requires Sendable(rs)
    ensures AllValid(lsb, Encoded(lsb, rs)) && Arrived(rs, Numbered(lsb, 0, Encoded(lsb, rs)))
    ensures Parse(Requests(lsb, 0), Stream(lsb, rs))
         == Waiting(Numbered(lsb, 0, Encoded(lsb, rs)), Requests(lsb, |rs| % 65536), [])
  {
    EncodedValid(lsb, rs);
    SendParseTo(lsb, 0, Encoded(lsb, rs), |rs| % 65536);
    NumberedArrive(lsb, rs);
  }

  /** A length and its padding. */
  lemma PadIsAlign(n: nat, k: nat)
    requires k < 4 && (n + k) % 4 == 0
    ensures Align(n) == n + k
  {
  }

  /** The prefix announces exactly the strings that follow, and the byte order. */
  lemma PrefixRead(h: Hello, t: seq<Byte>)
    requires h.Valid()
    ensures var s := h.Prefix() + t;
            && ValidOrder(s) && Swapped(s) == h.lsb && Field(s, 2, h.lsb) == 11
            && SetupLength(s) == 12 + |h.Strings()|
  {
    var s := h.Prefix() + t;
    PutField(h.lsb, 11, s, 2);
    PutField(h.lsb, |h.proto|, s, 6);
    PutField(h.lsb, |h.auth|, s, 8);
    PadIsAlign(|h.proto|, |h.pad|);
    PadIsAlign(|h.auth|, |h.pad'|);
  }

  /** The setup is taken whole, with nothing of what follows. */
  lemma SetupTaken(h: Hello, t: seq<Byte>)
    requires h.Valid()
    ensures Parse(Setup, h.Prefix() + h.Strings() + t) == Parse(Requests(h.lsb, 0), t)
  {
    var u := h.Prefix() + h.Strings();
    Regroup(h.Prefix(), h.Strings(), t);
    PrefixRead(h, h.Strings() + t);
    DropFirst(u, t);
    AfterNothing(Parse(Requests(h.lsb, 0), t));
  }

  /** The round trip with the setup: the server gets exactly the requests the client wrote. */
  lemma StreamParse(h: Hello, rs: seq<Request>)
    requires h.Valid() && Sendable(rs)
    ensures var o := Parse(Setup, h.Prefix() + h.Strings() + Stream(h.lsb, rs));
            && o.Waiting? && o.rest == [] && o.stage == Requests(h.lsb, |rs| % 65536)
            && Arrived(rs, o.frames)
  {
    SetupTaken(h, Stream(h.lsb, rs));
    RequestsParse(h.lsb, rs);
  }

  /** A setup is refused exactly when it has no byte order or another version than 11, whatever else it says. */
  lemma SetupRefused(s: seq<Byte>)
    requires |s| >= 12
    ensures Head(Setup, s) == Fail(Aborted)
            <==> !(s[0] == 0x42 && s[2] == 0 && s[3] == 11) && !(s[0] == 0x6C && s[2] == 11 && s[3] == 0)
  {
    Eleven(s[2], s[3]);
    Eleven(s[3], s[2]);
  }

  lemma Eleven(hi: Byte, lo: Byte)
    ensures Card16(hi, lo) == 11 <==> hi == 0 && lo == 11
  {
  }

  /** The stream ends at the first extension request, or the first one that says it has no length. */
  lemma StreamEnds(h: Hello, rs: seq<Request>, t: seq<Byte>)
    requires h.Valid() && Sendable(rs) && |t| >= 4
    requires t[0] >= 128 || (t[2] == 0 && t[3] == 0)
    ensures var o := Parse(Setup, h.Prefix() + h.Strings() + Stream(h.lsb, rs) + t);
            && o.Over? && o.fate == (if t[0] >= 128 then Exited else Aborted)
            && Arrived(rs, o.frames)
  {
    var u := h.Prefix() + h.Strings() + Stream(h.lsb, rs);
    StreamParse(h, rs);
    ParseAppend(Setup, u, t);
    HeaderEnds(h.lsb, |rs| % 65536, t, Parse(Setup, u).frames);
  }

  lemma HeaderEnds(lsb: bool, n: nat, t: seq<Byte>, frames: seq<Frame>)
    requires |t| >= 4 && (t[0] >= 128 || (t[2] == 0 && t[3] == 0))
    ensures Parse(Requests(lsb, n), [] + t).After(frames) == Over(frames, if t[0] >= 128 then Exited else Aborted)
  {
    assert [] + t == t && frames + [] == frames;
  }

  /** A client that connects and sends its requests has them dispatched, in whatever pieces the bytes arrive. */
  method Connect(h: Hello, rs: seq<Request>, pieces: seq<seq<Byte>>) returns (client: Client)
    requires h.Valid() && Sendable(rs) && Flat(pieces) == h.Prefix() + h.Strings() + Stream(h.lsb, rs)
    ensures fresh(client) && client.Valid() && Arrived(rs, client.log)
  {
    client := new Client();
    var sock := new Socket();
    StreamParse(h, rs);
    assert client.consumed + sock.queue + Flat(pieces) == Flat(pieces);
    Session(client, sock, pieces);
  }
}
