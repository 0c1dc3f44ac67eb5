/**
 Streaming MD5: a context that takes a message in pieces, and the definition of the digest
 in sections 3.1 and 3.2 of RFC 1321. The compression function is a parameter, so every
 result holds for the one of section 3.4 in particular.
 */
module Md5 {
  import opened Bytes

  const TWO_32 := 0x1_0000_0000
  const TWO_64 := 0x1_0000_0000_0000_0000

  datatype Chain = Chain(a: bv32, b: bv32, c: bv32, d: bv32)
  type Compress = (Chain, seq<Byte>) -> Chain

  const INIT := Chain(0x67452301, 0xefcdab89, 0x98badcfe, 0x10325476)

  /** The chaining value after whole blocks of 64 bytes. */
  ghost function Fold(f: Compress, c: Chain, m: seq<Byte>): Chain
    requires |m| % 64 == 0
    decreases |m|
  {
    if m == [] then c else Fold(f, f(c, m[..64]), m[64..])
  }

  /** One block is compressed once; with FoldJoin that is all there is to say. */
  lemma FoldOne(f: Compress, c: Chain, m: seq<Byte>)
    requires |m| == 64
    ensures Fold(f, c, m) == f(c, m)
  {
    assert m[..64] == m && m[64..] == [];
  }

  function Le32(n: nat): (r: seq<Byte>)
    requires n < TWO_32
    ensures |r| == 4
  {
    [n % 256, n / 256 % 256, n / 65536 % 256, n / 16777216 % 256]
  }

  /** A 64-bit number, low-order word first. */
  function Le64(n: nat): (r: seq<Byte>)
    requires n < TWO_64
    ensures |r| == 8
  {
    Le32(n % TWO_32) + Le32(n / TWO_32)
  }

  /** How many bytes of padding bring a length to 56 modulo 64; always at least one. */
  function PadLength(n: nat): (k: nat)
    ensures 1 <= k <= 64 && (n + k) % 64 == 56
  {
    var r := n % 64;
    if r >= 56 then 120 - r else 56 - r
  }

  function Padding(k: nat): (r: seq<Byte>)
    requires k > 0
    ensures |r| == k
  {
    [0x80] + seq(k - 1, _ => 0)
  }

  /** Sections 3.1 and 3.2: the padded message with its length in bits. */
  function Padded(m: seq<Byte>): (r: seq<Byte>)
    ensures |r| % 64 == 0
  {
    BlockLength(|m| + PadLength(|m|));
    m + Padding(PadLength(|m|)) + Le64(8 * |m| % TWO_64)
  }

  lemma BlockLength(n: nat)
    requires n % 64 == 56
    ensures (n + 8) % 64 == 0
  {
  }

  /** The number whose digits in base 256 these are, least significant first. */
  ghost function Number(b: seq<Byte>): nat {
    if b == [] then 0 else b[0] + 256 * Number(b[1..])
  }

  lemma NumberFirst(x: Byte, t: seq<Byte>)
    ensures Number([x] + t) == x + 256 * Number(t)
  {
    assert ([x] + t)[1..] == t;
  }

  lemma NumberOfFour(b: seq<Byte>, t: seq<Byte>)
    requires |b| == 4
    ensures Number(b + t) == b[0] + 256 * b[1] + 65536 * b[2] + 16777216 * b[3] + TWO_32 * Number(t)
  {
    NumberFirst(b[3], t);
    NumberFirst(b[2], [b[3]] + t);
    NumberFirst(b[1], [b[2]] + ([b[3]] + t));
    NumberFirst(b[0], [b[1]] + ([b[2]] + ([b[3]] + t)));
    assert b + t == [b[0]] + ([b[1]] + ([b[2]] + ([b[3]] + t)));
  }

  lemma Digits(n: nat)
    requires n < TWO_32
    ensures n == n % 256 + 256 * (n / 256 % 256) + 65536 * (n / 65536 % 256) + 16777216 * (n / 16777216 % 256)
  {
    var a := n / 256;
    var b := a / 256;
    assert n / 65536 == b && n / 16777216 == b / 256;
  }

  lemma Le32Number(n: nat, t: seq<Byte>)
    requires n < TWO_32
    ensures Number(Le32(n) + t) == n + TWO_32 * Number(t)
  {
    NumberOfFour(Le32(n), t);
    Digits(n);
  }

  lemma Le64Number(n: nat)
    requires n < TWO_64
    ensures Number(Le64(n)) == n
  {
    var lo, hi := n % TWO_32, n / TWO_32;
    Le32Number(lo, Le32(hi));
    Le32Number(hi, []);
    assert Le32(hi) + [] == Le32(hi);
  }

  /**
   What the padded message consists of: the message, the byte 0x80, as few zeros as make whole
   blocks, and eight bytes that are the length in bits modulo 2 to the 64.
   */
  lemma PaddedIs(m: seq<Byte>)
    ensures var p := Padded(m);
            && |p| % 64 == 0 && |m| + 9 <= |p| < |m| + 9 + 64
            && p[..|m|] == m && p[|m|] == 0x80
            && (forall i | |m| < i < |p| - 8 :: p[i] == 0)
            && Number(p[|p| - 8..]) == 8 * |m| % 0x1_0000_0000_0000_0000
  {
    var k, bits := PadLength(|m|), Le64(8 * |m| % TWO_64);
    var p := m + Padding(k) + bits;
    assert p == Padded(m) && p[|p| - 8..] == bits && p[|m|..|m| + k] == Padding(k);
    Le64Number(8 * |m| % TWO_64);
    forall i | |m| < i < |p| - 8 ensures p[i] == 0 { assert p[i] == Padding(k)[i - |m|]; }
  }

  /** The start words have the bytes 01 23 45 67, 89 ab cd ef, fe dc ba 98 and 76 54 32 10. */
  lemma InitIs()
    ensures INIT.a as nat == Number([0x01, 0x23, 0x45, 0x67]) && INIT.b as nat == Number([0x89, 0xab, 0xcd, 0xef])
    ensures INIT.c as nat == Number([0xfe, 0xdc, 0xba, 0x98]) && INIT.d as nat == Number([0x76, 0x54, 0x32, 0x10])
  {
    NumberOfFour([0x01, 0x23, 0x45, 0x67], []);
    NumberOfFour([0x89, 0xab, 0xcd, 0xef], []);
    NumberOfFour([0xfe, 0xdc, 0xba, 0x98], []);
    NumberOfFour([0x76, 0x54, 0x32, 0x10], []);
    assert [0x01, 0x23, 0x45, 0x67] + [] == [0x01, 0x23, 0x45, 0x67];
    assert [0x89, 0xab, 0xcd, 0xef] + [] == [0x89, 0xab, 0xcd, 0xef];
    assert [0xfe, 0xdc, 0xba, 0x98] + [] == [0xfe, 0xdc, 0xba, 0x98];
    assert [0x76, 0x54, 0x32, 0x10] + [] == [0x76, 0x54, 0x32, 0x10];
  }

  ghost function Digest(f: Compress, m: seq<Byte>): Chain {
    Fold(f, INIT, Padded(m))
  }

  lemma {:induction false} FoldJoin(f: Compress, c: Chain, m: seq<Byte>, t: seq<Byte>)
    requires |m| % 64 == 0 && |t| % 64 == 0
    ensures Fold(f, c, m + t) == Fold(f, Fold(f, c, m), t)
    decreases |m|
  {
    if m == [] {
      assert m + t == t;
    } else {
      assert (m + t)[..64] == m[..64];
      assert (m + t)[64..] == m[64..] + t;
      FoldJoin(f, f(c, m[..64]), m[64..], t);
    }
  }

  lemma Le64Words(lo: nat, hi: nat)
    requires lo < TWO_32 && hi < TWO_32
    ensures lo + TWO_32 * hi < TWO_64 && Le64(lo + TWO_32 * hi) == Le32(lo) + Le32(hi)
  {
    assert (lo + TWO_32 * hi) / TWO_32 == hi && (lo + TWO_32 * hi) % TWO_32 == lo;
  }

  /** Shifting the low word left by three moves its upper three bits into the high word. */
  lemma ShiftLow(t0: nat)
    requires t0 < TWO_32
    ensures 8 * t0 == 8 * t0 % TWO_32 + TWO_32 * (t0 / 0x2000_0000) && t0 / 0x2000_0000 < 8
  {
  }

  lemma ShiftHigh(t1: nat)
    requires t1 < TWO_32
    ensures 8 * t1 == 8 * t1 % TWO_32 + TWO_32 * (8 * t1 / TWO_32) && 8 * t1 % TWO_32 <= TWO_32 - 8
  {
    var r, q := 8 * t1 % TWO_32, 8 * t1 / TWO_32;
    assert r == 8 * (t1 - 0x2000_0000 * q);
  }

  /** The two-word byte counter, shifted left by three, is the 64-bit bit count. */
  lemma BitCount(t0: nat, t1: nat, n: nat)
    requires t0 < TWO_32 && t1 < TWO_32 && t0 + TWO_32 * t1 == n % TWO_64
    ensures 8 * t1 % TWO_32 + t0 / 0x2000_0000 < TWO_32
    ensures Le32(8 * t0 % TWO_32) + Le32(8 * t1 % TWO_32 + t0 / 0x2000_0000) == Le64(8 * n % TWO_64)
  {
    ShiftLow(t0);
    ShiftHigh(t1);
    var lo, hi := 8 * t0 % TWO_32, 8 * t1 % TWO_32 + t0 / 0x2000_0000;
    ModUnique(8 * n, lo + TWO_32 * hi, 8 * t1 / TWO_32 + 8 * (n / TWO_64));
    Le64Words(lo, hi);
  }

  lemma ModUnique(n: nat, r: nat, q: nat)
    requires r < TWO_64 && n == r + TWO_64 * q
    ensures n % TWO_64 == r
  {
  }

  /** Adding a length to the counter, with the carry between its words. */
  function AddLow(t0: nat, len: nat): (r: nat)
    requires t0 < TWO_32 && len < TWO_32
    ensures r < TWO_32
  {
    (t0 + len) % TWO_32
  }

  function AddHigh(t0: nat, t1: nat, len: nat): (r: nat)
    requires t0 < TWO_32 && t1 < TWO_32 && len < TWO_32
    ensures r < TWO_32
  {
    if AddLow(t0, len) < len then (t1 + 1) % TWO_32 else t1
  }

  lemma CounterAdds(t0: nat, t1: nat, len: nat, n: nat)
    requires t0 < TWO_32 && t1 < TWO_32 && len < TWO_32 && t0 + TWO_32 * t1 == n % TWO_64
    ensures AddLow(t0, len) + TWO_32 * AddHigh(t0, t1, len) == (n + len) % TWO_64
  {
    var q := n / TWO_64;
    var carry := if t0 + len >= TWO_32 then 1 else 0;
    assert AddLow(t0, len) == t0 + len - TWO_32 * carry;
    if t1 + carry < TWO_32 {
      ModUnique(n + len, AddLow(t0, len) + TWO_32 * (t1 + carry), q);
    } else {
      ModUnique(n + len, AddLow(t0, len), q + 1);
    }
  }

  /** The chaining value and the counter account for all of msg but the bytes of buf. */
  ghost predicate Holds(f: Compress, c: Chain, t0: nat, t1: nat, buf: seq<Byte>, msg: seq<Byte>) {
    && |buf| <= |msg| && (|msg| - |buf|) % 64 == 0 && msg[|msg| - |buf|..] == buf
    && c == Fold(f, INIT, msg[..|msg| - |buf|])
    && t0 < TWO_32 && t1 < TWO_32 && t0 + TWO_32 * t1 == (|msg| - |buf|) % TWO_64
  }

  lemma HoldsAppend(f: Compress, c: Chain, t0: nat, t1: nat, buf: seq<Byte>, msg: seq<Byte>, d: seq<Byte>)
    requires Holds(f, c, t0, t1, buf, msg)
    ensures Holds(f, c, t0, t1, buf + d, msg + d)
  {
    var n := |msg| - |buf|;
    assert (msg + d)[..n] == msg[..n];
    assert (msg + d)[n..] == msg[n..] + d;
  }

  lemma Taken(msg: seq<Byte>, n: nat, k: nat)
    requires n + k <= |msg|
    ensures msg[..n + k] == msg[..n] + msg[n..][..k] && msg[n + k..] == msg[n..][k..]
  {
  }

  lemma HoldsTake(f: Compress, c: Chain, t0: nat, t1: nat, buf: seq<Byte>, msg: seq<Byte>, k: nat)
    requires Holds(f, c, t0, t1, buf, msg) && k <= |buf| && k % 64 == 0 && k < TWO_32
    ensures Holds(f, Fold(f, c, buf[..k]), AddLow(t0, k), AddHigh(t0, t1, k), buf[k..], msg)
  {
    var n := |msg| - |buf|;
    Taken(msg, n, k);
    FoldJoin(f, INIT, msg[..n], buf[..k]);
    CounterAdds(t0, t1, k, n);
    assert |msg| - |buf[k..]| == n + k;
    Sum64(n, k);
  }

  lemma Sum64(n: nat, k: nat)
    requires n % 64 == 0 && k % 64 == 0
    ensures (n + k) % 64 == 0
  {
  }

  function WholeBlocks(n: nat): (k: nat)
    ensures k <= n < k + 64 && k % 64 == 0
  {
    n / 64 * 64
  }

  class Context {
    const compress: Compress
    const buffer: array<Byte>
    var chain: Chain
    var total0: nat
    var total1: nat
    var buflen: nat
    ghost var msg: seq<Byte>

    ghost predicate Valid()
      reads this, buffer
    {
      && buffer.Length == 128 && buflen <= 64
      && Holds(compress, chain, total0, total1, buffer[..buflen], msg)
    }

    /** md5_init_ctx */
    constructor (compress: Compress)
      ensures Valid() && this.compress == compress && msg == [] && fresh(buffer)
    {
      this.compress := compress;
      buffer := new Byte[128];
      chain, total0, total1, buflen, msg := INIT, 0, 0, 0, [];
      new;
      assert buffer[..0] == [];
    }

    /** md5_process_block, for a length that is a multiple of 64. */
    method ProcessBlock(data: seq<Byte>)
      requires |data| % 64 == 0 && |data| < TWO_32 && total0 < TWO_32 && total1 < TWO_32
      modifies `chain, `total0, `total1
      ensures chain == Fold(compress, old(chain), data)
      ensures total0 == AddLow(old(total0), |data|) && total1 == AddHigh(old(total0), old(total1), |data|)
    {
      total0 := (total0 + |data|) % TWO_32;
      if total0 < |data| {
        total1 := (total1 + 1) % TWO_32;
      }
      var i := 0;
      while i < |data|
        invariant 0 <= i <= |data| && i % 64 == 0
        invariant Fold(compress, chain, data[i..]) == Fold(compress, old(chain), data)
        invariant total0 == AddLow(old(total0), |data|) && total1 == AddHigh(old(total0), old(total1), |data|)
      {
        assert data[i..][..64] == data[i..i + 64] && data[i..][64..] == data[i + 64..];
        chain := compress(chain, data[i..i + 64]);
        i := i + 64;
      }
    }

    /** memcpy into the buffer. */
    method Copy(at: nat, data: seq<Byte>)
      requires at + |data| <= buffer.Length
      modifies buffer
      ensures buffer[at..at + |data|] == data && buffer[..at] == old(buffer[..at])
    {
      forall i | 0 <= i < |data| {
        buffer[at + i] := data[i];
      }
    }

    /** The first part of md5_process_bytes: fills up a buffer that is not empty. */
    method TopUp(data: seq<Byte>) returns (add: nat)
      requires Valid() && buflen != 0
      modifies this, buffer
      ensures add <= |data| && Valid() && msg == old(msg) + data[..add]
      ensures add < |data| ==> buflen == 0
    {
      var leftOver := buflen;
      add := if 128 - leftOver > |data| then |data| else 128 - leftOver;
      ghost var buf, d := buffer[..leftOver], data[..add];
      HoldsAppend(compress, chain, total0, total1, buf, msg, d);
      Copy(leftOver, data[..add]);
      assert buffer[..leftOver + add] == buf + d;
      msg := msg + d;
      buflen := buflen + add;
      if leftOver + add > 64 {
        var k := WholeBlocks(leftOver + add);
        HoldsTake(compress, chain, total0, total1, buf + d, msg, k);
        assert buffer[..k] == (buf + d)[..k];
        ProcessBlock(buffer[..k]);
        var tail := buffer[k..leftOver + add];
        assert tail == (buf + d)[k..];
        Copy(0, tail);
        buflen := leftOver + add - k;
        assert buffer[..buflen] == tail;
      }
    }

    /** The second part: whole blocks straight from the data, the remainder into the buffer. */
    method Bulk(data: seq<Byte>)
      requires Valid() && |data| < TWO_32 && (data != [] ==> buflen == 0)
      modifies this, buffer
      ensures Valid() && msg == old(msg) + data
    {
      if data == [] {
        assert msg + data == msg;
        return;
      }
      assert buffer[..0] + data == data;
      HoldsAppend(compress, chain, total0, total1, buffer[..0], msg, data);
      msg := msg + data;
      var rest := data;
      if |rest| > 64 {
        var k := WholeBlocks(|rest|);
        HoldsTake(compress, chain, total0, total1, data, msg, k);
        ProcessBlock(rest[..k]);
        rest := rest[k..];
      }
      if |rest| > 0 {
        Copy(0, rest);
        buflen := |rest|;
      }
      assert buffer[..buflen] == rest;
    }

    /** md5_process_bytes: any number of bytes is added to the message. */
    method ProcessBytes(data: seq<Byte>)
      requires Valid() && |data| < TWO_32
      modifies this, buffer
      ensures Valid() && msg == old(msg) + data
    {
      var rest := data;
      if buflen != 0 {
        var add := TopUp(data);
        assert data == data[..add] + data[add..];
        rest := data[add..];
      }
      Bulk(rest);
    }

    /** The buffered bytes are counted; the counter in bits as it is to be stored. */
    method CountTail() returns (bits: seq<Byte>)
      requires Valid()
      modifies `total0, `total1
      ensures total0 < TWO_32 && total1 < TWO_32 && bits == Le64(8 * |msg| % TWO_64)
    {
      CounterAdds(total0, total1, buflen, |msg| - buflen);
      total0 := (total0 + buflen) % TWO_32;
      if total0 < buflen {
        total1 := (total1 + 1) % TWO_32;
      }
      BitCount(total0, total1, |msg|);
      bits := Le32(8 * total0 % TWO_32) + Le32(8 * total1 % TWO_32 + total0 / 0x2000_0000);
    }

    /** md5_finish_ctx: padding, length and the last blocks. */
    method Finish() returns (digest: Chain)
      requires Valid()
      modifies this, buffer
      ensures digest == Digest(compress, old(msg))
    {
      var bytes := buflen;
      ghost var buf := buffer[..bytes];
      var bits := CountTail();
      var pad := if bytes >= 56 then 64 + 56 - bytes else 56 - bytes;
      Copy(bytes, Padding(pad));
      assert buffer[..bytes + pad] == buf + Padding(pad);
      Copy(bytes + pad, bits);
      assert buffer[..bytes + pad + 8] == buf + Padding(pad) + bits;
      PaddedSplit(compress, chain, buf, msg, pad, bits);
      ProcessBlock(buffer[..bytes + pad + 8]);
      digest := chain;
    }
  }

  lemma SamePad(n: nat, b: nat)
    requires n % 64 == 0 && b <= 64
    ensures PadLength(n + b) == if b >= 56 then 120 - b else 56 - b
    ensures (b + PadLength(n + b) + 8) % 64 == 0
  {
    if b == 64 { assert (n + b) % 64 == 0; } else { assert (n + b) % 64 == b; }
  }

  /** The padded message is what was folded already followed by what Finish leaves in the buffer. */
  lemma PaddedSplit(f: Compress, c: Chain, buf: seq<Byte>, msg: seq<Byte>, pad: nat, bits: seq<Byte>)
    requires |buf| <= |msg| && (|msg| - |buf|) % 64 == 0 && msg[|msg| - |buf|..] == buf && |buf| <= 64
    requires c == Fold(f, INIT, msg[..|msg| - |buf|])
    requires pad == if |buf| >= 56 then 120 - |buf| else 56 - |buf|
    requires bits == Le64(8 * |msg| % TWO_64)
    ensures (|buf| + pad + 8) % 64 == 0 && pad > 0
    ensures Fold(f, c, buf + Padding(pad) + bits) == Digest(f, msg)
  {
    var n := |msg| - |buf|;
    SamePad(n, |buf|);
    assert pad == PadLength(|msg|);
    var tail := buf + Padding(pad) + bits;
    assert Padded(msg) == msg[..n] + tail by { assert msg == msg[..n] + buf; }
    FoldJoin(f, INIT, msg[..n], tail);
  }

  function Join(pieces: seq<seq<Byte>>): seq<Byte> {
    if pieces == [] then [] else Join(pieces[..|pieces| - 1]) + pieces[|pieces| - 1]
  }

  /** However a message is cut into calls of md5_process_bytes, its digest is that of the whole. */
  method DigestOfPieces(f: Compress, pieces: seq<seq<Byte>>) returns (digest: Chain)
    requires forall p <- pieces :: |p| < TWO_32
    ensures digest == Digest(f, Join(pieces))
  {
    var ctx := new Context(f);
    var i := 0;
    while i < |pieces|
      invariant 0 <= i <= |pieces| && fresh(ctx) && fresh(ctx.buffer) && ctx.Valid()
      invariant ctx.compress == f && ctx.msg == Join(pieces[..i])
    {
      assert pieces[..i + 1][..i] == pieces[..i];
      ctx.ProcessBytes(pieces[i]);
      i := i + 1;
    }
    assert pieces[..i] == pieces;
    digest := ctx.Finish();
  }
}
