/**
 _des_crypt: a buffer of bytes encrypted or decrypted in place, in ECB or CBC mode, with an
 initialization vector that is carried from one call to the next.
 */
module DesMode {
  import opened Des

  function C2l(b: seq<bv8>): bv32
    requires |b| == 4
  {
    (b[0] as bv32) | ((b[1] as bv32) << 8) | ((b[2] as bv32) << 16) | ((b[3] as bv32) << 24)
  }

  function L2c(l: bv32): (r: seq<bv8>)
    ensures |r| == 4
  {
    [(l & 0xff) as bv8, ((l >> 8) & 0xff) as bv8, ((l >> 16) & 0xff) as bv8, ((l >> 24) & 0xff) as bv8]
  }

  lemma WordBytes(l: bv32)
    ensures C2l(L2c(l)) == l
  {
  }

  lemma BytesWord(b: seq<bv8>)
    requires |b| == 4
    ensures L2c(C2l(b)) == b
  {
  }

  /** The first byte has the eight lowest bits. */
  lemma LoadBytes(b: seq<bv8>)
    requires |b| == 4
    ensures C2l(b) & 0xff == b[0] as bv32 && (C2l(b) >> 8) & 0xff == b[1] as bv32
    ensures (C2l(b) >> 16) & 0xff == b[2] as bv32 && C2l(b) >> 24 == b[3] as bv32
  {
  }

  function ToBlock(b: seq<bv8>): Block
    requires |b| == 8
  {
    Block(C2l(b[..4]), C2l(b[4..]))
  }

  function FromBlock(x: Block): (r: seq<bv8>)
    ensures |r| == 8
  {
    L2c(x.l) + L2c(x.r)
  }

  lemma BlockBytes(x: Block, b: seq<bv8>)
    ensures ToBlock(FromBlock(x)) == x
    ensures |b| == 8 ==> FromBlock(ToBlock(b)) == b
  {
    WordBytes(x.l);
    WordBytes(x.r);
    var c := FromBlock(x);
    assert c[..4] == L2c(x.l) && c[4..] == L2c(x.r);
    if |b| == 8 {
      BytesWord(b[..4]);
      BytesWord(b[4..]);
      assert b == b[..4] + b[4..];
    }
  }

  function Blocks(b: seq<bv8>): (r: seq<Block>)
    requires |b| % 8 == 0
    ensures 8 * |r| == |b|
    decreases |b|
  {
    if b == [] then [] else [ToBlock(b[..8])] + Blocks(b[8..])
  }

  function Octets(xs: seq<Block>): (r: seq<bv8>)
    ensures |r| == 8 * |xs|
  {
    if xs == [] then [] else FromBlock(xs[0]) + Octets(xs[1..])
  }

  lemma {:induction false} OctetsBlocks(xs: seq<Block>)
    ensures Blocks(Octets(xs)) == xs
  {
    if xs != [] {
      BlockBytes(xs[0], []);
      var b := Octets(xs);
      assert b[..8] == FromBlock(xs[0]) && b[8..] == Octets(xs[1..]);
      OctetsBlocks(xs[1..]);
    }
  }

  lemma {:induction false} BlocksOctets(b: seq<bv8>)
    requires |b| % 8 == 0
    ensures Octets(Blocks(b)) == b
    decreases |b|
  {
    if b != [] {
      BlockBytes(Block(0, 0), b[..8]);
      BlocksOctets(b[8..]);
      assert b == b[..8] + b[8..];
    }
  }

  function Chained(cbc: bool, x: Block, iv: Block): Block {
    if cbc then Block(Mix(x.l, iv.l), Mix(x.r, iv.r)) else x
  }

  lemma ChainedTwice(cbc: bool, x: Block, iv: Block)
    ensures Chained(cbc, Chained(cbc, x, iv), iv) == x
  {
    MixTwice(x.l, iv.l);
    MixTwice(x.r, iv.r);
  }

  type Cipher = Block -> Block

  function Encipher(k: Key): Cipher { x => Encrypt(RoundOf(k), x) }
  function Decipher(k: Key): Cipher { x => Decrypt(RoundOf(k), x) }

  ghost predicate Inverse(e: Cipher, d: Cipher) {
    forall x {:trigger e(x)} :: d(e(x)) == x
  }

  lemma CiphersInverse(k: Key)
    ensures Inverse(Encipher(k), Decipher(k)) && Inverse(Decipher(k), Encipher(k))
  {
    forall x ensures Decipher(k)(Encipher(k)(x)) == x && Encipher(k)(Decipher(k)(x)) == x {
      BlocksCancel(RoundOf(k), x);
    }
  }

  /** Encryption of consecutive blocks; each is chained with the previous result. */
  function EncAll(e: Cipher, cbc: bool, iv: Block, xs: seq<Block>): (r: seq<Block>)
    ensures |r| == |xs|
    decreases |xs|
  {
    if xs == [] then [] else
      var c := e(Chained(cbc, xs[0], iv));
      [c] + EncAll(e, cbc, c, xs[1..])
  }

  /** Decryption of consecutive blocks; each is chained with the previous input. */
  function DecAll(d: Cipher, cbc: bool, iv: Block, cs: seq<Block>): (r: seq<Block>)
    ensures |r| == |cs|
    decreases |cs|
  {
    if cs == [] then [] else
      [Chained(cbc, d(cs[0]), iv)] + DecAll(d, cbc, cs[0], cs[1..])
  }

  /** Decryption undoes encryption in either mode, for every vector and every buffer. */
  lemma {:induction false} DecryptEncrypt(e: Cipher, d: Cipher, cbc: bool, iv: Block, xs: seq<Block>)
    requires Inverse(e, d)
    ensures DecAll(d, cbc, iv, EncAll(e, cbc, iv, xs)) == xs
    decreases |xs|
  {
    if xs != [] {
      var c := e(Chained(cbc, xs[0], iv));
      ChainedTwice(cbc, xs[0], iv);
      var r := EncAll(e, cbc, iv, xs);
      assert r[0] == c && r[1..] == EncAll(e, cbc, c, xs[1..]);
      DecryptEncrypt(e, d, cbc, c, xs[1..]);
      assert d(c) == Chained(cbc, xs[0], iv);
    }
  }

  lemma {:induction false} EncryptDecrypt(e: Cipher, d: Cipher, cbc: bool, iv: Block, cs: seq<Block>)
    requires Inverse(d, e)
    ensures EncAll(e, cbc, iv, DecAll(d, cbc, iv, cs)) == cs
    decreases |cs|
  {
    if cs != [] {
      var p := d(cs[0]);
      ChainedTwice(cbc, p, iv);
      var r := DecAll(d, cbc, iv, cs);
      assert r[0] == Chained(cbc, p, iv) && r[1..] == DecAll(d, cbc, cs[0], cs[1..]);
      EncryptDecrypt(e, d, cbc, cs[0], cs[1..]);
      assert e(p) == cs[0];
    }
  }

  function Xor(x: Block, y: Block): Block {
    Block(x.l ^ y.l, x.r ^ y.r)
  }

  lemma ChainedIs(cbc: bool, x: Block, iv: Block)
    ensures Chained(cbc, x, iv) == if cbc then Xor(x, iv) else x
  {
    MixIsXor(x.l, iv.l);
    MixIsXor(x.r, iv.r);
  }

  /** In CBC mode a block is combined with the cipher text before it, or the vector, and then encrypted; in ECB mode it is encrypted. */
  lemma {:induction false} EncryptedAt(e: Cipher, cbc: bool, iv: Block, xs: seq<Block>, i: nat)
    requires i < |xs|
    ensures var cs := EncAll(e, cbc, iv, xs);
            cs[i] == e(if cbc then Xor(xs[i], if i == 0 then iv else cs[i - 1]) else xs[i])
    decreases |xs|
  {
    var c := e(Chained(cbc, xs[0], iv));
    var cs, rest := EncAll(e, cbc, iv, xs), EncAll(e, cbc, c, xs[1..]);
    assert cs == [c] + rest;
    if i == 0 {
      ChainedIs(cbc, xs[0], iv);
    } else {
      EncryptedAt(e, cbc, c, xs[1..], i - 1);
      assert cs[i] == rest[i - 1] && xs[1..][i - 1] == xs[i] && cs[i - 1] == if i == 1 then c else rest[i - 2];
    }
  }

  /** Decrypted first and combined then. */
  lemma {:induction false} DecryptedAt(d: Cipher, cbc: bool, iv: Block, cs: seq<Block>, i: nat)
    requires i < |cs|
    ensures DecAll(d, cbc, iv, cs)[i] == if cbc then Xor(d(cs[i]), if i == 0 then iv else cs[i - 1]) else d(cs[i])
    decreases |cs|
  {
    if i == 0 {
      ChainedIs(cbc, d(cs[0]), iv);
    } else {
      DecryptedAt(d, cbc, cs[0], cs[1..], i - 1);
      assert cs[1..][i - 1] == cs[i] && cs[i - 1] == if i == 1 then cs[0] else cs[1..][i - 2];
    }
  }

  /** And the ciphers are DES in its two directions. */
  lemma CiphersAreDes(k: Key, x: Block)
    ensures IsDes(k, true, x, Encipher(k)(x)) && IsDes(k, false, x, Decipher(k)(x))
  {
    EndIsDes(k, true, x, Encrypt(RoundOf(k), x));
    EndIsDes(k, false, x, Decrypt(RoundOf(k), x));
  }

  /** Block number i of a buffer is made of its bytes from 8 * i on. */
  lemma {:induction false} BlockAt(b: seq<bv8>, i: nat)
    requires |b| % 8 == 0 && 8 * i < |b|
    ensures 8 * i + 8 <= |b| && Blocks(b)[i] == Block(C2l(b[8 * i..8 * i + 4]), C2l(b[8 * i + 4..8 * i + 8]))
    decreases i
  {
    if i == 0 {
      assert b[..8][..4] == b[..4] && b[..8][4..] == b[4..8];
    } else {
      var p := 8 * (i - 1);
      BlockAt(b[8..], i - 1);
      SliceBehind(b, 8, p, p + 4);
      SliceBehind(b, 8, p + 4, p + 8);
    }
  }

  lemma SliceBehind<T>(b: seq<T>, n: nat, lo: nat, hi: nat)
    requires lo <= hi && n + hi <= |b|
    ensures b[n..][lo..hi] == b[n + lo..n + hi]
  {
  }

  const ZERO := Block(0, 0)

  /** The vector left behind: the last result of encryption, the last input of decryption. */
  function EncIv(e: Cipher, cbc: bool, iv: Block, xs: seq<Block>): Block
    decreases |xs|
  {
    if xs == [] then iv else EncIv(e, cbc, e(Chained(cbc, xs[0], iv)), xs[1..])
  }

  lemma {:induction false} EncIvLast(e: Cipher, cbc: bool, iv: Block, xs: seq<Block>)
    requires xs != []
    ensures EncIv(e, cbc, iv, xs) == EncAll(e, cbc, iv, xs)[|xs| - 1]
    decreases |xs|
  {
    if |xs| > 1 {
      EncIvLast(e, cbc, e(Chained(cbc, xs[0], iv)), xs[1..]);
    }
  }

  function DecIv(cs: seq<Block>): Block {
    if cs == [] then ZERO else cs[|cs| - 1]
  }

  /** A buffer may be encrypted in two calls. */
  lemma {:induction false} EncryptSplit(e: Cipher, cbc: bool, iv: Block, xs: seq<Block>, ys: seq<Block>)
    ensures EncAll(e, cbc, iv, xs + ys) == EncAll(e, cbc, iv, xs) + EncAll(e, cbc, EncIv(e, cbc, iv, xs), ys)
    ensures EncIv(e, cbc, iv, xs + ys) == EncIv(e, cbc, EncIv(e, cbc, iv, xs), ys)
    decreases |xs|
  {
    if xs == [] {
      assert xs + ys == ys;
    } else {
      var c := e(Chained(cbc, xs[0], iv));
      assert (xs + ys)[0] == xs[0] && (xs + ys)[1..] == xs[1..] + ys;
      EncryptSplit(e, cbc, c, xs[1..], ys);
    }
  }

  /** Decryption in two calls is the same when the first one is not empty. */
  lemma {:induction false} DecryptSplit(d: Cipher, cbc: bool, iv: Block, xs: seq<Block>, ys: seq<Block>)
    requires xs != []
    ensures DecAll(d, cbc, iv, xs + ys) == DecAll(d, cbc, iv, xs) + DecAll(d, cbc, DecIv(xs), ys)
    ensures ys != [] ==> DecIv(xs + ys) == DecIv(ys)
    decreases |xs|
  {
    assert (xs + ys)[0] == xs[0] && (xs + ys)[1..] == xs[1..] + ys;
    if |xs| == 1 {
      assert xs[1..] + ys == ys && DecAll(d, cbc, xs[0], xs[1..]) == [];
    } else {
      DecryptSplit(d, cbc, xs[0], xs[1..], ys);
    }
  }

  /**
   An empty decryption call clears the vector. What follows it then comes out as without that
   call exactly when there is nothing to chain or the vector was zero already.
   */
  lemma EmptyDecryption(d: Cipher, cbc: bool, iv: Block, ys: seq<Block>)
    ensures DecAll(d, cbc, DecIv([]), ys) == DecAll(d, cbc, iv, ys) <==> !cbc || ys == [] || iv == Block(0, 0)
  {
    if ys != [] {
      var p := d(ys[0]);
      assert DecAll(d, cbc, ZERO, ys)[0] == Chained(cbc, p, ZERO);
      assert DecAll(d, cbc, iv, ys)[0] == Chained(cbc, p, iv);
      MixEqual(p.l, ZERO.l, iv.l);
      MixEqual(p.r, ZERO.r, iv.r);
    }
  }

  /** In CBC mode with the vector (1, 0) the block after it comes out wrong, whatever the key. */
  lemma EmptyExample(k: Key)
    ensures DecAll(Decipher(k), true, DecIv([]), [ZERO]) != DecAll(Decipher(k), true, Block(1, 0), [ZERO])
  {
    EmptyDecryption(Decipher(k), true, Block(1, 0), [ZERO]);
  }

  lemma MixEqual(p: bv32, a: bv32, b: bv32)
    ensures Mix(p, a) == Mix(p, b) <==> a == b
  {
  }

  /** Writing one block of bytes back over the block it came from. */
  method Put(buf: array<bv8>, p: nat, x: Block)
    requires p + 8 <= buf.Length
    modifies buf
    ensures buf[..p + 8] == old(buf[..p]) + FromBlock(x) && buf[p + 8..] == old(buf[p + 8..])
  {
    var b := FromBlock(x);
    forall i | 0 <= i < 8 {
      buf[p + i] := b[i];
    }
  }

  /** Encryption and decryption of a byte buffer, as one expression each. */
  function EncBytes(e: Cipher, cbc: bool, iv: Block, b: seq<bv8>): (r: seq<bv8>)
    requires |b| % 8 == 0
    ensures |r| == |b|
  {
    Octets(EncAll(e, cbc, iv, Blocks(b)))
  }

  function DecBytes(d: Cipher, cbc: bool, iv: Block, b: seq<bv8>): (r: seq<bv8>)
    requires |b| % 8 == 0
    ensures |r| == |b|
  {
    Octets(DecAll(d, cbc, iv, Blocks(b)))
  }

  lemma EncUnfold(e: Cipher, cbc: bool, iv: Block, b: seq<bv8>)
    requires |b| % 8 == 0 && b != []
    ensures var c := e(Chained(cbc, ToBlock(b[..8]), iv));
            && EncBytes(e, cbc, iv, b) == FromBlock(c) + EncBytes(e, cbc, c, b[8..])
            && EncIv(e, cbc, iv, Blocks(b)) == EncIv(e, cbc, c, Blocks(b[8..]))
  {
    var xs := Blocks(b);
    assert xs[0] == ToBlock(b[..8]) && xs[1..] == Blocks(b[8..]);
    var c := e(Chained(cbc, xs[0], iv));
    var r := EncAll(e, cbc, iv, xs);
    assert r[0] == c && r[1..] == EncAll(e, cbc, c, xs[1..]);
  }

  lemma EightLess(n: nat)
    requires n % 8 == 0 && n > 0
    ensures n >= 8 && (n - 8) % 8 == 0
  {
  }

  lemma BlocksUnfold(b: seq<bv8>)
    requires |b| % 8 == 0 && b != []
    ensures |b[8..]| % 8 == 0 && Blocks(b) != []
    ensures Blocks(b)[0] == ToBlock(b[..8]) && Blocks(b)[1..] == Blocks(b[8..])
  {
    EightLess(|b|);
    assert Blocks(b) == [ToBlock(b[..8])] + Blocks(b[8..]);
  }

  lemma DecIvUnfold(b: seq<bv8>)
    requires |b| % 8 == 0 && b != []
    ensures |b[8..]| % 8 == 0
    ensures DecIv(Blocks(b)) == (if |b| == 8 then ToBlock(b[..8]) else DecIv(Blocks(b[8..])))
  {
    BlocksUnfold(b);
  }

  lemma DecUnfold(d: Cipher, cbc: bool, iv: Block, b: seq<bv8>)
    requires |b| % 8 == 0 && b != []
    ensures |b[8..]| % 8 == 0
    ensures var c := ToBlock(b[..8]);
            DecBytes(d, cbc, iv, b) == FromBlock(Chained(cbc, d(c), iv)) + DecBytes(d, cbc, c, b[8..])
  {
    BlocksUnfold(b);
    var xs := Blocks(b);
    var r := DecAll(d, cbc, iv, xs);
    assert r[0] == Chained(cbc, d(xs[0]), iv) && r[1..] == DecAll(d, cbc, xs[0], xs[1..]);
  }

  /** The whole buffer: what is done so far and what the rest will become. */
  lemma Advance(done: seq<bv8>, block: seq<bv8>, rest: seq<bv8>, all: seq<bv8>)
    requires done + (block + rest) == all
    ensures (done + block) + rest == all
  {
  }

  /** des_encrypt on the two words of tbuf. */
  method DesBlock(k: Key, x: Block, encrypt: bool) returns (y: Block)
    ensures y == if encrypt then Encrypt(RoundOf(k), x) else Decrypt(RoundOf(k), x)
  {
    var tbuf := new bv32[2];
    tbuf[0], tbuf[1] := x.l, x.r;
    DesEncrypt(tbuf, k, encrypt);
    y := Block(tbuf[0], tbuf[1]);
    DesIsUnique(k, encrypt, x, y);
  }

  lemma StillBlocks(b: seq<bv8>, p: nat)
    requires |b| % 8 == 0 && p % 8 == 0 && p < |b|
    ensures |b[p..]| >= 8 && p + 8 <= |b| && (p + 8) % 8 == 0 && |b[p..]| % 8 == 0 && |b[p + 8..]| % 8 == 0
    ensures b[p..][..8] == b[p..p + 8] && b[p..][8..] == b[p + 8..] && b[p..] != []
  {
  }

  /** What is done so far and what the rest will become make up the result. */
  ghost predicate Encrypting(e: Cipher, cbc: bool, iv: Block, b0: seq<bv8>, p: nat, last: Block, done: seq<bv8>) {
    && |b0| % 8 == 0 && p <= |b0| && |b0[p..]| % 8 == 0
    && done + EncBytes(e, cbc, last, b0[p..]) == EncBytes(e, cbc, iv, b0)
    && EncIv(e, cbc, last, Blocks(b0[p..])) == EncIv(e, cbc, iv, Blocks(b0))
  }

  lemma EncryptingStep(e: Cipher, cbc: bool, iv: Block, b0: seq<bv8>, p: nat, last: Block, done: seq<bv8>)
    requires Encrypting(e, cbc, iv, b0, p, last, done) && p % 8 == 0 && p < |b0| && |b0[p..]| >= 8
    ensures p + 8 <= |b0|
    ensures var c := e(Chained(cbc, ToBlock(b0[p..][..8]), last));
            Encrypting(e, cbc, iv, b0, p + 8, c, done + FromBlock(c))
  {
    StillBlocks(b0, p);
    EncUnfold(e, cbc, last, b0[p..]);
    var c := e(Chained(cbc, ToBlock(b0[p..][..8]), last));
    Advance(done, FromBlock(c), EncBytes(e, cbc, c, b0[p + 8..]), EncBytes(e, cbc, iv, b0));
  }

  /** The encrypting loop of _des_crypt. */
  method EncryptBytes(buf: array<bv8>, k: Key, cbc: bool, iv: Block) returns (last: Block)
    requires buf.Length % 8 == 0
    modifies buf
    ensures buf[..] == EncBytes(Encipher(k), cbc, iv, old(buf[..]))
    ensures last == EncIv(Encipher(k), cbc, iv, Blocks(old(buf[..])))
  {
    ghost var e, b0 := Encipher(k), buf[..];
    last := iv;
    var p := 0;
    assert b0[0..] == b0;
    while p < buf.Length
      invariant 0 <= p <= buf.Length && p % 8 == 0 && buf[p..] == b0[p..]
      invariant Encrypting(e, cbc, iv, b0, p, last, buf[..p])
    {
      StillBlocks(b0, p);
      EncryptingStep(e, cbc, iv, b0, p, last, buf[..p]);
      var x := Chained(cbc, ToBlock(buf[p..][..8]), last);
      last := DesBlock(k, x, true);
      assert last == e(x);
      assert buf[p..][8..] == buf[p + 8..];
      Put(buf, p, last);
      p := p + 8;
    }
    assert buf[..p] == buf[..] && b0[p..] == [];
  }

  /** The same for decryption, where the input block is what is carried along. */
  ghost predicate Decrypting(d: Cipher, cbc: bool, iv: Block, b0: seq<bv8>, p: nat, xor: Block, tin: Block, done: seq<bv8>) {
    && |b0| % 8 == 0 && p <= |b0| && |b0[p..]| % 8 == 0
    && done + DecBytes(d, cbc, xor, b0[p..]) == DecBytes(d, cbc, iv, b0)
    && DecIv(Blocks(b0)) == (if b0[p..] == [] then tin else DecIv(Blocks(b0[p..])))
  }

  lemma DecryptingStep(d: Cipher, cbc: bool, iv: Block, b0: seq<bv8>, p: nat, xor: Block, tin: Block, done: seq<bv8>)
    requires Decrypting(d, cbc, iv, b0, p, xor, tin, done) && p % 8 == 0 && p < |b0| && |b0[p..]| >= 8
    ensures p + 8 <= |b0|
    ensures var c := ToBlock(b0[p..][..8]);
            Decrypting(d, cbc, iv, b0, p + 8, c, c, done + FromBlock(Chained(cbc, d(c), xor)))
  {
    StillBlocks(b0, p);
    DecUnfold(d, cbc, xor, b0[p..]);
    DecIvUnfold(b0[p..]);
    var c := ToBlock(b0[p..][..8]);
    Advance(done, FromBlock(Chained(cbc, d(c), xor)), DecBytes(d, cbc, c, b0[p + 8..]), DecBytes(d, cbc, iv, b0));
  }

  lemma WholeSlice<T>(s: seq<T>)
    ensures s[..|s|] == s && s[|s|..] == []
  {
  }

  /** One round of the decrypting loop: the block at p gives way to its plain text. */
  method DecryptAt(buf: array<bv8>, p: nat, k: Key, cbc: bool, xor: Block) returns (tin: Block)
    requires p + 8 <= buf.Length
    modifies buf
    ensures tin == ToBlock(old(buf[p..])[..8])
    ensures buf[..p + 8] == old(buf[..p]) + FromBlock(Chained(cbc, Decipher(k)(tin), xor))
    ensures buf[p + 8..] == old(buf[p..])[8..]
  {
    tin := ToBlock(buf[p..][..8]);
    assert buf[p + 8..] == buf[p..][8..];
    var plain := DesBlock(k, tin, false);
    assert plain == Decipher(k)(tin);
    Put(buf, p, Chained(cbc, plain, xor));
  }

  /** The same with what is done so far. */
  method DecryptRound(buf: array<bv8>, p: nat, k: Key, cbc: bool, xor: Block, ghost iv: Block, ghost b0: seq<bv8>, ghost tin0: Block)
    returns (tin: Block)
    requires p % 8 == 0 && p < buf.Length == |b0| && buf[p..] == b0[p..]
    requires Decrypting(Decipher(k), cbc, iv, b0, p, xor, tin0, buf[..p])
    modifies buf
    ensures p + 8 <= buf.Length && buf[p + 8..] == b0[p + 8..]
    ensures Decrypting(Decipher(k), cbc, iv, b0, p + 8, tin, tin, buf[..p + 8])
  {
    StillBlocks(b0, p);
    DecryptingStep(Decipher(k), cbc, iv, b0, p, xor, tin0, buf[..p]);
    tin := DecryptAt(buf, p, k, cbc, xor);
  }

  /** The decrypting loop of _des_crypt. */
  method DecryptBytes(buf: array<bv8>, k: Key, cbc: bool, iv: Block) returns (tin: Block)
    requires buf.Length % 8 == 0
    modifies buf
    ensures buf[..] == DecBytes(Decipher(k), cbc, iv, old(buf[..]))
    ensures tin == DecIv(Blocks(old(buf[..])))
  {
    ghost var d, b0 := Decipher(k), buf[..];
    tin := ZERO;
    var p, xor := 0, iv;
    assert b0[0..] == b0;
    while p < buf.Length
      invariant 0 <= p <= buf.Length && p % 8 == 0 && buf[p..] == b0[p..]
      invariant Decrypting(d, cbc, iv, b0, p, xor, tin, buf[..p])
    {
      tin := DecryptRound(buf, p, k, cbc, xor, iv, b0, tin);
      xor := tin;
      p := p + 8;
    }
    WholeSlice(buf[..]);
    WholeSlice(b0);
  }

  lemma {:induction false} OctetsLast(xs: seq<Block>)
    requires xs != []
    ensures Octets(xs)[|Octets(xs)| - 8..] == FromBlock(xs[|xs| - 1])
  {
    if |xs| == 1 {
      assert Octets(xs[1..]) == [];
      assert Octets(xs) == FromBlock(xs[0]);
    } else {
      OctetsLast(xs[1..]);
      assert Octets(xs)[|Octets(xs)| - 8..] == Octets(xs[1..])[|Octets(xs[1..])| - 8..];
    }
  }

  /** The vector left behind by an encryption is the last block of what it wrote. */
  lemma EncVector(e: Cipher, cbc: bool, iv: Block, b: seq<bv8>)
    requires |b| % 8 == 0 && b != []
    ensures FromBlock(EncIv(e, cbc, iv, Blocks(b))) == EncBytes(e, cbc, iv, b)[|b| - 8..]
  {
    EncIvLast(e, cbc, iv, Blocks(b));
    OctetsLast(EncAll(e, cbc, iv, Blocks(b)));
  }

  /** The one left behind by a decryption is the last block of what it read. */
  lemma DecVector(b: seq<bv8>)
    requires |b| % 8 == 0 && b != []
    ensures FromBlock(DecIv(Blocks(b))) == b[|b| - 8..]
  {
    OctetsLast(Blocks(b));
    BlocksOctets(b);
  }

  lemma ZeroBytes()
    ensures FromBlock(ZERO) == [0, 0, 0, 0, 0, 0, 0, 0]
  {
    assert L2c(0) == [0, 0, 0, 0];
  }

  /** The two loops with what they leave behind. */
  method EncryptBuffer(buf: array<bv8>, k: Key, cbc: bool, iv: Block) returns (ghost last: Block, bytes: seq<bv8>)
    requires buf.Length % 8 == 0
    modifies buf
    ensures buf[..] == EncBytes(Encipher(k), cbc, iv, old(buf[..]))
    ensures last == EncIv(Encipher(k), cbc, iv, Blocks(old(buf[..]))) && bytes == FromBlock(last)
    ensures buf.Length > 0 ==> bytes == buf[..][buf.Length - 8..]
  {
    ghost var b0 := buf[..];
    var x := EncryptBytes(buf, k, cbc, iv);
    if buf.Length > 0 { EncVector(Encipher(k), cbc, iv, b0); }
    last, bytes := x, FromBlock(x);
  }

  method DecryptBuffer(buf: array<bv8>, k: Key, cbc: bool, iv: Block) returns (ghost tin: Block, bytes: seq<bv8>)
    requires buf.Length % 8 == 0
    modifies buf
    ensures buf[..] == DecBytes(Decipher(k), cbc, iv, old(buf[..]))
    ensures tin == DecIv(Blocks(old(buf[..]))) && bytes == FromBlock(tin)
    ensures bytes == if buf.Length > 0 then old(buf[..])[buf.Length - 8..] else [0, 0, 0, 0, 0, 0, 0, 0]
  {
    ghost var b0 := buf[..];
    var x := DecryptBytes(buf, k, cbc, iv);
    if buf.Length > 0 { DecVector(b0); } else { ZeroBytes(); }
    tin, bytes := x, FromBlock(x);
  }

  /** l2c of both words of the vector. */
  method PutVector(ivec: array<bv8>, bytes: seq<bv8>)
    requires ivec.Length == |bytes| == 8
    modifies ivec
    ensures ivec[..] == bytes
  {
    forall i | 0 <= i < 8 {
      ivec[i] := bytes[i];
    }
  }

  /**
   _des_crypt: both directions; the vector is overwritten for the next call. It is the last
   block of the cipher text, written or read, when there is any, and otherwise decryption clears it.
   */
  method DesCrypt(buf: array<bv8>, ivec: array<bv8>, k: Key, cbc: bool, encrypt: bool)
    requires buf.Length % 8 == 0 && ivec.Length == 8 && buf != ivec
    modifies buf, ivec
    ensures encrypt ==>
              && buf[..] == EncBytes(Encipher(k), cbc, ToBlock(old(ivec[..])), old(buf[..]))
              && ivec[..] == FromBlock(EncIv(Encipher(k), cbc, ToBlock(old(ivec[..])), Blocks(old(buf[..]))))
              && (buf.Length > 0 ==> ivec[..] == buf[..][buf.Length - 8..])
    ensures !encrypt ==>
              && buf[..] == DecBytes(Decipher(k), cbc, ToBlock(old(ivec[..])), old(buf[..]))
              && ivec[..] == FromBlock(DecIv(Blocks(old(buf[..]))))
              && ivec[..] == if buf.Length > 0 then old(buf[..])[buf.Length - 8..] else [0, 0, 0, 0, 0, 0, 0, 0]
  {
    var iv := ToBlock(ivec[..]);
    ghost var last;
    var bytes;
    if encrypt {
      last, bytes := EncryptBuffer(buf, k, cbc, iv);
    } else {
      last, bytes := DecryptBuffer(buf, k, cbc, iv);
    }
    PutVector(ivec, bytes);
  }

  /** Decrypting an encrypted buffer with the vector it was encrypted with gives it back. */
  lemma BufferRoundTrip(k: Key, cbc: bool, iv: Block, b: seq<bv8>)
    requires |b| % 8 == 0
    ensures DecBytes(Decipher(k), cbc, iv, EncBytes(Encipher(k), cbc, iv, b)) == b
    ensures EncBytes(Encipher(k), cbc, iv, DecBytes(Decipher(k), cbc, iv, b)) == b
  {
    var e, d, xs := Encipher(k), Decipher(k), Blocks(b);
    CiphersInverse(k);
    DecryptEncrypt(e, d, cbc, iv, xs);
    EncryptDecrypt(e, d, cbc, iv, xs);
    OctetsBlocks(EncAll(e, cbc, iv, xs));
    OctetsBlocks(DecAll(d, cbc, iv, xs));
    BlocksOctets(b);
  }

  lemma {:induction false} BlocksJoin(a: seq<bv8>, b: seq<bv8>)
    requires |a| % 8 == 0 && |b| % 8 == 0
    ensures Blocks(a + b) == Blocks(a) + Blocks(b)
    decreases |a|
  {
    if a == [] {
      assert a + b == b;
    } else {
      assert |a[8..]| % 8 == 0 && (a + b)[..8] == a[..8] && (a + b)[8..] == a[8..] + b;
      BlocksJoin(a[8..], b);
    }
  }

  lemma {:induction false} OctetsJoin(xs: seq<Block>, ys: seq<Block>)
    ensures Octets(xs + ys) == Octets(xs) + Octets(ys)
  {
    if xs == [] {
      assert xs + ys == ys;
    } else {
      assert (xs + ys)[0] == xs[0] && (xs + ys)[1..] == xs[1..] + ys;
      OctetsJoin(xs[1..], ys);
    }
  }

  /** Two calls with the carried vector do what one call does; the first must not be an empty decryption. */
  lemma BufferSplit(k: Key, cbc: bool, iv: Block, a: seq<bv8>, b: seq<bv8>)
    requires |a| % 8 == 0 && |b| % 8 == 0
    ensures EncBytes(Encipher(k), cbc, iv, a + b)
         == EncBytes(Encipher(k), cbc, iv, a) + EncBytes(Encipher(k), cbc, EncIv(Encipher(k), cbc, iv, Blocks(a)), b)
    ensures a != [] ==> (DecBytes(Decipher(k), cbc, iv, a + b)
                         == DecBytes(Decipher(k), cbc, iv, a) + DecBytes(Decipher(k), cbc, DecIv(Blocks(a)), b))
    ensures EncIv(Encipher(k), cbc, iv, Blocks(a + b))
         == EncIv(Encipher(k), cbc, EncIv(Encipher(k), cbc, iv, Blocks(a)), Blocks(b))
    ensures b != [] ==> DecIv(Blocks(a + b)) == DecIv(Blocks(b))
  {
    var e, d, xs, ys := Encipher(k), Decipher(k), Blocks(a), Blocks(b);
    BlocksJoin(a, b);
    EncryptSplit(e, cbc, iv, xs, ys);
    OctetsJoin(EncAll(e, cbc, iv, xs), EncAll(e, cbc, EncIv(e, cbc, iv, xs), ys));
    if a != [] {
      DecryptSplit(d, cbc, iv, xs, ys);
      OctetsJoin(DecAll(d, cbc, iv, xs), DecAll(d, cbc, DecIv(xs), ys));
    }
  }
}
