/**
 The DES block cipher and its two modes. Key schedule and S-box tables are parameters: that
 decryption undoes encryption rests on the shape of the cipher alone, on permutations that
 are their own inverses and on rounds that cancel when they are applied in reverse.
 */
module Des {
  /** des_SPtrans: table number and six index bits to a word. */
  type Tables = (nat, bv32) -> bv32

  datatype Block = Block(l: bv32, r: bv32) {
    function Swap(): Block { Block(r, l) }
  }

  /** The 32 words that des_set_key makes of a key. */
  type Schedule = s: seq<bv32> | |s| == 32 witness seq(32, _ => 0)

  datatype Key = Key(sp: Tables, s: Schedule)

  /** Where a round begins in the schedule; it uses that word and the next. */
  type Place = i: nat | i < 31

  // PERM_OP(a, b, t, n, m) finds the bits in which b under m differs from a under m << n and
  // exchanges them. The five uses of it below are each their own inverse.

  function Diff4(a: bv32, b: bv32): bv32 { ((a >> 4) ^ b) & 0x0f0f0f0f }
  function High4(a: bv32, b: bv32): bv32 { a ^ (Diff4(a, b) << 4) }
  function Low4(a: bv32, b: bv32): bv32 { b ^ Diff4(a, b) }
  function Perm4(x: Block): Block { Block(Low4(x.r, x.l), High4(x.r, x.l)) }

  lemma Bits4(a: bv32, b: bv32)
    ensures High4(High4(a, b), Low4(a, b)) == a && Low4(High4(a, b), Low4(a, b)) == b
  {
  }

  lemma Perm4Twice(x: Block)
    ensures Perm4(Perm4(x)) == x
  {
    Bits4(x.r, x.l);
    var y := Perm4(x);
    assert y.r == High4(x.r, x.l) && y.l == Low4(x.r, x.l);
  }

  function Diff16(a: bv32, b: bv32): bv32 { ((a >> 16) ^ b) & 0x0000ffff }
  function High16(a: bv32, b: bv32): bv32 { a ^ (Diff16(a, b) << 16) }
  function Low16(a: bv32, b: bv32): bv32 { b ^ Diff16(a, b) }
  function Perm16(x: Block): Block { Block(High16(x.l, x.r), Low16(x.l, x.r)) }

  lemma Bits16(a: bv32, b: bv32)
    ensures High16(High16(a, b), Low16(a, b)) == a && Low16(High16(a, b), Low16(a, b)) == b
  {
  }

  lemma Perm16Twice(x: Block)
    ensures Perm16(Perm16(x)) == x
  {
    Bits16(x.l, x.r);
    var y := Perm16(x);
    assert y.l == High16(x.l, x.r) && y.r == Low16(x.l, x.r);
  }

  function Diff2(a: bv32, b: bv32): bv32 { ((a >> 2) ^ b) & 0x33333333 }
  function High2(a: bv32, b: bv32): bv32 { a ^ (Diff2(a, b) << 2) }
  function Low2(a: bv32, b: bv32): bv32 { b ^ Diff2(a, b) }
  function Perm2(x: Block): Block { Block(Low2(x.r, x.l), High2(x.r, x.l)) }

  lemma Bits2(a: bv32, b: bv32)
    ensures High2(High2(a, b), Low2(a, b)) == a && Low2(High2(a, b), Low2(a, b)) == b
  {
  }

  lemma Perm2Twice(x: Block)
    ensures Perm2(Perm2(x)) == x
  {
    Bits2(x.r, x.l);
    var y := Perm2(x);
    assert y.r == High2(x.r, x.l) && y.l == Low2(x.r, x.l);
  }

  function Diff8(a: bv32, b: bv32): bv32 { ((a >> 8) ^ b) & 0x00ff00ff }
  function High8(a: bv32, b: bv32): bv32 { a ^ (Diff8(a, b) << 8) }
  function Low8(a: bv32, b: bv32): bv32 { b ^ Diff8(a, b) }
  function Perm8(x: Block): Block { Block(High8(x.l, x.r), Low8(x.l, x.r)) }

  lemma Bits8(a: bv32, b: bv32)
    ensures High8(High8(a, b), Low8(a, b)) == a && Low8(High8(a, b), Low8(a, b)) == b
  {
  }

  lemma Perm8Twice(x: Block)
    ensures Perm8(Perm8(x)) == x
  {
    Bits8(x.l, x.r);
    var y := Perm8(x);
    assert y.l == High8(x.l, x.r) && y.r == Low8(x.l, x.r);
  }

  function Diff1(a: bv32, b: bv32): bv32 { ((a >> 1) ^ b) & 0x55555555 }
  function High1(a: bv32, b: bv32): bv32 { a ^ (Diff1(a, b) << 1) }
  function Low1(a: bv32, b: bv32): bv32 { b ^ Diff1(a, b) }
  function Perm1(x: Block): Block { Block(Low1(x.r, x.l), High1(x.r, x.l)) }

  lemma Bits1High(a: bv32, b: bv32)
    ensures High1(High1(a, b), Low1(a, b)) == a
  {
  }

  lemma Bits1Low(a: bv32, b: bv32)
    ensures Low1(High1(a, b), Low1(a, b)) == b
  {
  }

  lemma Perm1Twice(x: Block)
    ensures Perm1(Perm1(x)) == x
  {
    Bits1High(x.r, x.l);
    Bits1Low(x.r, x.l);
    var y := Perm1(x);
    assert y.r == High1(x.r, x.l) && y.l == Low1(x.r, x.l);
  }

  function IP(x: Block): Block { Perm1(Perm8(Perm2(Perm16(Perm4(x))))) }
  function FP(x: Block): Block { Perm4(Perm16(Perm2(Perm8(Perm1(x))))) }

  /** The final permutation undoes the initial one, and the other way round. */
  lemma PermutationsInverse(x: Block)
    ensures FP(IP(x)) == x
    ensures IP(FP(x)) == x
  {
    var a, b, c, d := Perm4(x), Perm16(Perm4(x)), Perm2(Perm16(Perm4(x))), Perm8(Perm2(Perm16(Perm4(x))));
    Perm1Twice(d);
    Perm8Twice(c);
    Perm2Twice(b);
    Perm16Twice(a);
    Perm4Twice(x);
    var e, f, g, h := Perm1(x), Perm8(Perm1(x)), Perm2(Perm8(Perm1(x))), Perm16(Perm2(Perm8(Perm1(x))));
    Perm4Twice(h);
    Perm16Twice(g);
    Perm2Twice(f);
    Perm8Twice(e);
    Perm1Twice(x);
  }

  function Roll(x: bv32): bv32 { (x << 1) | (x >> 31) }
  function Unroll(x: bv32): bv32 { (x << 31) | (x >> 1) }

  lemma RollInverse(x: bv32)
    ensures Unroll(Roll(x)) == x && Roll(Unroll(x)) == x
  {
  }

  function Mix(l: bv32, t: bv32): bv32 { l ^ t }

  lemma MixIsXor(l: bv32, t: bv32)
    ensures Mix(l, t) == l ^ t
  {
  }

  lemma MixTwice(l: bv32, t: bv32)
    ensures Mix(Mix(l, t), t) == l
  {
  }

  function Any(a: bv32, b: bv32, c: bv32, d: bv32, e: bv32, f: bv32, g: bv32, h: bv32): bv32 {
    b | d | f | h | a | c | e | g
  }

  /** Eight table look-ups, by the words combined with the two halves of the round key. */
  function LookUp(k: Key, u: bv32, w: bv32): bv32 {
    var t := (w >> 4) + (w << 28);
    Any(k.sp(0, u & 0x3f), k.sp(1, t & 0x3f), k.sp(2, (u >> 8) & 0x3f), k.sp(3, (t >> 8) & 0x3f),
        k.sp(4, (u >> 16) & 0x3f), k.sp(5, (t >> 16) & 0x3f), k.sp(6, (u >> 24) & 0x3f), k.sp(7, (t >> 24) & 0x3f))
  }

  /** The round function: the half block with two schedule words. */
  function F(k: Key, r: bv32, i: Place): bv32 {
    LookUp(k, Mix(r, k.s[i]), Mix(r, k.s[i + 1]))
  }

  /** A round function: a half block and the place in the schedule to a word. */
  type Round = (bv32, Place) -> bv32

  function RoundOf(k: Key): Round {
    (r: bv32, i: Place) => F(k, r, i)
  }

  /** One pass of the encryption loop: two rounds. */
  function EncStep(f: Round, i: nat, x: Block): Block
    requires i + 2 < 31
  {
    var l := Mix(x.l, f(x.r, i));
    Block(l, Mix(x.r, f(l, i + 2)))
  }

  /** One pass of the decryption loop: the same two rounds in reverse. */
  function DecStep(f: Round, i: nat, x: Block): Block
    requires i + 2 < 31
  {
    var l := Mix(x.l, f(x.r, i + 2));
    Block(l, Mix(x.r, f(l, i)))
  }

  /** Whatever the round function is, a step is undone by its counterpart on exchanged halves. */
  lemma StepsCancel(f: Round, i: nat, x: Block)
    requires i + 2 < 31
    ensures DecStep(f, i, EncStep(f, i, x).Swap()) == x.Swap()
    ensures EncStep(f, i, DecStep(f, i, x).Swap()) == x.Swap()
  {
    MixTwice(x.r, f(EncStep(f, i, x).l, i + 2));
    MixTwice(x.l, f(x.r, i));
    MixTwice(x.r, f(DecStep(f, i, x).l, i));
    MixTwice(x.l, f(x.r, i + 2));
  }

  /** Steps 0 to n - 1 of the encryption, in order; of the decryption, from the last to the first. */
  function EncRounds(f: Round, n: nat, x: Block): Block
    requires n <= 8
  {
    if n == 0 then x else EncStep(f, 4 * (n - 1), EncRounds(f, n - 1, x))
  }

  function DecRounds(f: Round, n: nat, x: Block): Block
    requires n <= 8
  {
    if n == 0 then x else DecRounds(f, n - 1, DecStep(f, 4 * (n - 1), x))
  }

  lemma {:induction false} RoundsCancel(f: Round, n: nat, x: Block)
    requires n <= 8
    ensures DecRounds(f, n, EncRounds(f, n, x).Swap()) == x.Swap()
    ensures EncRounds(f, n, DecRounds(f, n, x).Swap()) == x.Swap()
  {
    if n > 0 {
      var i := 4 * (n - 1);
      StepsCancel(f, i, EncRounds(f, n - 1, x));
      RoundsCancel(f, n - 1, x);
      StepsCancel(f, i, x);
      RoundsCancel(f, n - 1, DecStep(f, i, x));
    }
  }

  function Begin(x: Block): Block { Block(Roll(IP(x).r), Roll(IP(x).l)) }
  function End(x: Block): Block { FP(Block(Unroll(x.l), Unroll(x.r))) }

  lemma EndsCancel(x: Block)
    ensures Begin(End(x)) == x.Swap()
    ensures End(Begin(x).Swap()) == x
  {
    PermutationsInverse(Block(Unroll(x.l), Unroll(x.r)));
    PermutationsInverse(x);
    RollInverse(x.l);
    RollInverse(x.r);
    RollInverse(IP(x).l);
    RollInverse(IP(x).r);
  }

  // The cipher as its definition has it: bit by bit, and one round after another.

  function Bit(w: bv32, m: bv32): bv32
    requires m < 32
  {
    (w >> m) & 1
  }

  /** The bits of both words, those of the first one before those of the second one. */
  function BitOf(x: Block, m: bv32): bv32
    requires m < 64
  {
    if m < 32 then Bit(x.l, m) else Bit(x.r, m - 32)
  }

  /** The six bits from place p on, the first bit behind the last. */
  function Six(w: bv32, p: bv32): bv32 {
    Bit(w, p % 32) | (Bit(w, (p + 1) % 32) << 1) | (Bit(w, (p + 2) % 32) << 2)
    | (Bit(w, (p + 3) % 32) << 3) | (Bit(w, (p + 4) % 32) << 4) | (Bit(w, (p + 5) % 32) << 5)
  }

  lemma MaskIsSix(w: bv32, p: bv32)
    requires p == 0 || p == 8 || p == 16 || p == 24
    ensures (w >> p) & 0x3f == Six(w, p)
  {
  }

  lemma TurnedIsSix(w: bv32, p: bv32)
    requires p == 0 || p == 8 || p == 16 || p == 24
    ensures (((w >> 4) + (w << 28)) >> p) & 0x3f == Six(w, p + 4)
  {
  }

  /** The eight groups of six bits overlap; even tables use the first word, odd ones the second. */
  ghost function Groups(k: Key, u: bv32, w: bv32): bv32 {
    Any(k.sp(0, Six(u, 0)), k.sp(1, Six(w, 4)), k.sp(2, Six(u, 8)), k.sp(3, Six(w, 12)),
        k.sp(4, Six(u, 16)), k.sp(5, Six(w, 20)), k.sp(6, Six(u, 24)), k.sp(7, Six(w, 28)))
  }

  /** What the tables say of the groups of one word. */
  lemma EvenGroups(k: Key, u: bv32)
    ensures k.sp(0, u & 0x3f) == k.sp(0, Six(u, 0)) && k.sp(2, (u >> 8) & 0x3f) == k.sp(2, Six(u, 8))
    ensures k.sp(4, (u >> 16) & 0x3f) == k.sp(4, Six(u, 16)) && k.sp(6, (u >> 24) & 0x3f) == k.sp(6, Six(u, 24))
  {
    MaskIsSix(u, 0);
    MaskIsSix(u, 8);
    MaskIsSix(u, 16);
    MaskIsSix(u, 24);
  }

  lemma OddGroups(k: Key, w: bv32)
    ensures var t := (w >> 4) + (w << 28);
            && k.sp(1, t & 0x3f) == k.sp(1, Six(w, 4)) && k.sp(3, (t >> 8) & 0x3f) == k.sp(3, Six(w, 12))
            && k.sp(5, (t >> 16) & 0x3f) == k.sp(5, Six(w, 20)) && k.sp(7, (t >> 24) & 0x3f) == k.sp(7, Six(w, 28))
  {
    TurnedIsSix(w, 0);
    TurnedIsSix(w, 8);
    TurnedIsSix(w, 16);
    TurnedIsSix(w, 24);
  }

  lemma LookUpIs(k: Key, u: bv32, w: bv32)
    ensures LookUp(k, u, w) == Groups(k, u, w)
  {
    EvenGroups(k, u);
    OddGroups(k, w);
  }

  lemma FIsGroups(k: Key, r: bv32, i: Place, u: bv32, w: bv32)
    requires u == Mix(r, k.s[i]) && w == Mix(r, k.s[i + 1])
    ensures F(k, r, i) == Groups(k, u, w)
  {
    LookUpIs(k, u, w);
  }

  lemma AnyIsOr(a: bv32, b: bv32, c: bv32, d: bv32, e: bv32, f: bv32, g: bv32, h: bv32)
    ensures Any(a, b, c, d, e, f, g, h) == a | b | c | d | e | f | g | h
  {
  }

  /** The round function of the definition. */
  ghost function DesF(k: Key, r: bv32, i: Place): bv32 {
    Groups(k, Mix(r, k.s[i]), Mix(r, k.s[i + 1]))
  }

  lemma FIsDes(k: Key, r: bv32, i: Place)
    ensures F(k, r, i) == DesF(k, r, i)
  {
    FIsGroups(k, r, i, Mix(r, k.s[i]), Mix(r, k.s[i + 1]));
  }

  ghost function DesRound(k: Key): Round {
    (r: bv32, i: Place) => DesF(k, r, i)
  }

  ghost predicate SameRound(f: Round, g: Round) {
    forall r: bv32, i: Place :: f(r, i) == g(r, i)
  }

  lemma RoundIsDes(k: Key)
    ensures SameRound(RoundOf(k), DesRound(k))
  {
    forall r: bv32, i: Place ensures RoundOf(k)(r, i) == DesRound(k)(r, i) { FIsDes(k, r, i); }
  }

  /** n rounds: the halves change places, and one of them is combined with the round function of the other, up or down the schedule. */
  ghost function Feistel(f: Round, n: nat, up: bool, x: Block): Block
    requires n <= 16
  {
    if n == 0 then x else
      var y := Feistel(f, n - 1, up, x);
      Block(y.r, Mix(y.l, f(y.r, if up then 2 * (n - 1) else 2 * (16 - n))))
  }

  lemma {:induction false} FeistelSame(f: Round, g: Round, n: nat, up: bool, x: Block)
    requires n <= 16 && SameRound(f, g)
    ensures Feistel(f, n, up, x) == Feistel(g, n, up, x)
  {
    if n > 0 {
      FeistelSame(f, g, n - 1, up, x);
    }
  }

  /** Two rounds are one pass of the loop. */
  lemma TwoUp(f: Round, n: nat, x: Block)
    requires 0 < n <= 8
    ensures Feistel(f, 2 * n, true, x) == EncStep(f, 4 * (n - 1), Feistel(f, 2 * n - 2, true, x))
  {
    var y := Feistel(f, 2 * n - 2, true, x);
    assert Feistel(f, 2 * n - 1, true, x) == Block(y.r, Mix(y.l, f(y.r, 4 * (n - 1))));
  }

  lemma TwoDown(f: Round, n: nat, x: Block)
    requires n < 8
    ensures Feistel(f, 16 - 2 * n, false, x) == DecStep(f, 4 * n, Feistel(f, 14 - 2 * n, false, x))
  {
    var y := Feistel(f, 14 - 2 * n, false, x);
    assert Feistel(f, 15 - 2 * n, false, x) == Block(y.r, Mix(y.l, f(y.r, 4 * n + 2)));
  }

  lemma {:induction false} RoundsForward(f: Round, n: nat, x: Block)
    requires n <= 8
    ensures EncRounds(f, n, x) == Feistel(f, 2 * n, true, x)
  {
    if n > 0 {
      RoundsForward(f, n - 1, x);
      TwoUp(f, n, x);
    }
  }

  lemma {:induction false} RoundsBackward(f: Round, n: nat, x: Block)
    requires n <= 8
    ensures DecRounds(f, 8, x) == DecRounds(f, n, Feistel(f, 16 - 2 * n, false, x))
    decreases 8 - n
  {
    if n < 8 {
      RoundsBackward(f, n + 1, x);
      TwoDown(f, n, x);
    }
  }

  /** Where the bits of the two halves come from: the even and the odd bits of each byte, one place up. */
  lemma BeginLeft(x: Block, m: bv32)
    requires m < 32
    ensures 8 * (m & 7) + 2 * (m >> 3) < 63
    ensures Bit(Begin(x).l, (m + 1) % 32) == BitOf(x, 62 - 8 * (m & 7) - 2 * (m >> 3))
  {
  }

  lemma BeginRight(x: Block, m: bv32)
    requires m < 32
    ensures 8 * (m & 7) + 2 * (m >> 3) < 63
    ensures Bit(Begin(x).r, (m + 1) % 32) == BitOf(x, 63 - 8 * (m & 7) - 2 * (m >> 3))
  {
  }

  function Encrypt(f: Round, x: Block): Block { End(EncRounds(f, 8, Begin(x))) }
  function Decrypt(f: Round, x: Block): Block { End(DecRounds(f, 8, Begin(x))) }

  /** Decryption of a block undoes encryption, for every key schedule and every table. */
  lemma BlocksCancel(f: Round, x: Block)
    ensures Decrypt(f, Encrypt(f, x)) == x
    ensures Encrypt(f, Decrypt(f, x)) == x
  {
    var e, d := EncRounds(f, 8, Begin(x)), DecRounds(f, 8, Begin(x));
    EndsCancel(e);
    EndsCancel(d);
    RoundsCancel(f, 8, Begin(x));
    EndsCancel(x);
  }

  /** Both are sixteen rounds between a permutation and its inverse. */
  lemma CipherIs(k: Key, x: Block)
    ensures Begin(Encrypt(RoundOf(k), x)) == Feistel(DesRound(k), 16, true, Begin(x)).Swap()
    ensures Begin(Decrypt(RoundOf(k), x)) == Feistel(DesRound(k), 16, false, Begin(x)).Swap()
  {
    var f, a := RoundOf(k), Begin(x);
    RoundIsDes(k);
    RoundsForward(f, 8, a);
    RoundsBackward(f, 0, a);
    FeistelSame(f, DesRound(k), 16, true, a);
    FeistelSame(f, DesRound(k), 16, false, a);
    EndsCancel(EncRounds(f, 8, a));
    EndsCancel(DecRounds(f, 8, a));
  }

  /** The rounds of des_encrypt as they run forward. */
  method RunForward(f: Round, x: Block) returns (y: Block)
    ensures y == EncRounds(f, 8, x)
  {
    var l, r, i := x.l, x.r, 0;
    ghost var n := 0;
    while i < 32
      invariant 0 <= n <= 8 && i == 4 * n
      invariant Block(l, r) == EncRounds(f, n, x)
    {
      l := Mix(l, f(r, i));
      r := Mix(r, f(l, i + 2));
      i := i + 4;
      n := n + 1;
    }
    y := Block(l, r);
  }

  /** The rounds of des_encrypt as they run backward. */
  method RunBackward(f: Round, x: Block) returns (y: Block)
    ensures y == DecRounds(f, 8, x)
  {
    var l, r, i := x.l, x.r, 30;
    ghost var n := 8;
    while i > 0
      invariant 0 <= n <= 8 && i == 4 * n - 2
      invariant DecRounds(f, n, Block(l, r)) == DecRounds(f, 8, x)
    {
      l := Mix(l, f(r, i));
      r := Mix(r, f(l, i - 2));
      i := i - 4;
      n := n - 1;
    }
    y := Block(l, r);
  }

  /** The block y is what the sixteen rounds make of x. */
  ghost predicate IsDes(k: Key, encrypt: bool, x: Block, y: Block) {
    Begin(y) == Feistel(DesRound(k), 16, encrypt, Begin(x)).Swap()
  }

  lemma EndIsDes(k: Key, encrypt: bool, x: Block, y: Block)
    requires y == if encrypt then Encrypt(RoundOf(k), x) else Decrypt(RoundOf(k), x)
    ensures IsDes(k, encrypt, x, y)
  {
    CipherIs(k, x);
  }

  /** There is one such block, since the permutation can be undone. */
  lemma DesIsUnique(k: Key, encrypt: bool, x: Block, y: Block)
    requires IsDes(k, encrypt, x, y)
    ensures y == if encrypt then Encrypt(RoundOf(k), x) else Decrypt(RoundOf(k), x)
  {
    var z := if encrypt then Encrypt(RoundOf(k), x) else Decrypt(RoundOf(k), x);
    CipherIs(k, x);
    EndsCancel(y);
    EndsCancel(z);
  }

  /** des_encrypt: one block of two words, in place. */
  method DesEncrypt(buf: array<bv32>, k: Key, encrypt: bool)
    requires buf.Length == 2
    modifies buf
    ensures IsDes(k, encrypt, old(Block(buf[0], buf[1])), Block(buf[0], buf[1]))
  {
    var z := Crypt(Block(buf[0], buf[1]), k, encrypt);
    buf[0], buf[1] := z.l, z.r;
  }

  method Crypt(x: Block, k: Key, encrypt: bool) returns (z: Block)
    ensures IsDes(k, encrypt, x, z)
  {
    var y;
    if encrypt {
      y := RunForward(RoundOf(k), Begin(x));
    } else {
      y := RunBackward(RoundOf(k), Begin(x));
    }
    z := End(y);
    EndIsDes(k, encrypt, x, z);
  }
}
