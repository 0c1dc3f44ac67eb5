/**
 Property data: changes and reads by clients of either byte order. Data is kept in the
 server's order; a client of the other order has the bytes of every unit reversed on the way
 in and on the way out.
 */
module Property {
  import opened Basics
  import opened Bytes
  import opened Modular

  type Data = seq<Byte>

  const WORD: nat := 0x1_0000_0000

  /** Bytes per unit; 0 for an illegal format. */
  function Factor(format: nat): (f: nat)
    ensures f == 0 || Unit(f)
  {
    if format == 8 then 1 else if format == 16 then 2 else if format == 32 then 4 else 0
  }

  predicate Unit(f: nat) {
    f == 1 || f == 2 || f == 4
  }

  /** Whole units. */
  predicate Whole(n: nat, f: nat) {
    Unit(f) && n % f == 0
  }

  /** The place of byte i when every unit is reversed. */
  function Mirror(i: nat, f: nat): (j: nat)
    requires Unit(f)
  {
    i - i % f + (f - 1 - i % f)
  }

  lemma MirrorFits(i: nat, f: nat, n: nat)
    requires Whole(n, f) && i < n
    ensures Mirror(i, f) < n && Mirror(Mirror(i, f), f) == i
  {
    GroupBelow(i, n, f);
    DivModUnique(Mirror(i, f), f, i / f, f - 1 - i % f);
  }

  lemma AllMirrors(f: nat, n: nat)
    requires Whole(n, f)
    ensures forall i {:trigger Mirror(i, f)} | 0 <= i < n :: Mirror(i, f) < n && Mirror(Mirror(i, f), f) == i
  {
    forall i {:trigger Mirror(i, f)} | 0 <= i < n ensures Mirror(i, f) < n && Mirror(Mirror(i, f), f) == i { MirrorFits(i, f, n); }
  }

  /** Every unit with its bytes in reverse order. */
  function Swapped(x: Data, f: nat): (r: Data)
    requires Whole(|x|, f)
    ensures |r| == |x| && forall i | 0 <= i < |x| :: Mirror(i, f) < |x| && r[i] == x[Mirror(i, f)]
  {
    AllMirrors(f, |x|);
    seq(|x|, i requires 0 <= i < |x| && Mirror(i, f) < |x| => x[Mirror(i, f)])
  }

  lemma SwapTwice(x: Data, f: nat)
    requires Whole(|x|, f)
    ensures Swapped(Swapped(x, f), f) == x
  {
    forall i | 0 <= i < |x| ensures Mirror(Mirror(i, f), f) == i { MirrorFits(i, f, |x|); }
  }

  /** What a client sees of data in the server's order, and the other way round. */
  function Wire(x: Data, f: nat, swap: bool): (r: Data)
    requires Whole(|x|, f)
    ensures |r| == |x|
  {
    if swap && f != 1 then Swapped(x, f) else x
  }

  lemma WireTwice(x: Data, f: nat, swap: bool)
    requires Whole(|x|, f)
    ensures Wire(Wire(x, f, swap), f, swap) == x
  {
    if swap && f != 1 { SwapTwice(x, f); }
  }

  // The same unit by unit, as the protocol has it.

  ghost predicate Pair(x: Data, y: Data, q: nat)
    requires 2 * q + 1 < |x| == |y|
  {
    y[2 * q] == x[2 * q + 1] && y[2 * q + 1] == x[2 * q]
  }

  ghost predicate Quad(x: Data, y: Data, q: nat)
    requires 4 * q + 3 < |x| == |y|
  {
    && y[4 * q] == x[4 * q + 3] && y[4 * q + 1] == x[4 * q + 2]
    && y[4 * q + 2] == x[4 * q + 1] && y[4 * q + 3] == x[4 * q]
  }

  /** The units of x and y are the same numbers, their bytes in one order or in opposite ones. */
  ghost predicate SameUnits(x: Data, y: Data, format: nat, swap: bool) {
    && |y| == |x|
    && if !swap || format == 8 then y == x
       else if format == 16 then forall q: nat | 2 * q + 1 < |x| :: Pair(x, y, q)
       else forall q: nat | 4 * q + 3 < |x| :: Quad(x, y, q)
  }

  lemma MirrorShift(i: nat, f: nat, a: nat)
    requires Whole(a, f)
    ensures Mirror(a + i, f) == a + Mirror(i, f)
  {
    var q := a / f;
    assert a == f * q;
    ModShift(i, f, q);
  }

  /** The byte at t of the unit that begins at a. */
  lemma SwapByte(x: Data, f: nat, a: nat, t: nat)
    requires Whole(|x|, f) && Whole(a, f) && t < f && a + t < |x|
    ensures a + (f - 1 - t) < |x| && Swapped(x, f)[a + t] == x[a + (f - 1 - t)]
  {
    MirrorIn(f, a, t);
    SwappedAt(x, f, a + t, a + (f - 1 - t));
  }

  lemma SwapPair(x: Data, q: nat)
    requires Whole(|x|, 2) && 2 * q + 1 < |x|
    ensures Pair(x, Swapped(x, 2), q)
  {
    SwapByte(x, 2, 2 * q, 0);
    SwapByte(x, 2, 2 * q, 1);
  }

  lemma SwapQuad(x: Data, q: nat)
    requires Whole(|x|, 4) && 4 * q + 3 < |x|
    ensures Quad(x, Swapped(x, 4), q)
  {
    SwapByte(x, 4, 4 * q, 0);
    SwapByte(x, 4, 4 * q, 1);
    SwapByte(x, 4, 4 * q, 2);
    SwapByte(x, 4, 4 * q, 3);
  }

  lemma MirrorIn(f: nat, a: nat, t: nat)
    requires Whole(a, f) && t < f
    ensures Mirror(a + t, f) == a + (f - 1 - t)
  {
    MirrorShift(t, f, a);
    DivModUnique(t, f, 0, t);
  }

  lemma WireUnits(x: Data, format: nat, swap: bool)
    requires Whole(|x|, Factor(format))
    ensures SameUnits(x, Wire(x, Factor(format), swap), format, swap)
  {
    if swap && format == 16 {
      forall q: nat | 2 * q + 1 < |x| ensures Pair(x, Swapped(x, 2), q) { SwapPair(x, q); }
    }
    if swap && format == 32 {
      forall q: nat | 4 * q + 3 < |x| ensures Quad(x, Swapped(x, 4), q) { SwapQuad(x, q); }
    }
  }

  lemma SwapAt(x: Data, f: nat, a: nat, b: nat, i: nat)
    requires a <= b <= |x| && Whole(|x|, f) && Whole(a, f) && Whole(b - a, f) && i < b - a
    ensures Swapped(x[a..b], f)[i] == Swapped(x, f)[a + i]
  {
    MirrorFits(i, f, b - a);
    SwapInside(x, x[a..b], f, a, i, Mirror(i, f));
    SwapOutside(x, f, a, i, Mirror(i, f));
  }

  lemma SwapInside(x: Data, y: Data, f: nat, a: nat, i: nat, m: nat)
    requires a + |y| <= |x| && y == x[a..a + |y|] && Whole(|y|, f) && i < |y| && m == Mirror(i, f)
    ensures m < |y| && Swapped(y, f)[i] == x[a + m]
  {
    SwappedAt(y, f, i, m);
  }

  lemma SwapOutside(x: Data, f: nat, a: nat, i: nat, m: nat)
    requires Whole(|x|, f) && Whole(a, f) && a + i < |x| && m == Mirror(i, f)
    ensures a + m < |x| && Swapped(x, f)[a + i] == x[a + m]
  {
    MirrorShift(i, f, a);
    SwappedAt(x, f, a + i, a + m);
  }

  lemma SwappedAt(x: Data, f: nat, i: nat, m: nat)
    requires Whole(|x|, f) && i < |x| && m == Mirror(i, f)
    ensures m < |x| && Swapped(x, f)[i] == x[m]
  {
  }

  lemma SwapSlice(x: Data, f: nat, a: nat, b: nat)
    requires a <= b <= |x| && Whole(|x|, f) && Whole(a, f) && Whole(b - a, f)
    ensures Swapped(x[a..b], f) == Swapped(x, f)[a..b]
  {
    var l, r := Swapped(x[a..b], f), Swapped(x, f)[a..b];
    forall i | 0 <= i < b - a ensures l[i] == r[i] { SwapAt(x, f, a, b, i); }
  }

  lemma WireSlice(x: Data, f: nat, swap: bool, a: nat, b: nat)
    requires Whole(|x|, f) && Whole(a, f) && Whole(b, f) && a <= b <= |x|
    ensures Whole(b - a, f) && Wire(x[a..b], f, swap) == Wire(x, f, swap)[a..b]
  {
    Multiples(a, b, f);
    SwapSlice(x, f, a, b);
  }

  /** The modes of the protocol, and one it does not know: junk is what the new memory held before. */
  datatype Mode = Replace | Prepend | Append | Other(junk: Data)
  datatype Status = Success | BadAtom | BadValue | BadMatch | BadAlloc

  datatype Prop = Prop(kind: nat, format: nat, data: Data)

  datatype Reply = Reply(kind: nat, format: nat, bytesAfter: nat, nItems: nat, data: Data)

  /** What a change makes of the data. */
  function Combined(mode: Mode, have: Data, x: Data): Data {
    match mode
    case Replace => x
    case Prepend => x + have
    case Append => have + x
    case Other(junk) => x + junk
  }

  /** The old data stays where it was, before or behind the new value, or nothing of it does. */
  ghost predicate Edited(mode: Mode, have: Data, value: Data, data: Data, format: nat, swap: bool) {
    match mode
    case Replace => SameUnits(value, data, format, swap)
    case Prepend => |data| == |value| + |have| && SameUnits(value, data[..|value|], format, swap) && data[|value|..] == have
    case Append => |data| == |have| + |value| && data[..|have|] == have && SameUnits(value, data[|have|..], format, swap)
    case Other(junk) => |data| == |value| + |junk| && SameUnits(value, data[..|value|], format, swap) && data[|value|..] == junk
  }

  lemma CombinedEdits(mode: Mode, have: Data, value: Data, format: nat, swap: bool)
    requires Whole(|value|, Factor(format))
    ensures Edited(mode, have, value, Combined(mode, have, Wire(value, Factor(format), swap)), format, swap)
  {
    var x := Wire(value, Factor(format), swap);
    WireUnits(value, format, swap);
    var data := Combined(mode, have, x);
    match mode
    case Replace =>
    case Prepend => assert data[..|value|] == x;
    case Append => assert data[|have|..] == x;
    case Other(junk) => assert data[..|value|] == x;
  }

  lemma CombinedWhole(mode: Mode, have: Data, x: Data, f: nat)
    requires Whole(|x|, f) && (mode.Other? ==> |mode.junk| == |have|)
    ensures |Combined(mode, have, x)| <= |have| + |x|
    ensures mode == Replace || Whole(|have|, f) ==> Whole(|Combined(mode, have, x)|, f)
  {
    if Whole(|have|, f) { Multiples(|x|, |have|, f); }
  }

  /** The byte count the server computes in 32-bit words. */
  function Len(longLength: nat, offs: nat, length: nat): nat {
    var end := (longLength * 4 % WORD + offs) % WORD;
    ((if end <= length then end else length) - offs) % WORD
  }

  /** The one the protocol asks for. */
  function Asked(longLength: nat, offs: nat, length: nat): nat
    requires offs <= length
  {
    if longLength * 4 <= length - offs then longLength * 4 else length - offs
  }

  /** The sum does not overflow, or it does and still is not below the length. */
  predicate InRange(longLength: nat, offs: nat, length: nat) {
    longLength * 4 + offs < WORD || (longLength * 4 + offs) % WORD >= length
  }

  lemma LenExact(longLength: nat, offs: nat, length: nat)
    requires offs <= length < WORD && longLength < WORD
    ensures Len(longLength, offs, length) == Asked(longLength, offs, length) <==> InRange(longLength, offs, length)
  {
    assert (longLength * 4 % WORD + offs) % WORD == (longLength * 4 + offs) % WORD;
  }

  /** The usual request for everything fails when it starts behind the beginning. */
  lemma LenExample()
    ensures Len(0x3FFF_FFFF, 4, 100) == WORD - 4 && Asked(0x3FFF_FFFF, 4, 100) == 96
  {
  }

  lemma NoOverflow(longLength: nat, offset: nat, length: nat)
    requires longLength * 4 + length < WORD && offset * 4 <= length
    ensures offset * 4 % WORD == offset * 4 && InRange(longLength, offset * 4, length)
  {
  }

  /** Every stored property has a legal format and whole units. */
  ghost predicate Sound(props: map<nat, Prop>) {
    forall a | a in props :: Whole(|props[a].data|, Factor(props[a].format)) && |props[a].data| < WORD
  }

  /** The first k bytes have been copied. */
  ghost predicate Copied(src: Data, f: nat, dst: Data, k: nat) {
    && Whole(k, f) && |dst| == k <= |src|
    && forall i {:trigger dst[i]} | 0 <= i < k :: Mirror(i, f) < |src| && dst[i] == src[Mirror(i, f)]
  }

  lemma CopyUnit(src: Data, f: nat, dst: Data, k: nat, unit: Data)
    requires Whole(|src|, f) && Copied(src, f, dst, k) && k < |src| && |unit| == f && k + f <= |src|
    requires forall j | 0 <= j < f :: unit[j] == src[k + f - 1 - j]
    ensures Copied(src, f, dst + unit, k + f)
  {
    Multiples(k, f, f);
    var dst' := dst + unit;
    forall i {:trigger dst'[i]} | 0 <= i < k + f ensures Mirror(i, f) < |src| && dst'[i] == src[Mirror(i, f)] {
      if i < k { assert dst'[i] == dst[i]; } else { MirrorIn(f, k, i - k); }
    }
  }

  lemma NextUnit(src: Data, f: nat, k: nat)
    requires Whole(|src|, f) && Whole(k, f) && k < |src|
    ensures k + f <= |src|
  {
    GroupBelow(k, |src|, f);
  }

  lemma CopiedAll(src: Data, f: nat, dst: Data)
    requires Whole(|src|, f) && Copied(src, f, dst, |src|)
    ensures dst == Swapped(src, f)
  {
  }

  /** The loops over CARD16 and CARD32 units. */
  method SwapCopy(src: Data, f: nat) returns (dst: Data)
    requires Whole(|src|, f) && f != 1
    ensures dst == Swapped(src, f)
  {
    dst := [];
    var k: nat := 0;
    while k < |src|
      invariant Copied(src, f, dst, k)
      decreases |src| - k
    {
      NextUnit(src, f, k);
      var unit := if f == 2 then [src[k + 1], src[k]] else [src[k + 3], src[k + 2], src[k + 1], src[k]];
      CopyUnit(src, f, dst, k, unit);
      dst := dst + unit;
      k := k + f;
    }
    CopiedAll(src, f, dst);
  }

  /** Data as it goes to or comes from a client. */
  method Transfer(src: Data, f: nat, swap: bool) returns (dst: Data)
    requires Whole(|src|, f)
    ensures dst == Wire(src, f, swap)
  {
    if !swap || f == 1 {
      return src;
    }
    dst := SwapCopy(src, f);
  }

  /** What is asked for ends at a unit. */
  lemma PartWhole(longLength: nat, offs: nat, length: nat, f: nat)
    requires Whole(length, f) && Whole(offs, 4) && offs <= length
    ensures Whole(Asked(longLength, offs, length), f) && Whole(offs, f)
  {
    Words(longLength, f);
    Words(offs / 4, f);
    assert offs / 4 * 4 == offs;
    Multiples(offs, length, f);
  }

  /** Four bytes are whole units of every size. */
  lemma Words(n: nat, f: nat)
    requires Unit(f)
    ensures n * 4 % f == 0
  {
    DivModUnique(n * 4, f, n * (4 / f), 0);
  }

  /** The reply to a request for part of a property that exists. */
  function Answer(p: Prop, swap: bool, kind: nat, offs: nat, longLength: nat): (r: Reply)
    requires Whole(|p.data|, Factor(p.format)) && Whole(offs, 4) && offs <= |p.data|
  {
    if kind != 0 && kind != p.kind then Reply(p.kind, p.format, |p.data|, 0, [])
    else
      var f, n := Factor(p.format), Asked(longLength, offs, |p.data|);
      PartWhole(longLength, offs, |p.data|, f);
      Reply(p.kind, p.format, |p.data| - offs - n, n / f, Wire(p.data[offs..offs + n], f, swap))
  }

  /**
   The reply in the protocol's terms: I = 4 * long-offset bytes are skipped, of the T = N - I that
   remain L = min(T, 4 * long-length) are returned, and A = N - (I + L) are left.
   */
  ghost predicate Answered(p: Prop, swap: bool, kind: nat, skip: nat, longLength: nat, r: Reply) {
    && r.kind == p.kind && r.format == p.format
    && if kind != 0 && kind != p.kind then
         r.bytesAfter == |p.data| && r.nItems == 0 && r.data == []
       else
         && skip + |r.data| + r.bytesAfter == |p.data|
         && |r.data| == Min(|p.data| - skip, 4 * longLength)
         && 8 * |r.data| == p.format * r.nItems
         && SameUnits(p.data[skip..skip + |r.data|], r.data, p.format, swap)
  }

  lemma AnswerIs(p: Prop, swap: bool, kind: nat, skip: nat, longLength: nat)
    requires Whole(|p.data|, Factor(p.format)) && Whole(skip, 4) && skip <= |p.data|
    ensures Answered(p, swap, kind, skip, longLength, Answer(p, swap, kind, skip, longLength))
  {
    if kind == 0 || kind == p.kind {
      var n := Asked(longLength, skip, |p.data|);
      PartIs(p, swap, skip, longLength, n);
      AnswerParts(p, swap, kind, skip, longLength, n);
    }
  }

  lemma AnswerParts(p: Prop, swap: bool, kind: nat, skip: nat, longLength: nat, n: nat)
    requires Whole(|p.data|, Factor(p.format)) && Whole(skip, 4) && skip <= |p.data| && (kind == 0 || kind == p.kind)
    requires n == Asked(longLength, skip, |p.data|) && Whole(n, Factor(p.format))
    ensures Answer(p, swap, kind, skip, longLength)
         == Reply(p.kind, p.format, |p.data| - skip - n, n / Factor(p.format), Wire(p.data[skip..skip + n], Factor(p.format), swap))
  {
  }

  lemma PartIs(p: Prop, swap: bool, skip: nat, longLength: nat, n: nat)
    requires Whole(|p.data|, Factor(p.format)) && Whole(skip, 4) && skip <= |p.data|
    requires n == Asked(longLength, skip, |p.data|)
    ensures Whole(n, Factor(p.format)) && n == Min(|p.data| - skip, 4 * longLength) && 8 * n == p.format * (n / Factor(p.format))
    ensures SameUnits(p.data[skip..skip + n], Wire(p.data[skip..skip + n], Factor(p.format), swap), p.format, swap)
  {
    PartWhole(longLength, skip, |p.data|, Factor(p.format));
    UnitCount(n, p.format);
    WireUnits(p.data[skip..skip + n], p.format, swap);
  }

  lemma UnitCount(n: nat, format: nat)
    requires Whole(n, Factor(format))
    ensures 8 * n == format * (n / Factor(format))
  {
  }

  /** The protocol deletes what was read to the end; the server also deletes what has no data at all. */
  lemma DeleteExact(p: Prop, swap: bool, kind: nat, offs: nat, longLength: nat)
    requires Whole(|p.data|, Factor(p.format)) && Whole(offs, 4) && offs <= |p.data|
    ensures var r := Answer(p, swap, kind, offs, longLength);
            (r.bytesAfter == 0 <==> (kind == 0 || kind == p.kind) && r.bytesAfter == 0)
            <==> (kind == 0 || kind == p.kind || |p.data| > 0)
  {
  }

  class Properties {
    var props: map<nat, Prop>

    ghost predicate Valid()
      reads this
    {
      Sound(props)
    }

    constructor ()
      ensures Valid() && props == map[]
    {
      props := map[];
    }

    /** RQ_ChangeProperty on a window; `memory` says whether malloc succeeds. */
    method Change(atom: nat, kind: nat, format: nat, mode: Mode, data: Data, swap: bool, atoms: nat, memory: bool)
      returns (status: Status)
      requires Valid()
      requires Factor(format) != 0 ==> Whole(|data|, Factor(format))
      requires |data| + (if atom in props then |props[atom].data| else 0) < WORD
      requires mode.Other? ==> |mode.junk| == if atom in props then |props[atom].data| else 0
      modifies this
      ensures Valid()
      ensures status == (if !(0 < atom <= atoms) || !(0 < kind <= atoms) then BadAtom
                         else if format != 8 && format != 16 && format != 32 then BadValue
                         else if atom in old(props) && mode != Replace
                                 && (kind != old(props)[atom].kind || format != old(props)[atom].format) then BadMatch
                         else if !memory then BadAlloc
                         else Success)
      ensures status != Success ==> props == old(props)
      ensures status == Success ==>
                var have := if atom in old(props) then old(props)[atom].data else [];
                && props == old(props)[atom := Prop(kind, format, Combined(mode, have, Wire(data, Factor(format), swap)))]
                && Edited(mode, have, data, props[atom].data, format, swap)
    {
      var f := Factor(format);
      if !(0 < atom <= atoms) || !(0 < kind <= atoms) {
        return BadAtom;
      }
      if f == 0 {
        return BadValue;
      }
      if atom in props && mode != Replace && (kind != props[atom].kind || format != props[atom].format) {
        return BadMatch;
      }
      var have := if atom in props then props[atom].data else [];
      var how := if |have| > 0 then mode else Replace;
      if !memory {
        return BadAlloc;
      }
      var new' := Transfer(data, f, swap);
      if how == Prepend {
        new' := new' + have;
      } else if how == Append {
        new' := have + new';
      } else if how.Other? {
        new' := new' + how.junk;
      }
      assert new' == Combined(mode, have, Wire(data, f, swap));
      CombinedWhole(mode, have, Wire(data, f, swap), f);
      CombinedEdits(mode, have, data, format, swap);
      props := props[atom := Prop(kind, format, new')];
      return Success;
    }

    /** RQ_GetProperty on a window. */
    method Get(atom: nat, kind: nat, longOffset: nat, longLength: nat, delete: bool, swap: bool, atoms: nat)
      returns (status: Status, r: Reply)
      requires Valid() && longLength < WORD
      requires atom in props ==> InRange(longLength, longOffset * 4 % WORD, |props[atom].data|)
      modifies this
      ensures Valid()
      ensures status == (if !(0 < atom <= atoms) then BadAtom
                         else if atom in old(props) && longOffset * 4 % WORD > |old(props)[atom].data| then BadValue
                         else Success)
      ensures status == Success && atom in old(props) ==>
                r == Answer(old(props)[atom], swap, kind, longOffset * 4 % WORD, longLength)
      ensures status == Success && atom !in old(props) ==> r == Reply(0, 0, 0, 0, [])
      ensures props == if status == Success && delete && r.bytesAfter == 0 then old(props) - {atom} else old(props)
    {
      var offs := longOffset * 4 % WORD;
      r := Reply(0, 0, 0, 0, []);
      if !(0 < atom <= atoms) {
        return BadAtom, r;
      }
      if atom in props && offs > |props[atom].data| {
        return BadValue, r;
      }
      status := Success;
      if atom !in props {
        return;
      }
      var p := props[atom];
      if kind != 0 && kind != p.kind {
        r := Reply(p.kind, p.format, |p.data|, 0, []);
      } else {
        r := Read(p, offs, longLength, swap);
      }
      if delete && r.bytesAfter == 0 {
        props := props - {atom};
      }
    }
  }

  /** A reply holds a slice of what the client would get at once. */
  lemma PieceIsSlice(p: Prop, swap: bool, kind: nat, offs: nat, longLength: nat)
    requires Whole(|p.data|, Factor(p.format)) && Whole(offs, 4) && offs <= |p.data|
    requires kind == 0 || kind == p.kind
    ensures var n := Asked(longLength, offs, |p.data|);
            && Answer(p, swap, kind, offs, longLength).bytesAfter == |p.data| - offs - n
            && Answer(p, swap, kind, offs, longLength).data == Wire(p.data, Factor(p.format), swap)[offs..offs + n]
  {
    var f, n := Factor(p.format), Asked(longLength, offs, |p.data|);
    PartWhole(longLength, offs, |p.data|, f);
    SumWhole(offs, n, f);
    WireSlice(p.data, f, swap, offs, offs + n);
  }

  lemma Glue(all: Data, a: nat, b: nat)
    requires a <= b <= |all|
    ensures all[..a] + all[a..b] == all[..b] && (b == |all| ==> all[..b] == all)
  {
  }

  /** One piece of a sequence of reads. */
  lemma NextPiece(p: Prop, swap: bool, kind: nat, offs: nat, longLength: nat)
    requires Whole(|p.data|, Factor(p.format)) && Whole(offs, 4) && offs <= |p.data|
    requires kind == 0 || kind == p.kind
    ensures var r, all := Answer(p, swap, kind, offs, longLength), Wire(p.data, Factor(p.format), swap);
            && (r.bytesAfter > 0 ==> offs + longLength * 4 <= |p.data| && all[..offs] + r.data == all[..offs + longLength * 4])
            && (r.bytesAfter == 0 ==> all[..offs] + r.data == all)
  {
    PieceIsSlice(p, swap, kind, offs, longLength);
    Glue(Wire(p.data, Factor(p.format), swap), offs, offs + Asked(longLength, offs, |p.data|));
  }

  lemma SumWhole(a: nat, b: nat, f: nat)
    requires Whole(a, f) && Whole(b, f)
    ensures Whole(a + b, f)
  {
    Multiples(a, b, f);
  }

  /** Reads at successive offsets until nothing is left put the data together again. */
  method Reassemble(w: Properties, atom: nat, kind: nat, longLength: nat, swap: bool, atoms: nat) returns (all: Data)
    requires w.Valid() && 0 < atom <= atoms && atom in w.props && (kind == 0 || kind == w.props[atom].kind)
    requires longLength > 0 && longLength * 4 + |w.props[atom].data| < WORD
    modifies w
    ensures w.props == old(w.props) && all == Wire(w.props[atom].data, Factor(w.props[atom].format), swap)
  {
    var offset: nat := 0;
    var more := true;
    all := [];
    ghost var p := w.props[atom];
    ghost var whole := Wire(p.data, Factor(p.format), swap);
    while more
      invariant w.Valid() && w.props == old(w.props)
      invariant more ==> offset * 4 <= |p.data| && all == whole[..offset * 4]
      invariant !more ==> all == whole
      decreases more, |p.data| - offset * 4
    {
      NextPiece(p, swap, kind, offset * 4, longLength);
      NoOverflow(longLength, offset, |p.data|);
      var status, r := w.Get(atom, kind, offset, longLength, false, swap, atoms);
      all := all + r.data;
      offset := offset + longLength;
      more := r.bytesAfter > 0;
    }
  }

  /** A change as its client means it. */
  datatype Edit = Edit(mode: Mode, swap: bool, value: Data)

  function Meaning(edits: seq<Edit>): Data {
    if edits == [] then [] else
      var last := edits[|edits| - 1];
      Combined(last.mode, Meaning(edits[..|edits| - 1]), last.value)
  }

  // The same from the first edit on: what is put before and behind.

  ghost function Fronts(edits: seq<Edit>): Data {
    if edits == [] then [] else Fronts(edits[1..]) + if edits[0].mode == Prepend then edits[0].value else []
  }

  ghost function Backs(edits: seq<Edit>): Data {
    if edits == [] then [] else (if edits[0].mode == Append then edits[0].value else []) + Backs(edits[1..])
  }

  /** These edits add to what there is. */
  ghost predicate Adding(edits: seq<Edit>) {
    forall e <- edits :: e.mode == Prepend || e.mode == Append
  }

  /** From edit k on there is only what it and the later ones say. */
  ghost predicate StartsAt(edits: seq<Edit>, k: nat) {
    k < |edits| && edits[k].mode == Replace && Adding(edits[k + 1..])
  }

  lemma {:induction false} EndsLast(edits: seq<Edit>, last: Edit)
    ensures Fronts(edits + [last]) == (if last.mode == Prepend then last.value else []) + Fronts(edits)
    ensures Backs(edits + [last]) == Backs(edits) + if last.mode == Append then last.value else []
  {
    if edits == [] {
      assert [last][1..] == [];
    } else {
      assert (edits + [last])[1..] == edits[1..] + [last];
      EndsLast(edits[1..], last);
    }
  }

  /** Additions to the meaning of earlier edits, last appended behind and last prepended before. */
  lemma {:induction false} MeaningAdds(edits: seq<Edit>, more: seq<Edit>)
    requires Adding(more)
    ensures Meaning(edits + more) == Fronts(more) + Meaning(edits) + Backs(more)
  {
    if more == [] {
      assert edits + more == edits;
      assert [] + Meaning(edits) + [] == Meaning(edits);
    } else {
      var n := |more| - 1;
      var front, last := more[..n], more[n];
      assert more == front + [last] && last in more && Adding(front);
      MeaningAdds(edits, front);
      MeaningLast(edits + front, last);
      assert edits + more == edits + front + [last];
      EndsLast(front, last);
      OneMore(Fronts(front), Meaning(edits), Backs(front), last);
    }
  }

  lemma MeaningLast(edits: seq<Edit>, last: Edit)
    ensures Meaning(edits + [last]) == Combined(last.mode, Meaning(edits), last.value)
  {
    assert (edits + [last])[..|edits|] == edits;
  }

  lemma OneMore(f: Data, m: Data, b: Data, last: Edit)
    requires last.mode == Prepend || last.mode == Append
    ensures Combined(last.mode, f + m + b, last.value)
         == ((if last.mode == Prepend then last.value else []) + f) + m + (b + if last.mode == Append then last.value else [])
  {
    if last.mode == Append {
      assert [] + f == f;
    } else {
      assert b + [] == b;
    }
  }

  /** What the edits from a replacement on, or all of them, put together. */
  lemma MeaningIs(edits: seq<Edit>, k: nat)
    ensures Adding(edits) ==> Meaning(edits) == Fronts(edits) + Backs(edits)
    ensures StartsAt(edits, k) ==> Meaning(edits) == Fronts(edits[k + 1..]) + edits[k].value + Backs(edits[k + 1..])
  {
    if Adding(edits) {
      MeaningAdds([], edits);
      assert [] + edits == edits && Fronts(edits) + [] == Fronts(edits);
    }
    if StartsAt(edits, k) {
      assert edits == edits[..k + 1] + edits[k + 1..];
      MeaningAdds(edits[..k + 1], edits[k + 1..]);
    }
  }

  ghost function Total(edits: seq<Edit>): nat {
    if edits == [] then 0 else Total(edits[..|edits| - 1]) + |edits[|edits| - 1].value|
  }

  lemma {:induction false} Bounded(edits: seq<Edit>, k: nat)
    requires k <= |edits| && forall e <- edits :: !e.mode.Other?
    ensures |Meaning(edits[..k])| <= Total(edits[..k]) <= Total(edits)
    ensures k < |edits| ==> Total(edits[..k]) + |edits[k].value| <= Total(edits)
    decreases |edits|, k
  {
    if k < |edits| {
      var front := edits[..|edits| - 1];
      assert front[..k] == edits[..k] && forall e <- front :: e in edits;
      Bounded(front, k);
    } else {
      assert edits[..k] == edits;
      if k > 0 { Bounded(edits, k - 1); }
    }
  }

  /**
   Whatever edits clients of any byte order make, a client of any byte order reads what
   they mean, in pieces of any size.
   */
  method EditAndRead(w: Properties, atom: nat, kind: nat, format: nat, edits: seq<Edit>, longLength: nat, swap: bool, atoms: nat)
    returns (all: Data)
    requires w.Valid() && 0 < atom <= atoms && 0 < kind <= atoms && atom !in w.props && |edits| > 0
    requires Factor(format) != 0 && (forall e <- edits :: !e.mode.Other? && Whole(|e.value|, Factor(format)))
    requires longLength > 0 && longLength * 4 + Total(edits) < WORD
    modifies w
    ensures Whole(|Meaning(edits)|, Factor(format)) && all == Wire(Meaning(edits), Factor(format), swap)
    ensures Adding(edits) ==> SameUnits(Fronts(edits) + Backs(edits), all, format, swap)
    ensures forall k: nat | StartsAt(edits, k) ::
              SameUnits(Fronts(edits[k + 1..]) + edits[k].value + Backs(edits[k + 1..]), all, format, swap)
  {
    var f := Factor(format);
    var k: nat := 0;
    while k < |edits|
      invariant k <= |edits| && w.Valid() && (atom in w.props <==> k > 0)
      invariant k > 0 ==> w.props[atom] == Prop(kind, format, Meaning(edits[..k]))
    {
      var e := edits[k];
      assert e in edits;
      Bounded(edits, k);
      assert edits[..k + 1][..k] == edits[..k];
      WireTwice(e.value, f, e.swap);
      var status := w.Change(atom, kind, format, e.mode, Wire(e.value, f, e.swap), e.swap, atoms, true);
      k := k + 1;
    }
    assert edits[..k] == edits;
    Bounded(edits, k);
    all := Reassemble(w, atom, kind, longLength, swap, atoms);
    Readable(edits, all, format, swap);
  }

  /** What was read, by what the edits put where. */
  lemma Readable(edits: seq<Edit>, all: Data, format: nat, swap: bool)
    requires Whole(|Meaning(edits)|, Factor(format)) && all == Wire(Meaning(edits), Factor(format), swap)
    ensures Adding(edits) ==> SameUnits(Fronts(edits) + Backs(edits), all, format, swap)
    ensures forall k: nat | StartsAt(edits, k) ::
              SameUnits(Fronts(edits[k + 1..]) + edits[k].value + Backs(edits[k + 1..]), all, format, swap)
  {
    WireUnits(Meaning(edits), format, swap);
    MeaningIs(edits, 0);
    forall k: nat | StartsAt(edits, k)
      ensures SameUnits(Fronts(edits[k + 1..]) + edits[k].value + Backs(edits[k + 1..]), all, format, swap)
    {
      MeaningIs(edits, k);
    }
  }

  /** An empty property is deleted by a read that asks for another type, and so gets nothing of it. */
  method DeleteExample() returns (w: Properties, r: Reply)
    ensures w.props == map[] && r == Reply(1, 8, 0, 0, [])
  {
    w := new Properties();
    var status := w.Change(1, 1, 8, Replace, [], false, 2, true);
    status, r := w.Get(1, 2, 0, 1, true, false, 2);
  }

  /** The data part of a reply. */
  method Read(p: Prop, offs: nat, longLength: nat, swap: bool) returns (r: Reply)
    requires Whole(|p.data|, Factor(p.format)) && Whole(offs, 4) && offs <= |p.data| < WORD
    requires longLength < WORD && InRange(longLength, offs, |p.data|)
    ensures r == Answer(p, swap, 0, offs, longLength)
  {
    var bytes := Factor(p.format);
    LenExact(longLength, offs, |p.data|);
    var len := Len(longLength, offs, |p.data|);
    PartWhole(longLength, offs, |p.data|, bytes);
    var data := Transfer(p.data[offs..offs + len], bytes, swap);
    r := Reply(p.kind, p.format, |p.data| - offs - len, len / bytes, data);
  }
}
