/**
 What is left of a clip rectangle after the mapped children of a window are taken out:
 clip_children sorts the child rectangles and sweeps over them in bands from top to bottom.
 */
module ClipChildren {
  import opened Basics
  import opened ClipBand
  import opened ClipSweep
  import opened ClipRows

  /** Insertion of one geometry into the sorted list. */
  method Insert(list: seq<PRect>, r: PRect) returns (out: seq<PRect>)
    requires Sorted(list)
    ensures Sorted(out) && multiset(out) == multiset(list) + multiset{r}
  {
    var j := |list| - 1;
    while j >= 0 && list[j].y0 > r.y0
      invariant -1 <= j < |list|
      invariant forall k | j < k < |list| :: Before(r, list[k])
    {
      j := j - 1;
    }
    while j >= 0 && list[j].y0 == r.y0 && list[j].x0 > r.x0
      invariant -1 <= j < |list| && (j >= 0 ==> list[j].y0 <= r.y0)
      invariant forall k | j < k < |list| :: Before(r, list[k])
    {
      assert j > 0 ==> Before(list[j - 1], list[j]);
      j := j - 1;
    }
    Prefix(list, j, r);
    var n: nat := j + 1;
    InsertSorted(list, n, r);
    InsertMembers(list, n, r);
    out := list[..n] + [r] + list[n..];
  }

  lemma Prefix(list: seq<PRect>, j: int, r: PRect)
    requires Sorted(list) && -1 <= j < |list| && (j >= 0 ==> Before(list[j], r))
    ensures forall k | 0 <= k <= j :: Before(list[k], r)
  {
    forall k | 0 <= k <= j ensures Before(list[k], r) {
      assert k < j ==> Before(list[k], list[j]);
    }
  }

  lemma InsertSorted(list: seq<PRect>, n: nat, r: PRect)
    requires n <= |list| && Sorted(list)
    requires forall k | 0 <= k < n :: Before(list[k], r)
    requires forall k | n <= k < |list| :: Before(r, list[k])
    ensures Sorted(list[..n] + [r] + list[n..])
  {
    var out := list[..n] + [r] + list[n..];
    forall i, j | 0 <= i < j < |out| ensures Before(out[i], out[j]) {
      InsertAt(list, n, r, i);
      InsertAt(list, n, r, j);
    }
  }

  lemma InsertAt(list: seq<PRect>, n: nat, r: PRect, i: nat)
    requires n <= |list| && i <= |list|
    ensures (list[..n] + [r] + list[n..])[i] == if i < n then list[i] else if i == n then r else list[i - 1]
  {
  }

  lemma InsertMembers(list: seq<PRect>, n: nat, r: PRect)
    requires n <= |list|
    ensures multiset(list[..n] + [r] + list[n..]) == multiset(list) + multiset{r}
  {
    assert list == list[..n] + list[n..];
  }

  method SortChildren(rs: seq<PRect>) returns (list: seq<PRect>)
    ensures Sorted(list) && multiset(list) == multiset(rs)
  {
    list := [];
    var i := 0;
    while i < |rs|
      invariant i <= |rs| && Sorted(list) && multiset(list) == multiset(rs[..i])
    {
      assert rs[..i + 1] == rs[..i] + [rs[i]];
      list := Insert(list, rs[i]);
      i := i + 1;
    }
    assert rs[..i] == rs;
  }

  /** How far down the band that starts at top reaches, and where its rectangles end in the list. */
  method Scan(list: seq<PRect>, beg: nat, top: int) returns (bot: int, end: nat)
    requires beg < |list| && list[beg].y0 <= top
    ensures beg < end <= |list| && end - beg == Lead(list[beg..], top) && bot == Bottom(list[beg..], top)
  {
    bot := list[beg].y1;
    end := beg + 1;
    ghost var rem := list[beg..];
    assert rem[..1] == [rem[0]];
    while end < |list|
      invariant beg < end <= |list| && (forall k | 0 <= k < end - beg :: rem[k].y0 <= top)
      invariant bot == Lowest(rem[..end - beg])
    {
      ghost var e := end - beg;
      if list[end].y0 > top {
        LeadIs(rem, top, e);
        if list[end].y0 <= bot {
          bot := list[end].y0 - 1;
        }
        return;
      } else if list[end].y1 < bot {
        bot := list[end].y1;
      }
      assert rem[..e + 1][..e] == rem[..e];
      end := end + 1;
    }
    LeadIs(rem, top, end - beg);
  }

  /** The loop over a band after t rectangles: those kept, those to come, and how far the indices are. */
  ghost predicate Rowing(rem: seq<PRect>, e: nat, b: Band, t: nat, list: seq<PRect>, beg: nat, i: nat, end: nat, beg0: nat,
                         x: int, areas: seq<PRect>)
  {
    && Kept(rem, b.bot, t, list, beg, i) && e <= |rem|
    && |list| + Holes(rem[..t], b.bot) == beg0 + |rem| && i + Holes(rem[..t], b.bot) == beg0 + t
    && end == Min(beg0 + e, |list|) && i <= end
    && areas == Gaps(b, rem[..t]) && x == Edge(b, rem[..t])
  }

  ghost predicate Kept(rem: seq<PRect>, bot: int, t: nat, list: seq<PRect>, beg: nat, i: nat) {
    && t <= |rem| && beg <= i <= |list|
    && list[beg..i] == Keep(rem[..t], bot) && list[i..] == rem[t..]
  }

  /** What the next rectangle does to the areas. */
  function NextEdge(x: int, r: PRect): int { if x <= r.x1 then r.x1 + 1 else x }

  function NextAreas(areas: seq<PRect>, x: int, r: PRect, b: Band): seq<PRect> {
    areas + if x < r.x0 then [PRect(x, b.top, r.x0 - 1, b.bot)] else []
  }

  lemma RowMore(rem: seq<PRect>, bot: int, t: nat)
    requires t < |rem|
    ensures var r, k := rem[t], Keep(rem[..t], bot);
            && Keep(rem[..t + 1], bot) == k + (if r.y1 > bot then [r] else [])
            && Holes(rem[..t + 1], bot) == Holes(rem[..t], bot) + if r.y1 <= bot && k != [] then 1 else 0
  {
    assert rem[..t + 1][..t] == rem[..t];
  }

  lemma RowMeets(rem: seq<PRect>, e: nat, b: Band, t: nat, list: seq<PRect>, beg: nat, i: nat, end: nat, beg0: nat,
                 x: int, areas: seq<PRect>)
    requires Rowing(rem, e, b, t, list, beg, i, end, beg0, x, areas) && i < end
    ensures t < |rem| && list[i] == rem[t]
  {
    assert list[i] == list[i..][0];
  }

  /** A rectangle that reaches below the band stays. */
  lemma RowKeep(rem: seq<PRect>, e: nat, b: Band, t: nat, list: seq<PRect>, beg: nat, i: nat, end: nat, beg0: nat,
                x: int, areas: seq<PRect>)
    requires Rowing(rem, e, b, t, list, beg, i, end, beg0, x, areas) && i < end && t < |rem| && rem[t].y1 > b.bot
    ensures Rowing(rem, e, b, t + 1, list, beg, i + 1, end, beg0, NextEdge(x, rem[t]), NextAreas(areas, x, rem[t], b))
  {
    RowMore(rem, b.bot, t);
    EdgeMore(b, rem, t);
    assert list[i] == list[i..][0] && list[i + 1..] == list[i..][1..] && rem[t + 1..] == rem[t..][1..];
    assert list[beg..i + 1] == list[beg..i] + [list[i]];
  }

  /** One that ends in it is skipped at the beginning, */
  lemma RowSkip(rem: seq<PRect>, e: nat, b: Band, t: nat, list: seq<PRect>, i: nat, end: nat, beg0: nat, x: int, areas: seq<PRect>)
    requires Rowing(rem, e, b, t, list, i, i, end, beg0, x, areas) && i < end && t < |rem| && rem[t].y1 <= b.bot
    ensures Rowing(rem, e, b, t + 1, list, i + 1, i + 1, end, beg0, NextEdge(x, rem[t]), NextAreas(areas, x, rem[t], b))
  {
    RowMore(rem, b.bot, t);
    EdgeMore(b, rem, t);
    assert list[i + 1..] == list[i..][1..] && rem[t + 1..] == rem[t..][1..];
  }

  /** and removed behind it. */
  lemma RowDrop(rem: seq<PRect>, e: nat, b: Band, t: nat, list: seq<PRect>, beg: nat, i: nat, end: nat, beg0: nat,
                x: int, areas: seq<PRect>)
    requires Rowing(rem, e, b, t, list, beg, i, end, beg0, x, areas) && beg < i < end && t < |rem| && rem[t].y1 <= b.bot
    ensures var out := list[..i] + list[i + 1..];
            Rowing(rem, e, b, t + 1, out, beg, i, Min(end, |out|), beg0, NextEdge(x, rem[t]), NextAreas(areas, x, rem[t], b))
  {
    RowMore(rem, b.bot, t);
    EdgeMore(b, rem, t);
    var out := list[..i] + list[i + 1..];
    assert list[i + 1..] == list[i..][1..] && rem[t + 1..] == rem[t..][1..];
    assert out[beg..i] == list[beg..i] && out[i..] == list[i + 1..];
  }

  /** At the end of the loop exactly the rectangles of Seen were met. */
  lemma RowEnd(rem: seq<PRect>, e: nat, b: Band, t: nat, list: seq<PRect>, beg: nat, i: nat, end: nat, beg0: nat,
               x: int, areas: seq<PRect>)
    requires Rowing(rem, e, b, t, list, beg, i, end, beg0, x, areas) && i == end
    requires forall k | e <= k < |rem| :: rem[k].y1 > b.bot
    ensures e <= t && rem[..t] == Seen(rem, e, b.bot) && list[beg..] == Keep(rem, b.bot)
  {
    MetAll(rem, e, b.bot, t, Holes(rem[..t], b.bot));
    KeepTail(rem, t, b.bot);
    Parts(list, beg, i);
  }

  lemma MetAll(rem: seq<PRect>, e: nat, bot: int, t: nat, h: nat)
    requires e <= |rem| && t == Min(e + h, |rem|) && h == Holes(rem[..t], bot) && forall k | e <= k < |rem| :: rem[k].y1 > bot
    ensures e <= t && rem[..t] == Seen(rem, e, bot)
  {
    KeepTail(rem[..t], e, bot);
    assert rem[..t][..e] == rem[..e];
  }

  lemma Parts(list: seq<PRect>, beg: nat, i: nat)
    requires beg <= i <= |list|
    ensures list[beg..] == list[beg..i] + list[i..]
  {
  }

  lemma EdgeMore(b: Band, rem: seq<PRect>, t: nat)
    requires t < |rem|
    ensures var x, r := Edge(b, rem[..t]), rem[t];
            && Edge(b, rem[..t + 1]) == (if x <= r.x1 then r.x1 + 1 else x)
            && Gaps(b, rem[..t + 1]) == Gaps(b, rem[..t]) + if x < r.x0 then [PRect(x, b.top, r.x0 - 1, b.bot)] else []
  {
    assert rem[..t + 1][..t] == rem[..t];
  }

  /** One band: finds its free areas and drops the rectangles that end in it. */
  method Row(list0: seq<PRect>, beg0: nat, end0: nat, b: Band)
    returns (list: seq<PRect>, beg: nat, i: nat, areas: seq<PRect>, ghost t: nat)
    requires beg0 <= end0 <= |list0| && forall k | end0 <= k < |list0| :: list0[k].y1 > b.bot
    ensures beg <= i <= |list| && list[beg..] == Keep(list0[beg0..], b.bot)
    ensures areas == Free(b, Seen(list0[beg0..], end0 - beg0, b.bot))
    ensures end0 - beg0 <= t <= |list0| - beg0 && list[i..] == list0[beg0..][t..]
  {
    ghost var rem, e := list0[beg0..], end0 - beg0;
    var x, end: nat := b.clip.x0, end0;
    list, beg, i, areas, t := list0, beg0, beg0, [], 0;
    assert list[beg..i] == [] && rem[..0] == [];
    while i < end
      invariant Rowing(rem, e, b, t, list, beg, i, end, beg0, x, areas)
      decreases |rem| - t
    {
      list, beg, i, end, x, areas := Visit(list, beg, i, end, b, x, areas, rem, e, t, beg0);
      t := t + 1;
    }
    RowEnd(rem, e, b, t, list, beg, i, end, beg0, x, areas);
    if x <= b.clip.x1 {
      areas := areas + [PRect(x, b.top, b.clip.x1, b.bot)];
    }
  }

  /** One round of that loop: the gap before a rectangle, and whether it stays in the list. */
  method Visit(list: seq<PRect>, beg: nat, i: nat, end: nat, b: Band, x: int, areas: seq<PRect>,
               ghost rem: seq<PRect>, ghost e: nat, ghost t: nat, ghost beg0: nat)
    returns (list': seq<PRect>, beg': nat, i': nat, end': nat, x': int, areas': seq<PRect>)
    requires Rowing(rem, e, b, t, list, beg, i, end, beg0, x, areas) && i < end
    ensures t < |rem| && Rowing(rem, e, b, t + 1, list', beg', i', end', beg0, x', areas')
  {
    var r := list[i];
    RowMeets(rem, e, b, t, list, beg, i, end, beg0, x, areas);
    list', beg', i', end', x', areas' := list, beg, i, end, x, areas;
    if x < r.x0 {
      areas' := areas + [PRect(x, b.top, r.x0 - 1, b.bot)];
    }
    if x <= r.x1 {
      x' := r.x1 + 1;
    }
    assert areas' == NextAreas(areas, x, r, b) && x' == NextEdge(x, r);
    if r.y1 > b.bot {
      RowKeep(rem, e, b, t, list, beg, i, end, beg0, x, areas);
      i' := i + 1;
    } else if i == beg {
      RowSkip(rem, e, b, t, list, i, end, beg0, x, areas);
      i' := i + 1;
      beg' := i';
    } else {
      RowDrop(rem, e, b, t, list, beg, i, end, beg0, x, areas);
      list' := list[..i] + list[i + 1..];
      if |list'| < end {
        end' := |list'|;
      }
    }
  }

  /** One round of the sweep. */
  method NextBand(list0: seq<PRect>, beg0: nat, bot0: int, clip: PRect)
    returns (list: seq<PRect>, beg: nat, bot: int, areas: seq<PRect>)
    requires beg0 < |list0| && Ready(list0[beg0..], bot0, clip)
    ensures beg <= |list| && list[beg..] == Next(list0[beg0..], bot0, clip) && bot == NextRow(list0[beg0..], bot0, clip)
    ensures areas == FirstBand(list0[beg0..], bot0, clip, [])
  {
    ghost var rem := list0[beg0..];
    var top, above := AboveFirst(list0[beg0], bot0, clip);
    var bottom, end := Scan(list0, beg0, top);
    BandIs(rem, bot0, clip, top, bottom, end - beg0);
    var more;
    list, beg, more := RowOf(list0, beg0, end, Band(clip, top, bottom));
    areas := above + more;
    bot := bottom + 1;
  }

  /** The area above the first rectangle, if there is one, and the row the band begins at. */
  method AboveFirst(first: PRect, bot: int, clip: PRect) returns (top: int, areas: seq<PRect>)
    ensures top == Max(bot, first.y0) && areas == Above(bot, top, clip)
  {
    top, areas := bot, [];
    if bot < first.y0 {
      top := first.y0;
      areas := [PRect(clip.x0, bot, clip.x1, top - 1)];
    }
  }

  /** The loop over the band and the re-merge step behind it. */
  method RowOf(list0: seq<PRect>, beg0: nat, end: nat, b: Band) returns (list: seq<PRect>, beg: nat, areas: seq<PRect>)
    requires beg0 <= end <= |list0| && Clipped(list0[beg0..], b.clip) && Spans(list0[beg0..], end - beg0, b)
    ensures beg <= |list| && list[beg..] == Keep(list0[beg0..], b.bot)
    ensures areas == Free(b, Seen(list0[beg0..], end - beg0, b.bot))
  {
    Beyond(list0, beg0, end, b);
    var i;
    ghost var t;
    list, beg, i, areas, t := Row(list0, beg0, end, b);
    // The re-merge step is guarded by a rectangle that begins in the band's last row; none is left.
    assert !(i < |list| && list[i].y0 == b.bot) by {
      if i < |list| { assert list[i] == list[i..][0] == list0[beg0 + t]; }
    }
  }

  lemma Beyond(list: seq<PRect>, beg: nat, end: nat, b: Band)
    requires beg <= end <= |list| && Clipped(list[beg..], b.clip) && Spans(list[beg..], end - beg, b)
    ensures forall k | end <= k < |list| :: list[k].y0 > b.bot && list[k].y1 > b.bot
  {
    forall k | end <= k < |list| ensures list[k].y0 > b.bot && list[k].y1 > b.bot {
      assert list[k] == list[beg..][k - beg] && list[k] in list[beg..];
    }
  }

  /** The sweep: bands from the top of the clip until no rectangle is left. */
  method Sweep(sorted: seq<PRect>, clip: PRect) returns (areas: seq<PRect>)
    requires Ready(sorted, clip.y0, clip)
    ensures areas == Areas(sorted, clip.y0, clip)
  {
    var list, beg: nat, bot := sorted, 0, clip.y0;
    areas := [];
    assert list[0..] == sorted;
    while beg < |list|
      invariant beg <= |list| && Ready(list[beg..], bot, clip)
      invariant areas + Areas(list[beg..], bot, clip) == Areas(sorted, clip.y0, clip)
      decreases clip.y1 + 1 - bot
    {
      GoOn(areas, list[beg..], bot, clip);
      var more;
      list, beg, bot, more := NextBand(list, beg, bot, clip);
      areas := areas + more;
    }
    assert list[beg..] == [];
    if bot <= clip.y1 {
      areas := areas + [PRect(clip.x0, bot, clip.x1, clip.y1)];
    }
  }

  /** The geometry of a child window relative to its parent's origin. */
  datatype Child = Child(mapped: bool, x: int, y: int, w: int, h: int, border: int)

  /** The outer rectangle of a child on the screen, border included. */
  function Outer(c: Child, ox: int, oy: int): PRect {
    PRect(ox + c.x - c.border, oy + c.y - c.border,
         ox + c.x + c.w - 1 + c.border, oy + c.y + c.h - 1 + c.border)
  }

  /** GrphIntersectP: the common part, which may be empty. */
  function Meet(a: PRect, b: PRect): (r: PRect)
    ensures forall px, py :: r.Has(px, py) <==> a.Has(px, py) && b.Has(px, py)
  {
    PRect(Max(a.x0, b.x0), Max(a.y0, b.y0), Min(a.x1, b.x1), Min(a.y1, b.y1))
  }

  /** The part of the clip some mapped child lies over. */
  predicate Hidden(cs: seq<Child>, ox: int, oy: int, px: int, py: int) {
    exists c <- cs :: c.mapped && Outer(c, ox, oy).Has(px, py)
  }

  /** The pixel (qx, qy) belongs to the inside of a child, and (px, py) is no further from it than the border is wide. */
  predicate InsideAt(c: Child, ox: int, oy: int, qx: int, qy: int) {
    ox + c.x <= qx < ox + c.x + c.w && oy + c.y <= qy < oy + c.y + c.h
  }

  predicate WithinBorder(c: Child, qx: int, qy: int, px: int, py: int) {
    -c.border <= px - qx <= c.border && -c.border <= py - qy <= c.border
  }

  /** A pixel some mapped child lies over, with its inside or its border. */
  ghost predicate Under(cs: seq<Child>, ox: int, oy: int, px: int, py: int) {
    exists c <- cs :: c.mapped && UnderOne(c, ox, oy, px, py)
  }

  ghost predicate UnderOne(c: Child, ox: int, oy: int, px: int, py: int) {
    exists qx, qy :: InsideAt(c, ox, oy, qx, qy) && WithinBorder(c, qx, qy, px, py)
  }

  /** As the protocol has it: windows have a size, and no negative border. */
  ghost predicate Sized(cs: seq<Child>) {
    forall c <- cs :: c.w > 0 && c.h > 0 && c.border >= 0
  }

  function Between(v: int, lo: int, hi: int): (r: int)
    requires lo <= hi
    ensures lo <= r <= hi && (lo <= v <= hi ==> r == v) && (v < lo ==> r == lo) && (v > hi ==> r == hi)
  {
    Max(lo, Min(v, hi))
  }

  lemma OuterUnder(c: Child, ox: int, oy: int, px: int, py: int)
    requires c.w > 0 && c.h > 0 && c.border >= 0
    ensures Outer(c, ox, oy).Has(px, py) <==> UnderOne(c, ox, oy, px, py)
  {
    if Outer(c, ox, oy).Has(px, py) {
      var qx, qy := Between(px, ox + c.x, ox + c.x + c.w - 1), Between(py, oy + c.y, oy + c.y + c.h - 1);
      assert InsideAt(c, ox, oy, qx, qy) && WithinBorder(c, qx, qy, px, py);
    }
  }

  /** Hidden are exactly the pixels of the insides and the borders. */
  lemma HiddenUnder(cs: seq<Child>, ox: int, oy: int, px: int, py: int)
    requires Sized(cs)
    ensures Hidden(cs, ox, oy, px, py) <==> Under(cs, ox, oy, px, py)
  {
    forall c | c in cs ensures Outer(c, ox, oy).Has(px, py) <==> UnderOne(c, ox, oy, px, py) { OuterUnder(c, ox, oy, px, py); }
  }

  /** The clipped outer rectangles of the mapped children that meet the clip. */
  function Met(cs: seq<Child>, ox: int, oy: int, clip: PRect): seq<PRect> {
    if cs == [] then [] else
      var c := cs[|cs| - 1];
      var r := Meet(Outer(c, ox, oy), clip);
      Met(cs[..|cs| - 1], ox, oy, clip) + if c.mapped && r.NonEmpty() then [r] else []
  }

  method Gather(cs: seq<Child>, ox: int, oy: int, clip: PRect) returns (rs: seq<PRect>)
    ensures rs == Met(cs, ox, oy, clip) && Clipped(rs, clip)
    ensures forall px, py | clip.Has(px, py) :: Covers(rs, px, py) <==> Hidden(cs, ox, oy, px, py)
  {
    rs := [];
    var i := 0;
    while i < |cs|
      invariant i <= |cs| && rs == Met(cs[..i], ox, oy, clip) && Clipped(rs, clip)
      invariant forall px, py | clip.Has(px, py) :: Covers(rs, px, py) <==> Hidden(cs[..i], ox, oy, px, py)
    {
      var c := cs[i];
      var r := Meet(Outer(c, ox, oy), clip);
      var add := if c.mapped && r.NonEmpty() then [r] else [];
      forall px, py | clip.Has(px, py) ensures Covers(rs + add, px, py) <==> Hidden(cs[..i + 1], ox, oy, px, py) {
        CoversJoin(rs, add, px, py);
        CoversOne(r, px, py);
        HiddenMore(cs, i, ox, oy, px, py);
      }
      assert cs[..i + 1][..i] == cs[..i];
      rs := rs + add;
      i := i + 1;
    }
    assert cs[..i] == cs;
  }

  lemma HiddenMore(cs: seq<Child>, i: nat, ox: int, oy: int, px: int, py: int)
    requires i < |cs|
    ensures Hidden(cs[..i + 1], ox, oy, px, py) <==>
              Hidden(cs[..i], ox, oy, px, py) || (cs[i].mapped && Outer(cs[i], ox, oy).Has(px, py))
  {
    assert cs[..i + 1] == cs[..i] + [cs[i]];
    assert forall c :: c in cs[..i + 1] <==> c in cs[..i] || c == cs[i];
  }

  /**
   clip_children: disjoint areas inside the clip. They are exactly what no mapped child lies
   over if and only if every row of the sorted children is tidy, and so whenever they are layered.
   */
  method ClipAway(cs: seq<Child>, ox: int, oy: int, clip: PRect)
    returns (areas: seq<PRect>, ghost rs: seq<PRect>, ghost list: seq<PRect>)
    requires clip.NonEmpty()
    ensures Clipped(areas, clip) && PairwiseApart(areas) && EachOnce(areas, clip)
    ensures rs == Met(cs, ox, oy, clip) && multiset(list) == multiset(rs) && Ready(list, clip.y0, clip)
    ensures forall px, py | clip.Has(px, py) :: Covers(rs, px, py) <==> Hidden(cs, ox, oy, px, py)
    ensures (forall px, py | clip.Has(px, py) :: Covers(areas, px, py) <==> !Hidden(cs, ox, oy, px, py))
            <==> AllTidy(list, clip, clip.y0, clip.y1 + 1)
    ensures Layered(rs) ==> AllTidy(list, clip, clip.y0, clip.y1 + 1)
    ensures Sized(cs) ==> ((forall px, py | clip.Has(px, py) :: Covers(areas, px, py) <==> !Under(cs, ox, oy, px, py))
                           <==> AllTidy(list, clip, clip.y0, clip.y1 + 1))
  {
    var found := Gather(cs, ox, oy, clip);
    rs := found;
    var sorted := SortChildren(found);
    list := sorted;
    SameRects(rs, list, clip);
    AreasShape(list, clip.y0, clip);
    SweepExact(list, clip.y0, clip);
    OrderlyRows(list, clip.y0, clip);
    if Layered(rs) { LayeredOrderly(list, clip.y0, clip); }
    if |found| > 0 {
      areas := Sweep(sorted, clip);
    } else {
      areas := [clip];
    }
    ExactHidden(areas, rs, list, cs, ox, oy, clip);
    ShapeOnce(areas, clip);
    if Sized(cs) {
      forall px, py ensures Hidden(cs, ox, oy, px, py) <==> Under(cs, ox, oy, px, py) { HiddenUnder(cs, ox, oy, px, py); }
    }
  }

  /** No pixel is in two of the areas, or outside of the clip. */
  ghost predicate EachOnce(areas: seq<PRect>, clip: PRect) {
    && (forall px, py :: Covers(areas, px, py) ==> clip.x0 <= px <= clip.x1 && clip.y0 <= py <= clip.y1)
    && (forall i, j, px, py | 0 <= i < j < |areas| :: areas[i].Has(px, py) ==> !areas[j].Has(px, py))
  }

  lemma ShapeOnce(areas: seq<PRect>, clip: PRect)
    requires Clipped(areas, clip) && PairwiseApart(areas)
    ensures EachOnce(areas, clip)
  {
    forall i, j, px, py | 0 <= i < j < |areas| && areas[i].Has(px, py) ensures !areas[j].Has(px, py) {
      assert areas[i].Apart(areas[j]);
    }
  }

  lemma SameRects(rs: seq<PRect>, list: seq<PRect>, clip: PRect)
    requires clip.NonEmpty() && Clipped(rs, clip) && Sorted(list) && multiset(list) == multiset(rs)
    ensures Ready(list, clip.y0, clip) && (Layered(rs) ==> Layered(list)) && (forall r <- list :: r.y0 >= clip.y0)
    ensures forall px, py :: Covers(list, px, py) <==> Covers(rs, px, py)
    ensures |rs| == 0 ==> list == []
  {
    forall r ensures r in list <==> r in rs { assert r in multiset(list) <==> r in multiset(rs); }
    assert |multiset(list)| == |multiset(rs)|;
  }

  lemma ExactHidden(areas: seq<PRect>, rs: seq<PRect>, list: seq<PRect>, cs: seq<Child>, ox: int, oy: int, clip: PRect)
    requires forall px, py :: Covers(list, px, py) <==> Covers(rs, px, py)
    requires forall px, py | clip.Has(px, py) :: Covers(rs, px, py) <==> Hidden(cs, ox, oy, px, py)
    ensures Exact(areas, list, clip.y0, clip)
            <==> (forall px, py | clip.Has(px, py) :: Covers(areas, px, py) <==> !Hidden(cs, ox, oy, px, py))
  {
  }

  const CLIP := PRect(0, 0, 20, 20)
  const RIGHT := PRect(10, 0, 15, 10)
  const LEFT := PRect(0, 5, 5, 15)

  /** The rectangle further left begins further down, so it is seen too late in the rows the two share. */
  lemma Disorder()
    requires Ready([RIGHT, LEFT], 0, CLIP)
    ensures !Orderly([RIGHT, LEFT], 0, CLIP)
  {
    var rs := [RIGHT, LEFT];
    assert rs[1..] == [LEFT] && rs[..1] == [RIGHT];
    assert Lead(rs, 0) == 1 && Bottom(rs, 0) == 4;
    assert BandOf(rs, 0, CLIP) == Band(CLIP, 0, 4);
    assert [RIGHT][..0] == [];
    assert Keep([RIGHT], 4) == [RIGHT];
    assert Keep(rs, 4) == Keep(rs[..1], 4) + [LEFT];
    assert Next(rs, 0, CLIP) == Keep(rs, 4) == rs && NextRow(rs, 0, CLIP) == 5;
    NextReady(rs, 0, CLIP);
    SecondBand(rs);
  }

  lemma SecondBand(rs: seq<PRect>)
    requires rs == [RIGHT, LEFT] && Ready(rs, 5, CLIP)
    ensures !Orderly(rs, 5, CLIP)
  {
    LeadIs(rs, 5, 2);
    assert rs[..1] == [RIGHT] && rs[..2] == rs && [RIGHT][..0] == [];
    assert Lowest([RIGHT]) == 10 && Lowest(rs) == 10;
    var b := Band(CLIP, 5, 10);
    assert BandOf(rs, 5, CLIP) == b;
    var seen := Seen(rs, 2, 10);
    assert seen[..2] == rs;
    assert Edge(b, rs[..0]) == 0 && Hits(b, rs, 0, 1);
  }

  lemma PairSorted(list: seq<PRect>)
    requires Sorted(list) && multiset(list) == multiset([RIGHT, LEFT])
    ensures list == [RIGHT, LEFT]
  {
    assert |multiset(list)| == 2;
    assert list[0] in multiset(list) && list[1] in multiset(list);
    assert list == [list[0], list[1]];
    assert RIGHT in multiset(list) && LEFT in multiset(list);
  }

  /** Two children that share rows, for which the areas are not what they leave free. */
  method OverlapExample() returns (areas: seq<PRect>, cs: seq<Child>)
    ensures !(forall px, py | CLIP.Has(px, py) :: Covers(areas, px, py) <==> !Hidden(cs, 0, 0, px, py))
  {
    cs := [Child(true, 10, 0, 6, 11, 0), Child(true, 0, 5, 6, 11, 0)];
    ghost var rs, list;
    areas, rs, list := ClipAway(cs, 0, 0, CLIP);
    assert cs[..1] == [cs[0]] && [cs[0]][..0] == [];
    assert rs == [RIGHT, LEFT];
    PairSorted(list);
    Disorder();
    OrderlyRows(list, CLIP.y0, CLIP);
  }
}
