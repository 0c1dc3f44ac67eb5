/**
 The sweep of clip_children as a function of the sorted rectangles: band after band from the
 top of the clip. What it leaves out of a band, and when all of it is right.
 */
module ClipSweep {
  import opened Basics
  import opened ClipBand

  /** The order of the list: by top edge, then by left edge. */
  predicate Before(a: PRect, b: PRect) {
    a.y0 < b.y0 || (a.y0 == b.y0 && a.x0 <= b.x0)
  }

  predicate Sorted(rs: seq<PRect>) {
    forall i, j | 0 <= i < j < |rs| :: Before(rs[i], rs[j])
  }

  /** The rectangles still to be swept, when a band begins at row bot. */
  predicate Ready(rem: seq<PRect>, bot: int, clip: PRect) {
    && clip.NonEmpty() && clip.y0 <= bot <= clip.y1 + 1
    && Sorted(rem) && Clipped(rem, clip) && forall r <- rem :: r.y1 >= bot
  }

  /** How many of them begin at or above row top. */
  function Lead(rem: seq<PRect>, top: int): (e: nat)
    ensures e <= |rem|
  {
    if rem == [] || rem[0].y0 > top then 0 else 1 + Lead(rem[1..], top)
  }

  lemma {:induction false} LeadOk(rem: seq<PRect>, top: int)
    ensures var e := Lead(rem, top); (forall k | 0 <= k < e :: rem[k].y0 <= top) && (e < |rem| ==> rem[e].y0 > top)
  {
    if rem != [] && rem[0].y0 <= top { LeadOk(rem[1..], top); }
  }

  function Lowest(rs: seq<PRect>): int
    requires rs != []
  {
    var n := |rs| - 1;
    if n == 0 then rs[0].y1 else Min(rs[n].y1, Lowest(rs[..n]))
  }

  lemma {:induction false} LowestOk(rs: seq<PRect>) returns (i: nat)
    requires rs != []
    ensures i < |rs| && rs[i].y1 == Lowest(rs) && forall k | 0 <= k < |rs| :: Lowest(rs) <= rs[k].y1
  {
    var n := |rs| - 1;
    i := 0;
    if n > 0 {
      i := LowestOk(rs[..n]);
      if rs[n].y1 < Lowest(rs[..n]) { i := n; }
      assert forall k | 0 <= k < n :: rs[..n][k] == rs[k];
    }
  }

  /** A band that begins at row top ends with one of its own rectangles or above the next. */
  function Bottom(rem: seq<PRect>, top: int): int
    requires rem != [] && rem[0].y0 <= top
  {
    var e := Lead(rem, top);
    var m := Lowest(rem[..e]);
    if e < |rem| && rem[e].y0 <= m then rem[e].y0 - 1 else m
  }

  function BandOf(rem: seq<PRect>, bot: int, clip: PRect): Band
    requires rem != []
  {
    var top := Max(bot, rem[0].y0);
    Band(clip, top, Bottom(rem, top))
  }

  /** The rectangles of the band lie over all its rows, the others begin below it. */
  ghost predicate Spans(rem: seq<PRect>, e: nat, b: Band) {
    && 0 < e <= |rem| && (forall k | 0 <= k < e :: rem[k].y0 <= b.top && b.bot <= rem[k].y1)
    && (forall k | e <= k < |rem| :: rem[k].y0 > b.bot)
  }

  lemma BandOk(rem: seq<PRect>, bot: int, clip: PRect)
    requires Ready(rem, bot, clip) && rem != []
    ensures var b := BandOf(rem, bot, clip);
            b.clip == clip && b.Valid() && bot <= b.top && b.top == Max(bot, rem[0].y0) && Spans(rem, Lead(rem, b.top), b)
  {
    var b := BandOf(rem, bot, clip);
    var e := Lead(rem, b.top);
    LeadOk(rem, b.top);
    forall k | 0 <= k < |rem| ensures rem[k] in rem && rem[0].y0 <= rem[k].y0 {
      assert k > 0 ==> Before(rem[0], rem[k]);
    }
    forall k | e <= k < |rem| ensures rem[e].y0 <= rem[k].y0 {
      assert k > e ==> Before(rem[e], rem[k]);
    }
    var i := LowestOk(rem[..e]);
    assert rem[i] in rem && rem[..e][i] == rem[i];
    forall k | 0 <= k < e ensures b.bot <= rem[k].y1 { assert rem[..e][k] == rem[k]; }
  }

  /** What reaches below row bot. */
  function Keep(rs: seq<PRect>, bot: int): seq<PRect> {
    if rs == [] then [] else
      var n := |rs| - 1;
      Keep(rs[..n], bot) + if rs[n].y1 > bot then [rs[n]] else []
  }

  lemma {:induction false} KeepMembers(rs: seq<PRect>, bot: int, r: PRect)
    ensures r in Keep(rs, bot) <==> r in rs && r.y1 > bot
  {
    if rs != [] {
      var n := |rs| - 1;
      KeepMembers(rs[..n], bot, r);
      assert rs == rs[..n] + [rs[n]];
    }
  }

  lemma {:induction false} KeepSorted(rs: seq<PRect>, bot: int)
    requires Sorted(rs)
    ensures Sorted(Keep(rs, bot))
  {
    if rs != [] {
      var n := |rs| - 1;
      KeepSorted(rs[..n], bot);
      forall i | 0 <= i < |Keep(rs[..n], bot)| ensures Before(Keep(rs[..n], bot)[i], rs[n]) {
        var r := Keep(rs[..n], bot)[i];
        KeepMembers(rs[..n], bot, r);
        var k :| 0 <= k < n && rs[k] == r;
      }
    }
  }

  lemma NextReady(rem: seq<PRect>, bot: int, clip: PRect)
    requires Ready(rem, bot, clip) && rem != []
    ensures NextRow(rem, bot, clip) > bot && Ready(Next(rem, bot, clip), NextRow(rem, bot, clip), clip)
  {
    var b := BandOf(rem, bot, clip);
    BandOk(rem, bot, clip);
    KeepSorted(rem, b.bot);
    forall r <- Keep(rem, b.bot) ensures r in rem && r.y1 > b.bot { KeepMembers(rem, b.bot, r); }
  }

  /** How many rectangles that end at row bot come behind one that reaches below it. */
  function Holes(rs: seq<PRect>, bot: int): (h: nat)
    ensures h <= |rs|
  {
    if rs == [] then 0 else
      var n := |rs| - 1;
      Holes(rs[..n], bot) + if rs[n].y1 <= bot && Keep(rs[..n], bot) != [] then 1 else 0
  }

  /**
   What a band gets to see: its own rectangles, and as many of the following as it removed from
   the middle of the list, since it does not shorten itself.
   */
  function Seen(rem: seq<PRect>, e: nat, bot: int): (s: seq<PRect>)
    requires e <= |rem|
    ensures e <= |s| <= |rem| && s == rem[..|s|]
  {
    rem[..Min(e + Holes(rem[..e], bot), |rem|)]
  }

  /** The rows above the first rectangle. */
  function Above(bot: int, top: int, clip: PRect): seq<PRect> {
    if bot < top then [PRect(clip.x0, bot, clip.x1, top - 1)] else []
  }

  /** The areas of the first band, followed by those below it. */
  function FirstBand(rem: seq<PRect>, bot: int, clip: PRect, below: seq<PRect>): seq<PRect>
    requires rem != []
  {
    var b := BandOf(rem, bot, clip);
    Above(bot, b.top, clip) + Free(b, Seen(rem, Lead(rem, b.top), b.bot)) + below
  }

  /** Its rectangles are fine. */
  predicate FirstFine(rem: seq<PRect>, bot: int, clip: PRect)
    requires rem != []
  {
    var b := BandOf(rem, bot, clip);
    Fine(b, Seen(rem, Lead(rem, b.top), b.bot), Lead(rem, b.top))
  }

  /** What is left for the next one. */
  function Next(rem: seq<PRect>, bot: int, clip: PRect): seq<PRect>
    requires rem != []
  {
    Keep(rem, BandOf(rem, bot, clip).bot)
  }

  function NextRow(rem: seq<PRect>, bot: int, clip: PRect): int
    requires rem != []
  {
    BandOf(rem, bot, clip).bot + 1
  }

  /** All areas from row bot on. */
  function Areas(rem: seq<PRect>, bot: int, clip: PRect): seq<PRect>
    requires Ready(rem, bot, clip)
    decreases clip.y1 + 1 - bot
  {
    if rem == [] then Above(bot, clip.y1 + 1, clip) else
      NextReady(rem, bot, clip);
      FirstBand(rem, bot, clip, Areas(Next(rem, bot, clip), NextRow(rem, bot, clip), clip))
  }

  /** In every band the rectangles come so that nothing goes wrong. */
  predicate Orderly(rem: seq<PRect>, bot: int, clip: PRect)
    requires Ready(rem, bot, clip)
    decreases clip.y1 + 1 - bot
  {
    rem == [] ||
    (NextReady(rem, bot, clip);
     FirstFine(rem, bot, clip) && Orderly(Next(rem, bot, clip), NextRow(rem, bot, clip), clip))
  }

  /** Areas in the rows from bot to before end. */
  ghost predicate Emitted(areas: seq<PRect>, clip: PRect, bot: int, end: int) {
    Clipped(areas, clip) && PairwiseApart(areas) && forall a <- areas :: bot <= a.y0 && a.y1 < end
  }

  lemma EmitJoin(us: seq<PRect>, ws: seq<PRect>, clip: PRect, bot: int, mid: int, end: int)
    requires Emitted(us, clip, bot, mid) && Emitted(ws, clip, mid, end) && bot <= mid <= end
    ensures Emitted(us + ws, clip, bot, end)
  {
    var all := us + ws;
    forall i, j | 0 <= i < j < |all| ensures all[i].Apart(all[j]) {
      if i < |us| <= j { assert us[i] in us && ws[j - |us|] in ws; }
    }
  }

  /** What is known of a band, without saying how it was found. */
  ghost predicate Facts(rem: seq<PRect>, bot: int, clip: PRect, b: Band, e: nat, seen: seq<PRect>, rest: seq<PRect>) {
    && b.clip == clip && b.Valid() && bot <= b.top && Spans(rem, e, b)
    && (forall r <- rem :: bot < b.top ==> r.y0 >= b.top)
    && e <= |seen| && seen[..e] == rem[..e] && Clipped(seen, clip)
    && (forall r :: r in rest <==> r in rem && r.y1 > b.bot)
  }

  lemma BandFacts(rem: seq<PRect>, bot: int, clip: PRect)
    requires Ready(rem, bot, clip) && rem != []
    ensures var b := BandOf(rem, bot, clip);
            Facts(rem, bot, clip, b, Lead(rem, b.top), Seen(rem, Lead(rem, b.top), b.bot), Keep(rem, b.bot))
  {
    var b := BandOf(rem, bot, clip);
    var e := Lead(rem, b.top);
    BandOk(rem, bot, clip);
    forall r ensures r in Keep(rem, b.bot) <==> r in rem && r.y1 > b.bot { KeepMembers(rem, b.bot, r); }
    forall r <- rem ensures r.y0 >= rem[0].y0 {
      var k :| 0 <= k < |rem| && rem[k] == r;
      assert k > 0 ==> Before(rem[0], rem[k]);
    }
    SeenOk(rem, e, b.bot, clip);
  }

  lemma SeenOk(rem: seq<PRect>, e: nat, bot: int, clip: PRect)
    requires e <= |rem| && Clipped(rem, clip)
    ensures Seen(rem, e, bot)[..e] == rem[..e] && Clipped(Seen(rem, e, bot), clip)
  {
    forall r <- Seen(rem, e, bot) ensures r in rem {}
  }

  /** One band and what follows it. */
  lemma ShapeStep(b: Band, bot: int, seen: seq<PRect>, below: seq<PRect>)
    requires b.Valid() && b.clip.y0 <= bot <= b.top && Clipped(seen, b.clip) && Emitted(below, b.clip, b.bot + 1, b.clip.y1 + 1)
    ensures Emitted(Free(b, seen), b.clip, b.top, b.bot + 1)
    ensures Emitted(Above(bot, b.top, b.clip) + Free(b, seen) + below, b.clip, bot, b.clip.y1 + 1)
  {
    FreeShape(b, seen);
    assert Emitted(Above(bot, b.top, b.clip), b.clip, bot, b.top);
    EmitJoin(Above(bot, b.top, b.clip), Free(b, seen), b.clip, bot, b.top, b.bot + 1);
    EmitJoin(Above(bot, b.top, b.clip) + Free(b, seen), below, b.clip, bot, b.bot + 1, b.clip.y1 + 1);
  }

  lemma ShapeNext(rem: seq<PRect>, bot: int, clip: PRect, below: seq<PRect>)
    requires Ready(rem, bot, clip) && rem != [] && Emitted(below, clip, NextRow(rem, bot, clip), clip.y1 + 1)
    ensures Emitted(FirstBand(rem, bot, clip, below), clip, bot, clip.y1 + 1)
  {
    BandFacts(rem, bot, clip);
    var b := BandOf(rem, bot, clip);
    ShapeStep(b, bot, Seen(rem, Lead(rem, b.top), b.bot), below);
  }

  /** Whatever the rectangles are: nonempty, disjoint areas inside the clip. */
  lemma {:induction false} AreasShape(rem: seq<PRect>, bot: int, clip: PRect)
    requires Ready(rem, bot, clip)
    ensures Emitted(Areas(rem, bot, clip), clip, bot, clip.y1 + 1)
    decreases clip.y1 + 1 - bot
  {
    if rem != [] {
      NextReady(rem, bot, clip);
      AreasShape(Next(rem, bot, clip), NextRow(rem, bot, clip), clip);
      ShapeNext(rem, bot, clip, Areas(Next(rem, bot, clip), NextRow(rem, bot, clip), clip));
    }
  }

  /** The areas cover exactly the pixels from row bot on that no rectangle covers. */
  ghost predicate Exact(areas: seq<PRect>, rects: seq<PRect>, bot: int, clip: PRect) {
    forall px, py {:trigger clip.Has(px, py)} | clip.Has(px, py) && py >= bot ::
      Covers(areas, px, py) <==> !Covers(rects, px, py)
  }

  lemma AboveCovers(bot: int, top: int, clip: PRect, px: int, py: int)
    requires clip.x0 <= px <= clip.x1
    ensures Covers(Above(bot, top, clip), px, py) <==> bot <= py < top
  {
    CoversOne(PRect(clip.x0, bot, clip.x1, top - 1), px, py);
  }

  lemma NotInRows(rs: seq<PRect>, clip: PRect, bot: int, end: int, px: int, py: int)
    requires Emitted(rs, clip, bot, end) && (py < bot || py >= end)
    ensures !Covers(rs, px, py)
  {
  }

  /** Which part of the areas decides about a pixel. */
  lemma PixelAreas(b: Band, bot: int, seen: seq<PRect>, below: seq<PRect>, px: int, py: int)
    requires b.Valid() && b.clip.y0 <= bot <= b.top && Clipped(seen, b.clip) && Emitted(below, b.clip, b.bot + 1, b.clip.y1 + 1)
    requires b.clip.Has(px, py) && py >= bot
    ensures var all := Above(bot, b.top, b.clip) + Free(b, seen) + below;
            && (py < b.top ==> Covers(all, px, py))
            && (b.top <= py <= b.bot ==> (Covers(all, px, py) <==> Vacant(b, seen, px)))
            && (b.bot < py ==> (Covers(all, px, py) <==> Covers(below, px, py)))
  {
    var above, free := Above(bot, b.top, b.clip), Free(b, seen);
    CoversJoin(above + free, below, px, py);
    CoversJoin(above, free, px, py);
    AboveCovers(bot, b.top, b.clip, px, py);
    ShapeStep(b, bot, seen, below);
    if py <= b.bot { NotInRows(below, b.clip, b.bot + 1, b.clip.y1 + 1, px, py); }
    if b.top <= py <= b.bot {
      FreeColumns(b, seen, px, py);
    } else {
      NotInRows(free, b.clip, b.top, b.bot + 1, px, py);
    }
  }

  /** Which part of the rectangles does. */
  lemma PixelRects(rem: seq<PRect>, bot: int, clip: PRect, b: Band, e: nat, seen: seq<PRect>, rest: seq<PRect>, px: int, py: int)
    requires Facts(rem, bot, clip, b, e, seen, rest) && py >= bot
    ensures py < b.top ==> !Covers(rem, px, py)
    ensures b.top <= py <= b.bot ==> (Covers(rem, px, py) <==> Taken(seen[..e], px))
    ensures b.bot < py ==> (Covers(rem, px, py) <==> Covers(rest, px, py))
  {
    if Covers(rem, px, py) {
      var r :| r in rem && r.Has(px, py);
      var k :| 0 <= k < |rem| && rem[k] == r;
      assert k < e ==> r in rem[..e];
    }
    if Taken(rem[..e], px) && b.top <= py <= b.bot {
      var r :| r in rem[..e] && r.x0 <= px <= r.x1;
      var k :| 0 <= k < e && rem[k] == r;
      assert r in rem && r.Has(px, py);
    }
    if Covers(rest, px, py) {
      var r :| r in rest && r.Has(px, py);
      assert r in rem;
    }
  }

  /** The sweep is exact when its first band is right and the rest is exact. */
  lemma ExactStep(rem: seq<PRect>, bot: int, clip: PRect, b: Band, e: nat, seen: seq<PRect>, rest: seq<PRect>, below: seq<PRect>)
    requires Facts(rem, bot, clip, b, e, seen, rest) && clip.y0 <= bot && Emitted(below, clip, b.bot + 1, clip.y1 + 1)
    ensures Exact(Above(bot, b.top, clip) + Free(b, seen) + below, rem, bot, clip)
            <==> (Right(b, seen, e) && Exact(below, rest, b.bot + 1, clip))
  {
    var all := Above(bot, b.top, clip) + Free(b, seen) + below;
    if Exact(all, rem, bot, clip) {
      forall px | clip.x0 <= px <= clip.x1 ensures Vacant(b, seen, px) <==> !Taken(seen[..e], px) {
        assert clip.Has(px, b.top);
        PixelAreas(b, bot, seen, below, px, b.top);
        PixelRects(rem, bot, clip, b, e, seen, rest, px, b.top);
      }
      forall px, py | clip.Has(px, py) && py >= b.bot + 1 ensures Covers(below, px, py) <==> !Covers(rest, px, py) {
        PixelAreas(b, bot, seen, below, px, py);
        PixelRects(rem, bot, clip, b, e, seen, rest, px, py);
      }
    }
    if Right(b, seen, e) && Exact(below, rest, b.bot + 1, clip) {
      forall px, py | clip.Has(px, py) && py >= bot ensures Covers(all, px, py) <==> !Covers(rem, px, py) {
        PixelAreas(b, bot, seen, below, px, py);
        PixelRects(rem, bot, clip, b, e, seen, rest, px, py);
      }
    }
  }

  /** The areas are exactly what the rectangles leave free if and only if these are orderly. */
  lemma {:induction false} SweepExact(rem: seq<PRect>, bot: int, clip: PRect)
    requires Ready(rem, bot, clip)
    ensures Exact(Areas(rem, bot, clip), rem, bot, clip) <==> Orderly(rem, bot, clip)
    decreases clip.y1 + 1 - bot
  {
    if rem == [] {
      forall px, py | clip.Has(px, py) && py >= bot ensures Covers(Areas(rem, bot, clip), px, py) {
        AboveCovers(bot, clip.y1 + 1, clip, px, py);
      }
    } else {
      NextReady(rem, bot, clip);
      var rest, row := Next(rem, bot, clip), NextRow(rem, bot, clip);
      AreasShape(rest, row, clip);
      ExactNext(rem, bot, clip, Areas(rest, row, clip));
      SweepExact(rest, row, clip);
    }
  }

  lemma ExactNext(rem: seq<PRect>, bot: int, clip: PRect, below: seq<PRect>)
    requires Ready(rem, bot, clip) && rem != [] && Emitted(below, clip, NextRow(rem, bot, clip), clip.y1 + 1)
    ensures Exact(FirstBand(rem, bot, clip, below), rem, bot, clip)
            <==> (FirstFine(rem, bot, clip) && Exact(below, Next(rem, bot, clip), NextRow(rem, bot, clip), clip))
  {
    var b := BandOf(rem, bot, clip);
    var e := Lead(rem, b.top);
    BandFacts(rem, bot, clip);
    ExactStep(rem, bot, clip, b, e, Seen(rem, e, b.bot), Keep(rem, b.bot), below);
    FineExact(b, Seen(rem, e, b.bot), e);
  }

  lemma {:induction false} LeadIs(rem: seq<PRect>, top: int, e: nat)
    requires e <= |rem| && (forall k | 0 <= k < e :: rem[k].y0 <= top) && (e < |rem| ==> rem[e].y0 > top)
    ensures Lead(rem, top) == e
  {
    if e > 0 { LeadIs(rem[1..], top, e - 1); }
  }

  /** Any two rectangles lie side by side in the same rows, or have no row in common. */
  predicate Layered(rs: seq<PRect>) {
    forall a, b {:trigger Level(a, b)} | a in rs && b in rs :: Level(a, b)
  }

  predicate Level(a: PRect, b: PRect) {
    (a.y0 == b.y0 && a.y1 == b.y1) || a.y1 < b.y0 || b.y1 < a.y0
  }

  lemma {:induction false} KeepNone(rs: seq<PRect>, bot: int)
    requires forall r <- rs :: r.y1 <= bot
    ensures Keep(rs, bot) == [] && Holes(rs, bot) == 0
  {
    if rs != [] {
      var n := |rs| - 1;
      assert rs[n] in rs;
      KeepNone(rs[..n], bot);
    }
  }

  /** From left to right no rectangle reaches into a gap found before it. */
  lemma LeftToRight(b: Band, rs: seq<PRect>)
    requires forall i, j | 0 <= i < j < |rs| :: rs[i].x0 <= rs[j].x0
    ensures Clear(b, rs)
  {
  }

  /** A layer fills its band from top to bottom and comes from left to right. */
  lemma LayeredBand(rem: seq<PRect>, bot: int, clip: PRect)
    requires Ready(rem, bot, clip) && rem != [] && Layered(rem) && forall r <- rem :: r.y0 >= bot
    ensures var b := BandOf(rem, bot, clip);
            var e := Lead(rem, b.top);
            && (forall k | 0 <= k < e :: rem[k].y0 == b.top && rem[k].y1 == b.bot)
            && (forall i, j | 0 <= i < j < e :: rem[i].x0 <= rem[j].x0)
  {
    var b := BandOf(rem, bot, clip);
    var e := Lead(rem, b.top);
    BandOk(rem, bot, clip);
    var first := rem[0];
    assert first in rem;
    forall k | 0 <= k < e ensures rem[k].y0 == b.top && rem[k].y1 == first.y1 {
      assert rem[k] in rem && Level(first, rem[k]) && (k > 0 ==> Before(first, rem[k]));
    }
    LeadOk(rem, b.top);
    var i := LowestOk(rem[..e]);
    assert rem[..e][i] == rem[i];
    if e < |rem| { assert rem[e] in rem && Level(first, rem[e]); }
    forall i, j | 0 <= i < j < e ensures rem[i].x0 <= rem[j].x0 { assert Before(rem[i], rem[j]); }
  }

  lemma LayeredFine(rem: seq<PRect>, bot: int, clip: PRect)
    requires Ready(rem, bot, clip) && rem != [] && Layered(rem) && forall r <- rem :: r.y0 >= bot
    ensures FirstFine(rem, bot, clip)
  {
    var b := BandOf(rem, bot, clip);
    var e := Lead(rem, b.top);
    LayeredBand(rem, bot, clip);
    forall r <- rem[..e] ensures r.y1 <= b.bot {
      var k :| 0 <= k < e && rem[k] == r;
    }
    KeepNone(rem[..e], b.bot);
    var seen := Seen(rem, e, b.bot);
    assert seen == rem[..e] && seen[..e] == seen;
    forall i, j | 0 <= i < j < |seen| ensures seen[i].x0 <= seen[j].x0 {}
    LeftToRight(b, seen);
  }

  lemma LayeredNext(rem: seq<PRect>, bot: int, clip: PRect)
    requires Ready(rem, bot, clip) && rem != [] && Layered(rem) && forall r <- rem :: r.y0 >= bot
    ensures Layered(Next(rem, bot, clip)) && forall r <- Next(rem, bot, clip) :: r.y0 >= NextRow(rem, bot, clip)
  {
    var b := BandOf(rem, bot, clip);
    BandOk(rem, bot, clip);
    LayeredBand(rem, bot, clip);
    forall r <- Next(rem, bot, clip) ensures r in rem && r.y0 > b.bot {
      KeepMembers(rem, b.bot, r);
      var k :| 0 <= k < |rem| && rem[k] == r;
    }
  }

  /** Rectangles with equal or disjoint vertical extents are orderly. */
  lemma {:induction false} LayeredOrderly(rem: seq<PRect>, bot: int, clip: PRect)
    requires Ready(rem, bot, clip) && Layered(rem) && forall r <- rem :: r.y0 >= bot
    ensures Orderly(rem, bot, clip)
    decreases clip.y1 + 1 - bot
  {
    if rem != [] {
      NextReady(rem, bot, clip);
      LayeredFine(rem, bot, clip);
      LayeredNext(rem, bot, clip);
      LayeredOrderly(Next(rem, bot, clip), NextRow(rem, bot, clip), clip);
    }
  }

  /** What reaches below the band is kept as it is, and makes no holes. */
  lemma {:induction false} KeepTail(rem: seq<PRect>, t: nat, bot: int)
    requires t <= |rem| && forall k | t <= k < |rem| :: rem[k].y1 > bot
    ensures Keep(rem, bot) == Keep(rem[..t], bot) + rem[t..] && Holes(rem, bot) == Holes(rem[..t], bot)
  {
    var n := |rem|;
    if t == n {
      assert rem[..t] == rem;
    } else {
      var us := rem[..n - 1];
      assert us[..t] == rem[..t] && rem[t..] == us[t..] + [rem[n - 1]];
      KeepTail(us, t, bot);
    }
  }

  /** The sweep goes on: what is done, the first band, and the rest. */
  lemma GoOn(done: seq<PRect>, rem: seq<PRect>, bot: int, clip: PRect)
    requires Ready(rem, bot, clip) && rem != []
    ensures Ready(Next(rem, bot, clip), NextRow(rem, bot, clip), clip) && NextRow(rem, bot, clip) > bot
    ensures done + Areas(rem, bot, clip)
         == (done + FirstBand(rem, bot, clip, [])) + Areas(Next(rem, bot, clip), NextRow(rem, bot, clip), clip)
  {
    NextReady(rem, bot, clip);
    Together(done, rem, bot, clip, Areas(Next(rem, bot, clip), NextRow(rem, bot, clip), clip));
  }

  lemma Together(done: seq<PRect>, rem: seq<PRect>, bot: int, clip: PRect, below: seq<PRect>)
    requires rem != []
    ensures done + FirstBand(rem, bot, clip, below) == (done + FirstBand(rem, bot, clip, [])) + below
  {
  }

  /** The first band, from where it begins and what was found out about it. */
  lemma BandIs(rem: seq<PRect>, bot0: int, clip: PRect, top: int, bot: int, e: nat)
    requires Ready(rem, bot0, clip) && rem != [] && top == Max(bot0, rem[0].y0)
    requires bot == Bottom(rem, top) && e == Lead(rem, top)
    ensures Spans(rem, e, Band(clip, top, bot)) && Clipped(rem, clip)
    ensures Next(rem, bot0, clip) == Keep(rem, bot) && NextRow(rem, bot0, clip) == bot + 1
    ensures FirstBand(rem, bot0, clip, []) == Above(bot0, top, clip) + Free(Band(clip, top, bot), Seen(rem, e, bot))
  {
    BandOk(rem, bot0, clip);
  }
}
