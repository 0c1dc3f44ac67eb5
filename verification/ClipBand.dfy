/**
 One band of the sweep of clip_children: the rows from top to bot of a clip, and the areas
 that are found free while rectangles that lie over these rows are seen one after another.
 */
module ClipBand {
  /** A PRECT: both corners belong to the rectangle. */
  datatype PRect = PRect(x0: int, y0: int, x1: int, y1: int) {
    predicate NonEmpty() { x0 <= x1 && y0 <= y1 }
    predicate Has(px: int, py: int) { x0 <= px <= x1 && y0 <= py <= y1 }
    predicate Inside(o: PRect) { o.x0 <= x0 && o.y0 <= y0 && x1 <= o.x1 && y1 <= o.y1 }
    predicate Apart(o: PRect) { x1 < o.x0 || o.x1 < x0 || y1 < o.y0 || o.y1 < y0 }
  }

  predicate PairwiseApart(rs: seq<PRect>) {
    forall i, j | 0 <= i < j < |rs| :: rs[i].Apart(rs[j])
  }

  predicate Covers(rs: seq<PRect>, px: int, py: int) {
    exists r <- rs :: r.Has(px, py)
  }

  predicate Clipped(rs: seq<PRect>, clip: PRect) {
    forall r <- rs :: r.NonEmpty() && r.Inside(clip)
  }

  lemma CoversOne(r: PRect, px: int, py: int)
    ensures Covers([r], px, py) <==> r.Has(px, py)
  {
    assert r in [r];
  }

  lemma CoversJoin(us: seq<PRect>, ws: seq<PRect>, px: int, py: int)
    ensures Covers(us + ws, px, py) <==> Covers(us, px, py) || Covers(ws, px, py)
  {
    assert forall r :: r in us + ws <==> r in us || r in ws;
  }

  datatype Band = Band(clip: PRect, top: int, bot: int) {
    predicate Valid() { clip.NonEmpty() && clip.y0 <= top <= bot <= clip.y1 }
  }

  /** Where the part of the band right of all rectangles seen so far begins. */
  function Edge(b: Band, rs: seq<PRect>): int {
    if rs == [] then b.clip.x0 else
      var x, r := Edge(b, rs[..|rs| - 1]), rs[|rs| - 1];
      if x <= r.x1 then r.x1 + 1 else x
  }

  /** The free areas found left of the rectangles seen so far. */
  function Gaps(b: Band, rs: seq<PRect>): seq<PRect> {
    if rs == [] then [] else
      var x, r := Edge(b, rs[..|rs| - 1]), rs[|rs| - 1];
      Gaps(b, rs[..|rs| - 1]) + if x < r.x0 then [PRect(x, b.top, r.x0 - 1, b.bot)] else []
  }

  /** All free areas of a band, the one on the right included. */
  function Free(b: Band, rs: seq<PRect>): seq<PRect> {
    Gaps(b, rs) + if Edge(b, rs) <= b.clip.x1 then [PRect(Edge(b, rs), b.top, b.clip.x1, b.bot)] else []
  }

  predicate InBand(b: Band, rs: seq<PRect>, x: int) {
    forall r <- rs :: b.clip.x0 <= r.x0 <= r.x1 < x && r.y0 == b.top && r.y1 == b.bot
  }

  lemma {:induction false} GapsShape(b: Band, rs: seq<PRect>)
    requires b.Valid() && Clipped(rs, b.clip)
    ensures b.clip.x0 <= Edge(b, rs) <= b.clip.x1 + 1
    ensures InBand(b, Gaps(b, rs), Edge(b, rs)) && PairwiseApart(Gaps(b, rs))
  {
    if rs != [] {
      assert rs[|rs| - 1] in rs;
      GapsShape(b, rs[..|rs| - 1]);
    }
  }

  /** Whatever rectangles are taken out, the areas of a band are disjoint and inside it. */
  lemma FreeShape(b: Band, rs: seq<PRect>)
    requires b.Valid() && Clipped(rs, b.clip)
    ensures InBand(b, Free(b, rs), b.clip.x1 + 1) && PairwiseApart(Free(b, rs)) && Clipped(Free(b, rs), b.clip)
  {
    GapsShape(b, rs);
  }

  /** The column lies in a gap that was found. */
  predicate Gap(b: Band, rs: seq<PRect>, px: int) {
    rs != [] && (Gap(b, rs[..|rs| - 1], px) || Edge(b, rs[..|rs| - 1]) <= px < rs[|rs| - 1].x0)
  }

  /** The column is taken for free. */
  predicate Vacant(b: Band, rs: seq<PRect>, px: int) {
    Gap(b, rs, px) || Edge(b, rs) <= px
  }

  /** The column belongs to a rectangle. */
  predicate Taken(rs: seq<PRect>, px: int) {
    exists r <- rs :: r.x0 <= px <= r.x1
  }

  lemma {:induction false} GapsColumns(b: Band, rs: seq<PRect>, px: int, py: int)
    requires b.top <= py <= b.bot
    ensures Covers(Gaps(b, rs), px, py) <==> Gap(b, rs, px)
  {
    if rs != [] {
      var us, r := rs[..|rs| - 1], rs[|rs| - 1];
      GapsColumns(b, us, px, py);
      var a := PRect(Edge(b, us), b.top, r.x0 - 1, b.bot);
      CoversJoin(Gaps(b, us), [a], px, py);
      CoversOne(a, px, py);
      assert Edge(b, us) >= r.x0 ==> Gaps(b, rs) == Gaps(b, us);
    }
  }

  lemma FreeColumns(b: Band, rs: seq<PRect>, px: int, py: int)
    requires b.top <= py <= b.bot && px <= b.clip.x1
    ensures Covers(Free(b, rs), px, py) <==> Vacant(b, rs, px)
  {
    GapsColumns(b, rs, px, py);
    var last := PRect(Edge(b, rs), b.top, b.clip.x1, b.bot);
    CoversJoin(Gaps(b, rs), [last], px, py);
    CoversOne(last, px, py);
    assert Edge(b, rs) > b.clip.x1 ==> Free(b, rs) == Gaps(b, rs);
  }

  lemma {:induction false} EdgeBeyond(b: Band, rs: seq<PRect>, j: nat)
    requires j < |rs|
    ensures rs[j].x1 < Edge(b, rs)
  {
    if j < |rs| - 1 { EdgeBeyond(b, rs[..|rs| - 1], j); }
  }

  lemma TakenMore(us: seq<PRect>, r: PRect, px: int)
    ensures Taken(us + [r], px) <==> Taken(us, px) || r.x0 <= px <= r.x1
  {
    assert forall q :: q in us + [r] <==> q in us || q == r;
  }

  /** Left of the edge every column is in a gap or a rectangle, right of it in neither. */
  lemma {:induction false} EdgeDivides(b: Band, rs: seq<PRect>, px: int)
    requires b.clip.x0 <= px && forall r <- rs :: b.clip.x0 <= r.x0 <= r.x1
    ensures px < Edge(b, rs) ==> Gap(b, rs, px) || Taken(rs, px)
    ensures px >= Edge(b, rs) ==> !Gap(b, rs, px) && !Taken(rs, px)
  {
    if rs != [] {
      var us, r := rs[..|rs| - 1], rs[|rs| - 1];
      assert rs == us + [r] && r in rs;
      EdgeDivides(b, us, px);
      TakenMore(us, r, px);
    }
  }

  /** The gap before rectangle i. */
  predicate GapBefore(b: Band, rs: seq<PRect>, i: nat, px: int)
    requires i < |rs|
  {
    Edge(b, rs[..i]) <= px < rs[i].x0
  }

  lemma {:induction false} GapAt(b: Band, rs: seq<PRect>, i: nat, px: int)
    requires i < |rs| && GapBefore(b, rs, i, px)
    ensures Gap(b, rs, px)
  {
    var us := rs[..|rs| - 1];
    if i < |us| {
      assert us[..i] == rs[..i] && us[i] == rs[i];
      GapAt(b, us, i, px);
    }
  }

  lemma {:induction false} GapIndex(b: Band, rs: seq<PRect>, px: int) returns (i: nat)
    requires Gap(b, rs, px)
    ensures i < |rs| && GapBefore(b, rs, i, px)
  {
    var us := rs[..|rs| - 1];
    if Gap(b, us, px) {
      i := GapIndex(b, us, px);
      assert us[..i] == rs[..i] && us[i] == rs[i];
    } else {
      i := |us|;
    }
  }

  /** Rectangle j reaches into the gap that was found before rectangle i. */
  predicate Hits(b: Band, rs: seq<PRect>, i: nat, j: nat)
    requires i < j < |rs|
  {
    Edge(b, rs[..i]) < rs[i].x0 && rs[j].x0 < rs[i].x0 && Edge(b, rs[..i]) <= rs[j].x1
  }

  /** No rectangle reaches into a gap found before it. */
  predicate Clear(b: Band, rs: seq<PRect>) {
    forall i, j | 0 <= i < j < |rs| :: !Hits(b, rs, i, j)
  }

  lemma HitColumn(b: Band, rs: seq<PRect>, i: nat, j: nat) returns (px: int)
    requires i < j < |rs| && Hits(b, rs, i, j) && rs[j].x0 <= rs[j].x1
    ensures Gap(b, rs, px) && Taken(rs, px) && px <= rs[j].x1
  {
    px := if rs[j].x0 < Edge(b, rs[..i]) then Edge(b, rs[..i]) else rs[j].x0;
    GapAt(b, rs, i, px);
    assert rs[j] in rs;
  }

  /** In a clear band no column is both in a gap and in a rectangle. */
  lemma ClearColumn(b: Band, rs: seq<PRect>, px: int)
    requires Clear(b, rs)
    ensures !(Gap(b, rs, px) && Taken(rs, px))
  {
    if Gap(b, rs, px) && Taken(rs, px) {
      var i := GapIndex(b, rs, px);
      var r :| r in rs && r.x0 <= px <= r.x1;
      var j :| 0 <= j < |rs| && rs[j] == r;
      if j < i { EdgeBeyond(b, rs[..i], j); }
      assert i < j ==> Hits(b, rs, i, j);
    }
  }

  /** The rectangles seen behind the first e, which do not lie over the band, change nothing. */
  predicate Harmless(b: Band, seen: seq<PRect>, e: nat)
    requires e <= |seen|
  {
    forall k | e <= k < |seen| :: seen[k].x1 < Edge(b, seen[..e])
  }

  lemma {:induction false} HarmlessSame(b: Band, seen: seq<PRect>, e: nat, px: int)
    requires e <= |seen| && Harmless(b, seen, e) && forall r <- seen :: r.x0 <= r.x1
    ensures Edge(b, seen) == Edge(b, seen[..e]) && (Gap(b, seen, px) <==> Gap(b, seen[..e], px))
  {
    if e < |seen| {
      var us := seen[..|seen| - 1];
      assert us[..e] == seen[..e] && seen[|seen| - 1] in seen;
      HarmlessSame(b, us, e, px);
    } else {
      assert seen[..e] == seen;
    }
  }

  /** Otherwise they swallow a column that no rectangle of the band covers. */
  lemma {:induction false} HarmColumn(b: Band, seen: seq<PRect>, e: nat) returns (px: int)
    requires e <= |seen| && !Harmless(b, seen, e) && forall r <- seen :: b.clip.x0 <= r.x0 <= r.x1 <= b.clip.x1
    ensures Edge(b, seen[..e]) <= px < Edge(b, seen) && !Gap(b, seen, px) && px <= b.clip.x1
  {
    var n := |seen| - 1;
    var us, r := seen[..n], seen[n];
    assert us[..e] == seen[..e] && r in seen;
    if !Harmless(b, us, e) {
      px := HarmColumn(b, us, e);
    } else {
      px := r.x1;
      HarmlessSame(b, us, e, px);
      assert forall k | e <= k < n :: us[k] == seen[k];
      GapBound(b, us, px);
    }
  }

  lemma {:induction false} GapBound(b: Band, rs: seq<PRect>, px: int)
    requires forall r <- rs :: r.x0 <= r.x1
    ensures Gap(b, rs, px) ==> px < Edge(b, rs)
  {
    if rs != [] {
      assert rs[|rs| - 1] in rs;
      GapBound(b, rs[..|rs| - 1], px);
    }
  }

  /** The columns taken for free are exactly those without a rectangle of the band. */
  ghost predicate Right(b: Band, seen: seq<PRect>, e: nat)
    requires e <= |seen|
  {
    forall px | b.clip.x0 <= px <= b.clip.x1 :: Vacant(b, seen, px) <==> !Taken(seen[..e], px)
  }

  /** What must hold of the rectangles for that. */
  predicate Fine(b: Band, seen: seq<PRect>, e: nat)
    requires e <= |seen|
  {
    Clear(b, seen[..e]) && Harmless(b, seen, e)
  }

  lemma FineIsRight(b: Band, seen: seq<PRect>, e: nat)
    requires e <= |seen| && Fine(b, seen, e) && forall r <- seen :: b.clip.x0 <= r.x0 <= r.x1 <= b.clip.x1
    ensures Right(b, seen, e)
  {
    var own := seen[..e];
    forall px | b.clip.x0 <= px <= b.clip.x1 ensures Vacant(b, seen, px) <==> !Taken(own, px) {
      HarmlessSame(b, seen, e, px);
      ClearColumn(b, own, px);
      EdgeDivides(b, own, px);
    }
  }

  lemma RightIsFine(b: Band, seen: seq<PRect>, e: nat)
    requires e <= |seen| && Right(b, seen, e) && forall r <- seen :: b.clip.x0 <= r.x0 <= r.x1 <= b.clip.x1
    ensures Fine(b, seen, e)
  {
    var own := seen[..e];
    if !Harmless(b, seen, e) {
      var px := HarmColumn(b, seen, e);
      EdgeLeft(b, own);
      EdgeDivides(b, own, px);
    } else {
      forall i, j | 0 <= i < j < |own| ensures !Hits(b, own, i, j) {
        assert own[j] in seen && own[i] in seen;
        if Hits(b, own, i, j) {
          var px := HitColumn(b, own, i, j);
          HarmlessSame(b, seen, e, px);
          GapLeft(b, own, px);
        }
      }
    }
  }

  lemma {:induction false} EdgeLeft(b: Band, rs: seq<PRect>)
    ensures b.clip.x0 <= Edge(b, rs)
  {
    if rs != [] { EdgeLeft(b, rs[..|rs| - 1]); }
  }

  lemma {:induction false} GapLeft(b: Band, rs: seq<PRect>, px: int)
    ensures Gap(b, rs, px) ==> b.clip.x0 <= px
  {
    if rs != [] {
      GapLeft(b, rs[..|rs| - 1], px);
      EdgeLeft(b, rs[..|rs| - 1]);
    }
  }

  /** The band comes out right exactly when it is fine. */
  lemma FineExact(b: Band, seen: seq<PRect>, e: nat)
    requires e <= |seen| && forall r <- seen :: b.clip.x0 <= r.x0 <= r.x1 <= b.clip.x1
    ensures Right(b, seen, e) <==> Fine(b, seen, e)
  {
    if Fine(b, seen, e) { FineIsRight(b, seen, e); }
    if Right(b, seen, e) { RightIsFine(b, seen, e); }
  }
}
