/**
 CopyArea: the destination is clipped to its drawable, and then divided into the part for
 which there is a source and up to four tiles for which there is none.
 */
module CopyArea {
  import opened Basics

  datatype GRect = GRect(x: int, y: int, w: int, h: int)

  predicate In(r: GRect, px: int, py: int) {
    r.x <= px < r.x + r.w && r.y <= py < r.y + r.h
  }

  predicate Empty(r: GRect) {
    r.w <= 0 || r.h <= 0
  }

  /** The pixels of a drawable. */
  function Whole(width: nat, height: nat): GRect {
    GRect(0, 0, width, height)
  }

  function Moved(r: GRect, dx: int, dy: int): GRect {
    r.(x := r.x + dx, y := r.y + dy)
  }

  lemma PixelsOf(width: nat, height: nat, r: GRect, dx: int, dy: int, px: int, py: int)
    ensures In(Whole(width, height), px, py) <==> 0 <= px < width && 0 <= py < height
    ensures In(Moved(r, dx, dy), px + dx, py + dy) <==> In(r, px, py)
  {
  }

  /** A drawable as far as it matters here; only windows can be invisible. */
  datatype Drawable = Drawable(isWind: bool, visible: bool, width: nat, height: nat) {
    predicate Hidden() { isWind && !visible }
  }

  const CPdstP := 0x10
  const CPdstW := 0x20

  /** The pixels that a copy to (dstX, dstY) is meant to change. */
  predicate Wanted(draw: Drawable, dstX: int, dstY: int, w: int, h: int, px: int, py: int) {
    && dstX <= px < dstX + w && dstY <= py < dstY + h
    && 0 <= px < draw.width && 0 <= py < draw.height
  }

  /** clip_dst: the kind of destination, or 0 when there is nothing to draw. */
  method ClipDst(r: array<GRect>, draw: Drawable, srcX: int, srcY: int, dstX: int, dstY: int, w0: int, h0: int)
    returns (t: int)
    requires r.Length == 6
    modifies r
    ensures t == 0 <==> draw.Hidden() || !(exists px, py :: Wanted(draw, dstX, dstY, w0, h0, px, py))
    ensures t != 0 ==>
              && t == (if draw.isWind then 0x20 else 0x10) && !Empty(r[1])
              && (forall px, py :: In(r[1], px, py) <==> Wanted(draw, dstX, dstY, w0, h0, px, py))
              && r[0] == Moved(r[1], srcX - dstX, srcY - dstY)
  {
    if !draw.isWind {
      t := CPdstP;
    } else if draw.visible {
      t := CPdstW;
    } else {
      return 0;
    }
    var w, h := ClipTo(r, draw, srcX, srcY, dstX, dstY, w0, h0);
    CommonExact(GRect(dstX, dstY, w0, h0), Whole(draw.width, draw.height));
    if w <= 0 || h <= 0 {
      return 0;
    }
    assert Wanted(draw, dstX, dstY, w0, h0, r[1].x, r[1].y);
    r[0] := r[0].(w := w, h := h);
    r[1] := r[1].(w := w, h := h);
  }

  /** The four tests of clip_dst. */
  method ClipTo(r: array<GRect>, draw: Drawable, srcX: int, srcY: int, dstX: int, dstY: int, w0: int, h0: int)
    returns (w: int, h: int)
    requires r.Length == 6
    modifies r
    ensures GRect(r[1].x, r[1].y, w, h) == Common(GRect(dstX, dstY, w0, h0), Whole(draw.width, draw.height))
    ensures r[0].x == r[1].x + srcX - dstX && r[0].y == r[1].y + srcY - dstY
  {
    w, h := w0, h0;
    r[0] := r[0].(x := srcX, y := srcY);
    r[1] := r[1].(x := dstX, y := dstY);
    if r[1].x < 0 {
      r[0] := r[0].(x := r[0].x - r[1].x);
      w := w + r[1].x;
      r[1] := r[1].(x := 0);
    }
    if r[1].x + w > draw.width {
      w := draw.width - r[1].x;
    }
    if r[1].y < 0 {
      r[0] := r[0].(y := r[0].y - r[1].y);
      h := h + r[1].y;
      r[1] := r[1].(y := 0);
    }
    if r[1].y + h > draw.height {
      h := draw.height - r[1].y;
    }
  }

  ghost function Common(a: GRect, b: GRect): GRect {
    var x, y := Max(a.x, b.x), Max(a.y, b.y);
    GRect(x, y, Min(a.x + a.w, b.x + b.w) - x, Min(a.y + a.h, b.y + b.h) - y)
  }

  lemma CommonExact(a: GRect, b: GRect)
    ensures forall px, py :: In(Common(a, b), px, py) <==> In(a, px, py) && In(b, px, py)
    ensures Empty(Common(a, b)) <==> !(exists px, py :: In(a, px, py) && In(b, px, py))
  {
    var c := Common(a, b);
    if !Empty(c) {
      assert In(a, c.x, c.y) && In(b, c.x, c.y);
    }
  }

  /** The pixels of `whole` are those of cur and of the tiles, and no pixel is in two of them. */
  ghost predicate Divided(whole: GRect, cur: GRect, tiles: seq<GRect>) {
    && (forall px, py :: In(whole, px, py) <==> In(cur, px, py) || exists k | 0 <= k < |tiles| :: In(tiles[k], px, py))
    && (forall k, px, py | 0 <= k < |tiles| :: In(tiles[k], px, py) ==> !In(cur, px, py))
    && (forall j, k, px, py | 0 <= j < k < |tiles| :: In(tiles[j], px, py) ==> !In(tiles[k], px, py))
    && (forall t <- tiles :: !Empty(t))
  }

  /** One tile is cut off; it takes its place in the list. */
  lemma CutOff(whole: GRect, cur: GRect, cur': GRect, t: GRect, before: seq<GRect>, after: seq<GRect>)
    requires Divided(whole, cur, before + after) && !Empty(t)
    requires forall px, py :: In(cur, px, py) <==> In(cur', px, py) || In(t, px, py)
    requires forall px, py :: !(In(cur', px, py) && In(t, px, py))
    ensures Divided(whole, cur', before + [t] + after)
  {
    var old', new' := before + after, before + [t] + after;
    var n := |before|;
    assert forall k | 0 <= k < n :: new'[k] == old'[k];
    assert forall k | n < k < |new'| :: new'[k] == old'[k - 1];
    forall px, py ensures In(whole, px, py) <==> In(cur', px, py) || exists k | 0 <= k < |new'| :: In(new'[k], px, py) {
      if k :| 0 <= k < |old'| && In(old'[k], px, py) {
        assert In(new'[if k < n then k else k + 1], px, py);
      }
      assert new'[n] == t;
    }
  }

  function Opt(r: GRect): seq<GRect> {
    if Empty(r) then [] else [r]
  }

  /** The four sides of cur in dst. */
  function Above(dst: GRect, cur: GRect): GRect { GRect(dst.x, dst.y, dst.w, cur.y - dst.y) }
  function Left(dst: GRect, cur: GRect): GRect { GRect(dst.x, cur.y, cur.x - dst.x, cur.h) }
  function Right(dst: GRect, cur: GRect): GRect { GRect(cur.x + cur.w, cur.y, dst.x + dst.w - cur.x - cur.w, cur.h) }
  function Below(dst: GRect, cur: GRect): GRect { GRect(dst.x, cur.y + cur.h, dst.w, dst.y + dst.h - cur.y - cur.h) }

  function Frame(dst: GRect, cur: GRect): seq<GRect> {
    Opt(Above(dst, cur)) + Opt(Left(dst, cur)) + Opt(Right(dst, cur)) + Opt(Below(dst, cur))
  }

  predicate Within(cur: GRect, dst: GRect) {
    && dst.x <= cur.x && cur.x + cur.w <= dst.x + dst.w
    && dst.y <= cur.y && cur.y + cur.h <= dst.y + dst.h
  }

  lemma CutOptional(whole: GRect, cur: GRect, cur': GRect, t: GRect, before: seq<GRect>, after: seq<GRect>)
    requires Divided(whole, cur, before + after)
    requires forall px, py :: In(cur, px, py) <==> In(cur', px, py) || In(t, px, py)
    requires forall px, py :: !(In(cur', px, py) && In(t, px, py))
    ensures Divided(whole, cur', before + Opt(t) + after)
  {
    if Empty(t) {
      assert before + Opt(t) + after == before + after;
    } else {
      CutOff(whole, cur, cur', t, before, after);
    }
  }

  lemma FrameDivides(dst: GRect, cur: GRect)
    requires !Empty(cur) && Within(cur, dst)
    ensures Divided(dst, cur, Frame(dst, cur))
  {
    var a, l, r, b := Above(dst, cur), Left(dst, cur), Right(dst, cur), Below(dst, cur);
    var c1 := dst.(h := cur.y + cur.h - dst.y);
    var c2 := GRect(dst.x, cur.y, dst.w, cur.h);
    var c3 := cur.(w := dst.x + dst.w - cur.x);
    var none: seq<GRect> := [];
    assert Divided(dst, dst, none + none);
    CutOptional(dst, dst, c1, b, [], []);
    assert none + Opt(b) + none == none + Opt(b);
    CutOptional(dst, c1, c2, a, [], Opt(b));
    assert none + Opt(a) + Opt(b) == Opt(a) + Opt(b);
    CutOptional(dst, c2, c3, l, Opt(a), Opt(b));
    CutOptional(dst, c3, cur, r, Opt(a) + Opt(l), Opt(b));
  }

  /** The end of clip_src: the tile below, kept in the last place, closes the list. */
  method Finish(r: array<GRect>, num: nat, below: bool, cur: GRect) returns (num': nat)
    requires r.Length == 6 && num <= 3
    modifies r
    ensures num' == num + if below then 1 else 0
    ensures r[2..2 + num'] == old(r[2..2 + num]) + if below then [old(r[5])] else []
    ensures r[1] == cur && r[0] == old(r[0]).(w := cur.w, h := cur.h)
  {
    num' := num;
    if below {
      num' := num' + 1;
      if num' < 4 {
        r[1 + num'] := r[5];
      }
    }
    r[1] := cur;
    r[0] := r[0].(w := cur.w, h := cur.h);
  }

  /** The first half of clip_src: the rows that have a source, the tile above and, in the last place, the one below. */
  method Rows(r: array<GRect>, height: nat) returns (ok: bool, num: nat, below: bool, y: int, h: int)
    requires r.Length == 6 && !Empty(r[1]) && r[0].h == r[1].h
    modifies r
    ensures ok <==> h > 0
    ensures h == Min(old(r[0].y) + old(r[0].h), height) - Max(old(r[0].y), 0) || !ok
    ensures !ok ==> Min(old(r[0].y) + old(r[0].h), height) <= Max(old(r[0].y), 0)
    ensures ok ==>
              && r[1] == old(r[1]) && r[0] == old(r[0]).(y := Max(old(r[0].y), 0))
              && y == r[1].y + r[0].y - old(r[0].y)
              && num <= 1 && r[2..2 + num] == Opt(GRect(r[1].x, r[1].y, r[1].w, y - r[1].y))
              && (if below then [r[5]] else []) == Opt(GRect(r[1].x, y + h, r[1].w, r[1].y + r[1].h - y - h))
  {
    ok, num, below := false, 0, false;
    y, h := r[1].y, r[1].h;
    var d := height - r[0].y;
    if h > d {
      below := true;
      r[5] := GRect(r[1].x, y + d, r[1].w, h - d);
      h := d;
      if h <= 0 {
        return;
      }
    }
    if r[0].y < 0 {
      h := h + r[0].y;
      if h <= 0 {
        return;
      }
      r[2 + num] := GRect(r[1].x, y, r[1].w, -r[0].y);
      num := num + 1;
      y := y - r[0].y;
      r[0] := r[0].(y := 0);
    }
    ok := true;
  }

  /** The second half: the columns that have a source, and the tiles on both sides of them. */
  method Columns(r: array<GRect>, width: nat, num: nat, y: int, h: int) returns (ok: bool, num': nat, x: int, w: int)
    requires r.Length == 6 && r[1].w > 0 && r[0].w == r[1].w && num <= 1 && h > 0
    modifies r
    ensures ok <==> w > 0
    ensures w == Min(old(r[0].x) + old(r[0].w), width) - Max(old(r[0].x), 0) || !ok
    ensures !ok ==> Min(old(r[0].x) + old(r[0].w), width) <= Max(old(r[0].x), 0)
    ensures ok ==>
              && r[1] == old(r[1]) && r[5] == old(r[5]) && r[0] == old(r[0]).(x := Max(old(r[0].x), 0))
              && x == r[1].x + r[0].x - old(r[0].x) && num' <= num + 2
              && r[2..2 + num'] == old(r[2..2 + num]) + Opt(GRect(r[1].x, y, x - r[1].x, h))
                                   + Opt(GRect(x + w, y, r[1].x + r[1].w - x - w, h))
  {
    ok, num', x, w := false, num, r[1].x, r[1].w;
    if r[0].x < 0 {
      w := w + r[0].x;
      if w <= 0 {
        return;
      }
      r[2 + num'] := GRect(x, y, -r[0].x, h);
      num' := num' + 1;
      x := x - r[0].x;
      r[0] := r[0].(x := 0);
    }
    assert r[2..2 + num'] == old(r[2..2 + num]) + Opt(GRect(r[1].x, y, x - r[1].x, h));
    var d := width - r[0].x;
    if w > d {
      r[2 + num'] := GRect(x + d, y, w - d, h);
      num' := num' + 1;
      w := d;
      if w <= 0 {
        return;
      }
    }
    ok := true;
  }

  /** The branches of clip_src. */
  method Sides(r: array<GRect>, width: nat, height: nat) returns (num: int)
    requires r.Length == 6 && !Empty(r[1]) && r[0].w == r[1].w && r[0].h == r[1].h
    modifies r
    ensures -1 <= num <= 4
    ensures num == -1 <==> Empty(Common(old(r[0]), Whole(width, height)))
    ensures num >= 0 ==>
              && r[0] == Common(old(r[0]), Whole(width, height))
              && r[1] == Moved(r[0], old(r[1].x - r[0].x), old(r[1].y - r[0].y))
              && r[2..2 + num] == Frame(old(r[1]), r[1])
  {
    var ok, n, below, y, h := Rows(r, height);
    if !ok {
      return -1;
    }
    var x, w;
    ok, n, x, w := Columns(r, width, n, y, h);
    if !ok {
      return -1;
    }
    num := Finish(r, n, below, GRect(x, y, w, h));
  }

  /**
   clip_src: -1 when there is no source at all, else the number of tiles. The copied part is
   exactly what has a source, and with the tiles it makes up the destination.
   */
  method ClipSrc(r: array<GRect>, width: nat, height: nat) returns (num: int)
    requires r.Length == 6 && !Empty(r[1]) && r[0].w == r[1].w && r[0].h == r[1].h
    modifies r
    ensures num == -1 <==> !(exists px, py :: In(old(r[0]), px, py) && In(Whole(width, height), px, py))
    ensures -1 <= num <= 4
    ensures num >= 0 ==>
              && (forall px, py :: In(r[0], px, py) <==> In(old(r[0]), px, py) && In(Whole(width, height), px, py))
              && r[1] == Moved(r[0], old(r[1].x - r[0].x), old(r[1].y - r[0].y)) && !Empty(r[1])
              && Divided(old(r[1]), r[1], r[2..2 + num])
  {
    ghost var src, dst := r[0], r[1];
    CommonExact(src, Whole(width, height));
    num := Sides(r, width, height);
    if num >= 0 {
      FrameDivides(dst, r[1]);
    }
  }

  /**
   Both in turn, as for a CopyArea between different drawables: the pixels to change that have
   a source are one rectangle, the others up to four tiles, and none is in two of them.
   */
  method CopyParts(r: array<GRect>, dst: Drawable, src: Drawable, srcX: int, srcY: int, dstX: int, dstY: int, w: int, h: int)
    returns (t: int, num: int)
    requires r.Length == 6
    modifies r
    ensures -1 <= num <= 4
    ensures t == 0 <==> dst.Hidden() || !(exists px, py :: Wanted(dst, dstX, dstY, w, h, px, py))
    ensures t != 0 ==>
              (num == -1 <==> !(exists px, py :: Wanted(dst, dstX, dstY, w, h, px, py)
                                                 && In(Whole(src.width, src.height), px + srcX - dstX, py + srcY - dstY)))
    ensures t != 0 && num >= 0 ==>
              && (forall px, py :: In(r[1], px, py) <==>
                    Wanted(dst, dstX, dstY, w, h, px, py)
                    && In(Whole(src.width, src.height), px + srcX - dstX, py + srcY - dstY))
              && (forall px, py :: Wanted(dst, dstX, dstY, w, h, px, py) <==>
                    In(r[1], px, py) || exists k | 2 <= k < 2 + num :: In(r[k], px, py))
              && (forall j, k, px, py | 1 <= j < k < 2 + num :: In(r[j], px, py) ==> !In(r[k], px, py))
  {
    t := ClipDst(r, dst, srcX, srcY, dstX, dstY, w, h);
    if t == 0 {
      return t, -1;
    }
    ghost var s0, d0 := r[0], r[1];
    num := ClipSrc(r, src.width, src.height);
    SourceOf(s0, d0, Whole(src.width, src.height), srcX - dstX, srcY - dstY);
    if num >= 0 {
      Listed(d0, r[1], r[..], num);
      forall px, py ensures In(r[1], px, py) <==> In(r[0], px + srcX - dstX, py + srcY - dstY) {}
    }
  }

  /** A pixel of the source rectangle belongs to one of the destination. */
  lemma SourceOf(src: GRect, dst: GRect, all: GRect, dx: int, dy: int)
    requires src == Moved(dst, dx, dy)
    ensures forall px, py :: In(dst, px, py) <==> In(src, px + dx, py + dy)
    ensures (exists px, py :: In(src, px, py) && In(all, px, py)) <==>
              (exists px, py :: In(dst, px, py) && In(all, px + dx, py + dy))
  {
    if px, py :| In(src, px, py) && In(all, px, py) {
      var qx, qy := px - dx, py - dy;
      assert In(dst, qx, qy) && In(all, qx + dx, qy + dy);
    }
    if px, py :| In(dst, px, py) && In(all, px + dx, py + dy) {
      assert In(src, px + dx, py + dy);
    }
  }

  /** The division with the tiles at their places in the array. */
  lemma Listed(whole: GRect, cur: GRect, r: seq<GRect>, num: nat)
    requires |r| == 6 && num <= 4 && r[1] == cur && Divided(whole, cur, r[2..2 + num])
    ensures forall px, py :: In(whole, px, py) <==> In(cur, px, py) || exists k | 2 <= k < 2 + num :: In(r[k], px, py)
    ensures forall j, k, px, py | 1 <= j < k < 2 + num :: In(r[j], px, py) ==> !In(r[k], px, py)
  {
    var tiles := r[2..2 + num];
    assert forall k | 2 <= k < 2 + num :: tiles[k - 2] == r[k];
    forall px, py ensures In(whole, px, py) <==> In(cur, px, py) || exists k | 2 <= k < 2 + num :: In(r[k], px, py) {
      if k :| 0 <= k < num && In(tiles[k], px, py) { assert In(r[k + 2], px, py); }
    }
    forall j, k, px, py | 1 <= j < k < 2 + num && In(r[j], px, py) ensures !In(r[k], px, py) {
      assert tiles[k - 2] == r[k] && (j > 1 ==> tiles[j - 2] == r[j]);
    }
  }
}
