/**
 WindDrawPmap: a section of the screen is filled with copies of a pixmap laid out from an
 origin. Sections are given by their first and last pixel.
 */
module Tiling {
  import opened Basics
  import opened Modular

  datatype Point = Point(x: int, y: int)
  datatype Section = Section(lu: Point, rd: Point)

  predicate In(s: Section, p: Point) {
    s.lu.x <= p.x <= s.rd.x && s.lu.y <= p.y <= s.rd.y
  }

  /** The coordinate of the pixmap that belongs at v when copies of length n start at o. */
  function Phase(v: int, o: int, n: nat): (r: int)
    requires n > 0
    ensures 0 <= r < n
  {
    (v - o) % n
  }

  /** It counts from where the copy begins that v is in. */
  lemma PhaseCounts(v: int, o: int, n: nat)
    requires n > 0
    ensures exists k: int :: o + n * k == v - Phase(v, o, n)
  {
    assert o + n * ((v - o) / n) == v - Phase(v, o, n);
  }

  /** Inside one copy the coordinate runs along. */
  lemma PhaseAlong(v: int, o: int, n: nat, k: nat)
    requires n > 0 && Phase(v, o, n) + k < n
    ensures Phase(v + k, o, n) == Phase(v, o, n) + k
  {
    var q, r := (v - o) / n, (v - o) % n;
    assert v + k - o == n * q + (r + k);
    DivModUnique(v + k - o, n, q, r + k);
  }

  /** Behind it the next one begins. */
  lemma PhaseNext(v: int, o: int, n: nat)
    requires n > 0
    ensures Phase(v + n - Phase(v, o, n), o, n) == 0
  {
    var q, r := (v - o) / n, (v - o) % n;
    assert v + n - r - o == n * (q + 1) by { assert n * (q + 1) == n * q + n; }
    DivModUnique(v + n - r - o, n, q + 1, 0);
  }

  /** Where the server starts in the pixmap: C's remainder, and only of what is too large. */
  function Start(v: int, o: int, n: nat): int
    requires n > 0
  {
    if v - o >= n then (v - o) % n else v - o
  }

  /** That is right exactly for sections that do not begin before the origin. */
  lemma StartExact(v: int, o: int, n: nat)
    requires n > 0
    ensures Start(v, o, n) == Phase(v, o, n) <==> v >= o
  {
    if 0 <= v - o < n {
      DivModUnique(v - o, n, 0, v - o);
    }
  }

  /** What one copy adds: the pixels of the area at d, each from the matching place of s. */
  ghost predicate Added(drawn: map<Point, Point>, drawn': map<Point, Point>, s: Section, d: Point) {
    && (forall p :: p in drawn' <==> p in drawn || In(Target(s, d), p))
    && (forall p | p in drawn :: drawn'[p] == drawn[p])
    && (forall p | p in drawn' && p !in drawn :: drawn'[p] == Point(p.x - d.x + s.lu.x, p.y - d.y + s.lu.y))
  }

  function Target(s: Section, d: Point): Section {
    Section(d, Point(d.x + s.rd.x - s.lu.x, d.y + s.rd.y - s.lu.y))
  }

  /**
   Drawn are the pixels of the section above row y, and of the rows y to last those left of
   column x, all as the layout wants them.
   */
  ghost predicate Filled(drawn: map<Point, Point>, sect: Section, o: Point, w: nat, h: nat, y: int, last: int, x: int)
    requires w > 0 && h > 0
  {
    Extent(drawn, sect, y, last, x) && Layout(drawn, o, w, h)
  }

  ghost predicate Extent(drawn: map<Point, Point>, sect: Section, y: int, last: int, x: int) {
    forall p :: p in drawn <==> In(sect, p) && (p.y < y || (p.y <= last && p.x < x))
  }

  ghost predicate Layout(drawn: map<Point, Point>, o: Point, w: nat, h: nat)
    requires w > 0 && h > 0
  {
    forall p | p in drawn :: drawn[p] == Point(Phase(p.x, o.x, w), Phase(p.y, o.y, h))
  }

  /** A copy that begins at (x, y) in phase and stays in the pixmap draws what belongs there. */
  lemma InPhase(p: Point, s: Section, d: Point, o: Point, w: nat, h: nat)
    requires w > 0 && h > 0 && In(Target(s, d), p)
    requires s.lu == Point(Phase(d.x, o.x, w), Phase(d.y, o.y, h)) && s.rd.x < w && s.rd.y < h
    ensures Point(p.x - d.x + s.lu.x, p.y - d.y + s.lu.y) == Point(Phase(p.x, o.x, w), Phase(p.y, o.y, h))
  {
    PhaseAlong(d.x, o.x, w, p.x - d.x);
    PhaseAlong(d.y, o.y, h, p.y - d.y);
  }

  lemma CopyExtends(drawn: map<Point, Point>, drawn': map<Point, Point>, sect: Section, s: Section, d: Point, last: int, x': int)
    requires Extent(drawn, sect, d.y, last, d.x) && Added(drawn, drawn', s, d)
    requires sect.lu.x <= d.x && sect.lu.y <= d.y && last == Target(s, d).rd.y <= sect.rd.y
    requires s.lu.x <= s.rd.x && Target(s, d).rd.x <= sect.rd.x
    requires Target(s, d).rd.x + 1 == x' || (Target(s, d).rd.x == sect.rd.x < x')
    ensures Extent(drawn', sect, d.y, last, x')
  {
  }

  lemma CopyLays(drawn: map<Point, Point>, drawn': map<Point, Point>, o: Point, w: nat, h: nat, s: Section, d: Point)
    requires w > 0 && h > 0 && Layout(drawn, o, w, h) && Added(drawn, drawn', s, d)
    requires s.lu == Point(Phase(d.x, o.x, w), Phase(d.y, o.y, h)) && s.rd.x < w && s.rd.y < h
    ensures Layout(drawn', o, w, h)
  {
    forall p | p in drawn' ensures drawn'[p] == Point(Phase(p.x, o.x, w), Phase(p.y, o.y, h)) {
      if p !in drawn { InPhase(p, s, d, o, w, h); }
    }
  }

  /** The screen: which pixel of the pixmap was drawn where. */
  class Screen {
    var drawn: map<Point, Point>

    constructor ()
      ensures drawn == map[]
    {
      drawn := map[];
    }

    /** A raster copy of the part s of the pixmap to d; nothing is drawn over. */
    method Copy(s: Section, d: Point)
      requires forall p | In(Target(s, d), p) :: p !in drawn
      modifies this
      ensures Added(old(drawn), drawn, s, d)
    {
      drawn := drawn + map p: Point | p in Points(Target(s, d)) :: Point(p.x - d.x + s.lu.x, p.y - d.y + s.lu.y);
    }

    /** One copy of the inner loop: from column sx of the pixmap to its end or that of the section. */
    method DrawTile(sect: Section, o: Point, w: nat, h: nat, sy: int, sEnd: int, y: int, x: int, sx: int, sEndX: int, ghost last: int)
      requires w > 0 && h > 0 && sy == Phase(y, o.y, h) && sx == Phase(x, o.x, w) && sy <= sEnd < h
      requires sect.lu.x <= x <= sect.rd.x && sect.lu.y <= y && last == y + sEnd - sy <= sect.rd.y
      requires sEndX == Min(w - 1, sx + sect.rd.x - x) && Filled(drawn, sect, o, w, h, y, last, x)
      modifies this
      ensures Filled(drawn, sect, o, w, h, y, last, x + w - sx) && Phase(x + w - sx, o.x, w) == 0
    {
      ghost var before := drawn;
      var s := Section(Point(sx, sy), Point(sEndX, sEnd));
      Copy(s, Point(x, y));
      CopyExtends(before, drawn, sect, s, Point(x, y), last, x + w - sx);
      CopyLays(before, drawn, o, w, h, s, Point(x, y));
      PhaseNext(x, o.x, w);
    }

    /** The inner loop: the rows y to last, filled from the rows sy and following of the pixmap. */
    method DrawRows(sect: Section, o: Point, w: nat, h: nat, sy: int, sEnd: int, y: int, ghost last: int)
      requires w > 0 && h > 0 && sect.lu.x >= o.x && sy == Phase(y, o.y, h) && sEnd < h
      requires sect.lu.y <= y && last == y + sEnd - sy <= sect.rd.y && sy <= sEnd
      requires Filled(drawn, sect, o, w, h, y, last, sect.lu.x)
      modifies this
      ensures Filled(drawn, sect, o, w, h, last + 1, last + 1, sect.lu.x)
    {
      var sx, sEndX, x := Start(sect.lu.x, o.x, w), w - 1, sect.lu.x;
      StartExact(sect.lu.x, o.x, w);
      while sect.rd.x - x >= 0
        invariant sect.lu.x <= x && sx == Phase(x, o.x, w) && (x <= sect.rd.x ==> sEndX == w - 1)
        invariant Filled(drawn, sect, o, w, h, y, last, x)
        decreases sect.rd.x - x
      {
        var d := sect.rd.x - x;
        if d < w - 1 - sx {
          sEndX := sx + d;
        }
        DrawTile(sect, o, w, h, sy, sEnd, y, x, sx, sEndX, last);
        x := x + w - sx;
        sx := 0;
      }
    }

    /** WindDrawPmap: every pixel of the section is drawn once, no other, each in its place of the layout. */
    method DrawPmap(sect: Section, o: Point, w: nat, h: nat)
      requires w > 0 && h > 0 && drawn == map[] && sect.lu.x >= o.x && sect.lu.y >= o.y
      modifies this
      ensures forall p :: p in drawn <==> In(sect, p)
      ensures forall p | p in drawn :: drawn[p] == Point(Phase(p.x, o.x, w), Phase(p.y, o.y, h))
    {
      var sy, sEnd, y := Start(sect.lu.y, o.y, h), h - 1, sect.lu.y;
      StartExact(sect.lu.y, o.y, h);
      while sect.rd.y - y >= 0
        invariant sect.lu.y <= y && (y <= sect.rd.y ==> sy == Phase(y, o.y, h) && sEnd == h - 1)
        invariant Filled(drawn, sect, o, w, h, y, y, sect.lu.x)
        decreases sect.rd.y - y
      {
        var d := sect.rd.y - y;
        if d < h - 1 - sy {
          sEnd := sy + d;
        }
        assert Filled(drawn, sect, o, w, h, y, y + sEnd - sy, sect.lu.x);
        DrawRows(sect, o, w, h, sy, sEnd, y, y + sEnd - sy);
        PhaseNext(y, o.y, h);
        y := y + h - sy;
        sy := 0;
      }
    }
  }

  function Points(a: Section): (r: set<Point>)
    ensures forall p :: p in r <==> In(a, p)
  {
    set x: int, y: int | a.lu.x <= x <= a.rd.x && a.lu.y <= y <= a.rd.y :: Point(x, y)
  }
}
