/**
 When the sweep of clip_children is exact, said of the rectangles row by row, without bands and
 without what the sweep does to its list.
 */
module ClipRows {
  import opened Basics
  import opened ClipBand
  import opened ClipSweep

  /** The rectangles that lie over a row, and those that begin below it, in the order of the list. */
  function Alive(list: seq<PRect>, y: int): seq<PRect> {
    if list == [] then [] else
      var r := list[|list| - 1];
      Alive(list[..|list| - 1], y) + if r.y0 <= y <= r.y1 then [r] else []
  }

  function Later(list: seq<PRect>, y: int): seq<PRect> {
    if list == [] then [] else
      var r := list[|list| - 1];
      Later(list[..|list| - 1], y) + if r.y0 > y then [r] else []
  }

  /**
   Over the row no rectangle reaches into a gap between others that come before it. And if some
   end in it behind one that goes on, as many of the next rectangles below do not stick out to
   the right of all that lie over the row.
   */
  predicate Tidy(list: seq<PRect>, clip: PRect, y: int) {
    var b, own, later := Band(clip, y, y), Alive(list, y), Later(list, y);
    Clear(b, own) && forall k | 0 <= k < |later| && k < Holes(own, y) :: later[k].x1 < Edge(b, own)
  }

  ghost predicate AllTidy(list: seq<PRect>, clip: PRect, bot: int, end: int) {
    forall y | bot <= y < end :: Tidy(list, clip, y)
  }

  lemma {:induction false} SameEdge(b: Band, c: Band, rs: seq<PRect>)
    requires b.clip == c.clip
    ensures Edge(b, rs) == Edge(c, rs)
  {
    if rs != [] { SameEdge(b, c, rs[..|rs| - 1]); }
  }

  lemma SameClear(b: Band, c: Band, rs: seq<PRect>)
    requires b.clip == c.clip
    ensures Clear(b, rs) <==> Clear(c, rs)
  {
    forall i, j | 0 <= i < j < |rs| ensures Hits(b, rs, i, j) <==> Hits(c, rs, i, j) {
      SameEdge(b, c, rs[..i]);
    }
  }

  lemma AliveMore(us: seq<PRect>, r: PRect, y: int)
    ensures Alive(us + [r], y) == Alive(us, y) + if r.y0 <= y <= r.y1 then [r] else []
    ensures Later(us + [r], y) == Later(us, y) + if r.y0 > y then [r] else []
  {
    assert (us + [r])[..|us|] == us;
  }

  lemma OneAlive(us: seq<PRect>, r: PRect, y: int)
    requires Alive(us, y) == us && Later(us, y) == [] && r.y0 <= y <= r.y1
    ensures Alive(us + [r], y) == us + [r] && Later(us + [r], y) == []
  {
    AliveMore(us, r, y);
  }

  lemma OneLater(us: seq<PRect>, later: seq<PRect>, r: PRect, y: int)
    requires Later(us, y) == later && r.y0 > y
    ensures Alive(us + [r], y) == Alive(us, y) && Later(us + [r], y) == later + [r]
  {
    AliveMore(us, r, y);
  }

  lemma {:induction false} AllAlive(us: seq<PRect>, y: int)
    requires forall r <- us :: r.y0 <= y <= r.y1
    ensures Alive(us, y) == us && Later(us, y) == []
  {
    if us != [] {
      var front, last := us[..|us| - 1], us[|us| - 1];
      assert us == front + [last] && last in us;
      AllAlive(front, y);
      OneAlive(front, last, y);
    }
  }

  lemma {:induction false} ThenLater(us: seq<PRect>, ws: seq<PRect>, y: int)
    requires Alive(us, y) == us && Later(us, y) == [] && forall r <- ws :: r.y0 > y
    ensures Alive(us + ws, y) == us && Later(us + ws, y) == ws
  {
    if ws == [] {
      assert us + ws == us;
    } else {
      var front, last := ws[..|ws| - 1], ws[|ws| - 1];
      assert ws == front + [last] && last in ws && us + ws == us + front + [last];
      ThenLater(us, front, y);
      OneLater(us + front, front, last, y);
    }
  }

  /** In the rows of a band its own rectangles are alive and the others come later. */
  lemma SplitAlive(rem: seq<PRect>, e: nat, y: int)
    requires e <= |rem| && (forall k | 0 <= k < e :: rem[k].y0 <= y <= rem[k].y1)
    requires forall k | e <= k < |rem| :: rem[k].y0 > y
    ensures Alive(rem, y) == rem[..e] && Later(rem, y) == rem[e..]
  {
    AllAlive(rem[..e], y);
    ThenLater(rem[..e], rem[e..], y);
    assert rem == rem[..e] + rem[e..];
  }

  lemma KeepMore(us: seq<PRect>, r: PRect, bot: int)
    ensures Keep(us + [r], bot) == Keep(us, bot) + if r.y1 > bot then [r] else []
  {
    assert (us + [r])[..|us|] == us;
  }

  /** Rows below a band do not notice what ended in it. */
  lemma {:induction false} KeepAlive(rem: seq<PRect>, bot: int, y: int)
    requires y > bot && forall r <- rem :: r.y0 <= r.y1
    ensures Alive(Keep(rem, bot), y) == Alive(rem, y) && Later(Keep(rem, bot), y) == Later(rem, y)
  {
    if rem != [] {
      var n := |rem| - 1;
      var us, r := rem[..n], rem[n];
      assert r in rem && rem == us + [r];
      KeepAlive(us, bot, y);
      KeepMore(us, r, bot);
      AliveMore(us, r, y);
      AliveMore(Keep(us, bot), r, y);
      assert r.y1 <= bot ==> Keep(rem, bot) == Keep(us, bot);
    }
  }

  /** Rectangles that all go on below a row make no holes in it. */
  lemma {:induction false} NoHoles(rs: seq<PRect>, y: int)
    requires forall r <- rs :: r.y1 > y
    ensures Holes(rs, y) == 0
  {
    if rs != [] {
      assert rs[|rs| - 1] in rs;
      NoHoles(rs[..|rs| - 1], y);
    }
  }

  /** A row of a band but its last. */
  lemma InnerRow(rem: seq<PRect>, e: nat, b: Band, y: int)
    requires Spans(rem, e, b) && b.top <= y < b.bot
    ensures Tidy(rem, b.clip, y) <==> Clear(b, rem[..e])
  {
    SplitAlive(rem, e, y);
    forall r <- rem[..e] ensures r.y1 > y {
      var k :| 0 <= k < e && rem[..e][k] == r;
      assert rem[k] == r;
    }
    NoHoles(rem[..e], y);
    SameClear(Band(b.clip, y, y), b, rem[..e]);
  }

  /** Its last row. */
  lemma LastRow(rem: seq<PRect>, e: nat, b: Band)
    requires Spans(rem, e, b) && b.top <= b.bot
    ensures Tidy(rem, b.clip, b.bot) <==> Fine(b, Seen(rem, e, b.bot), e)
  {
    var y, own, seen, later := b.bot, rem[..e], Seen(rem, e, b.bot), rem[e..];
    var c := Band(b.clip, y, y);
    SplitAlive(rem, e, y);
    SameClear(c, b, own);
    SameEdge(c, b, own);
    assert seen[..e] == own;
    assert forall k | e <= k < |seen| :: seen[k] == later[k - e];
    if Tidy(rem, b.clip, y) {
      forall k | e <= k < |seen| ensures seen[k].x1 < Edge(b, own) { assert later[k - e].x1 < Edge(c, own); }
    }
    if Fine(b, seen, e) {
      forall k | 0 <= k < |later| && k < Holes(own, y) ensures later[k].x1 < Edge(c, own) {
        assert seen[e + k] == later[k];
      }
    }
  }

  /** The first band is fine exactly when all rows down to its end are tidy. */
  lemma BandTidy(rem: seq<PRect>, bot: int, clip: PRect)
    requires Ready(rem, bot, clip) && rem != []
    ensures FirstFine(rem, bot, clip) <==> AllTidy(rem, clip, bot, NextRow(rem, bot, clip))
  {
    var b := BandOf(rem, bot, clip);
    var e := Lead(rem, b.top);
    BandOk(rem, bot, clip);
    LastRow(rem, e, b);
    forall y | bot <= y < b.top ensures Tidy(rem, clip, y) { EmptyRow(rem, clip, y); }
    forall y | b.top <= y < b.bot ensures Tidy(rem, clip, y) <==> Clear(b, rem[..e]) { InnerRow(rem, e, b, y); }
    assert Seen(rem, e, b.bot)[..e] == rem[..e];
    if AllTidy(rem, clip, bot, b.bot + 1) { assert Tidy(rem, clip, b.bot); }
    if FirstFine(rem, bot, clip) {
      forall y | bot <= y < b.bot + 1 ensures Tidy(rem, clip, y) { assert y < b.top || b.top <= y < b.bot || y == b.bot; }
    }
  }

  /** Above the first rectangle nothing can be wrong. */
  lemma EmptyRow(rem: seq<PRect>, clip: PRect, y: int)
    requires Sorted(rem) && rem != [] && y < rem[0].y0
    ensures Tidy(rem, clip, y)
  {
    forall k | 0 <= k < |rem| ensures rem[k].y0 > y { assert k > 0 ==> Before(rem[0], rem[k]); }
    SplitAlive(rem, 0, y);
    assert rem[..0] == [];
  }

  lemma NextTidy(rem: seq<PRect>, bot: int, clip: PRect)
    requires Ready(rem, bot, clip) && rem != []
    ensures AllTidy(Next(rem, bot, clip), clip, NextRow(rem, bot, clip), clip.y1 + 1)
            <==> AllTidy(rem, clip, NextRow(rem, bot, clip), clip.y1 + 1)
  {
    var b := BandOf(rem, bot, clip);
    forall y | NextRow(rem, bot, clip) <= y < clip.y1 + 1 ensures Tidy(Next(rem, bot, clip), clip, y) <==> Tidy(rem, clip, y) {
      KeepAlive(rem, b.bot, y);
    }
  }

  /** The rectangles are orderly if and only if all rows are tidy. */
  lemma {:induction false} OrderlyRows(rem: seq<PRect>, bot: int, clip: PRect)
    requires Ready(rem, bot, clip)
    ensures Orderly(rem, bot, clip) <==> AllTidy(rem, clip, bot, clip.y1 + 1)
    decreases clip.y1 + 1 - bot
  {
    if rem == [] {
      forall y | bot <= y < clip.y1 + 1 ensures Tidy(rem, clip, y) {
        assert Alive(rem, y) == [] && Later(rem, y) == [];
      }
    } else {
      var rest, row := Next(rem, bot, clip), NextRow(rem, bot, clip);
      NextReady(rem, bot, clip);
      BandTidy(rem, bot, clip);
      NextTidy(rem, bot, clip);
      OrderlyRows(rest, row, clip);
    }
  }
}
