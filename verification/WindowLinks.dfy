/**
 The sibling pointers as memory: what unlinking a window and stacking it on a parent do to
 the Parent, PrevSibl, NextSibl, StackBot and StackTop fields, and that doing so to the
 fields is doing the corresponding thing to the child lists.
 */
module WindowLinks {
  import opened Basics
  import opened WindowShape
  import opened WindowRuns

  /** The pointer fields of all WINDOW structs, one map from address to value per field. */
  datatype Mem = Mem(
    parent: map<Window, Window>,
    prev: map<Window, Window>,
    next: map<Window, Window>,
    bot: map<Window, Window>,
    top: map<Window, Window>)

  ghost predicate Covers(m: Mem, ws: set<Window>) {
    m.parent.Keys == ws && m.prev.Keys == ws && m.next.Keys == ws && m.bot.Keys == ws && m.top.Keys == ws
  }

  ghost predicate ListOk(kids: map<Window, seq<Window>>, p: Window)
    requires p in kids
  {
    Distinct(kids[p]) && forall c <- kids[p] :: c in kids
  }

  ghost predicate Apart(us: seq<Window>, ws: seq<Window>) {
    forall c <- us :: c !in ws
  }

  /** Child lists without repetition, no window in two of them. */
  ghost predicate Lists(kids: map<Window, seq<Window>>) {
    && NULL !in kids
    && (forall p {:trigger ListOk(kids, p)} | p in kids :: ListOk(kids, p))
    && (forall p, q {:trigger Apart(kids[p], kids[q])} | p in kids && q in kids && p != q :: Apart(kids[p], kids[q]))
  }

  /** w is in no child list. */
  ghost predicate Loose(kids: map<Window, seq<Window>>, w: Window) {
    forall q {:trigger kids[q]} | q in kids :: w !in kids[q]
  }

  ghost predicate LinkedAt(m: Mem, p: Window, ws: seq<Window>, i: nat)
    requires i < |ws|
  {
    && ws[i] in m.parent && m.parent[ws[i]] == p
    && ws[i] in m.prev && m.prev[ws[i]] == (if i == 0 then NULL else ws[i - 1])
    && ws[i] in m.next && m.next[ws[i]] == (if i == |ws| - 1 then NULL else ws[i + 1])
  }

  /** The pointers of p and of its children spell out ws, bottom to top. */
  ghost predicate ListLinked(m: Mem, p: Window, ws: seq<Window>) {
    && p in m.bot && m.bot[p] == (if ws == [] then NULL else ws[0])
    && p in m.top && m.top[p] == (if ws == [] then NULL else ws[|ws| - 1])
    && forall i | 0 <= i < |ws| :: LinkedAt(m, p, ws, i)
  }

  ghost predicate Linked(m: Mem, kids: map<Window, seq<Window>>) {
    Covers(m, kids.Keys) && forall p {:trigger ListLinked(m, p, kids[p])} | p in kids :: ListLinked(m, p, kids[p])
  }

  ghost predicate Closed(m: Mem, w: Window) {
    && w in m.parent && w in m.prev && w in m.next && m.prev[w] != w && m.next[w] != w
    && m.parent[w] != NULL && m.parent[w] in m.bot && m.parent[w] in m.top
    && (m.prev[w] != NULL ==> m.prev[w] in m.next)
    && (m.next[w] != NULL ==> m.next[w] in m.prev)
  }

  /** Taking w out of the list it is in; its own pointers stay as they are. */
  ghost function Unlinked(m: Mem, w: Window): Mem
    requires Closed(m, w)
  {
    var p := m.parent[w];
    m.(next := if m.prev[w] != NULL then m.next[m.prev[w] := m.next[w]] else m.next,
       bot := if m.prev[w] == NULL then m.bot[p := m.next[w]] else m.bot,
       prev := if m.next[w] != NULL then m.prev[m.next[w] := m.prev[w]] else m.prev,
       top := if m.next[w] == NULL then m.top[p := m.prev[w]] else m.top)
  }

  /** Putting w on top of the stack of p. */
  ghost function OnTop(m: Mem, w: Window, p: Window): Mem
    requires p in m.top
  {
    var t := m.top[p];
    m.(parent := m.parent[w := p],
       prev := m.prev[w := t],
       next := if t != NULL then m.next[w := NULL][t := w] else m.next[w := NULL],
       bot := if t == NULL then m.bot[p := w] else m.bot,
       top := m.top[p := w])
  }

  /** Putting w below the stack of p. */
  ghost function OnBottom(m: Mem, w: Window, p: Window): Mem
    requires p in m.bot
  {
    var b := m.bot[p];
    m.(parent := m.parent[w := p],
       next := m.next[w := b],
       prev := if b != NULL then m.prev[w := NULL][b := w] else m.prev[w := NULL],
       top := if b == NULL then m.top[p := w] else m.top,
       bot := m.bot[p := w])
  }

  /** What the pointers of a child say about its place in the list. */
  lemma Neighbours(m: Mem, kids: map<Window, seq<Window>>, p: Window, i: nat)
    requires Linked(m, kids) && Lists(kids) && p in kids && i < |kids[p]|
    ensures LinkedAt(m, p, kids[p], i) && Closed(m, kids[p][i])
    ensures i == 0 ==> m.bot[p] == kids[p][i]
    ensures i == |kids[p]| - 1 ==> m.top[p] == kids[p][i]
  {
    var ws := kids[p];
    assert ListLinked(m, p, ws) && LinkedAt(m, p, ws, i) && ListOk(kids, p);
    assert i > 0 ==> ws[i - 1] in ws;
    assert i < |ws| - 1 ==> ws[i + 1] in ws;
  }

  lemma UnlinkAt(m: Mem, p: Window, ws: seq<Window>, i: nat, k: nat)
    requires ListLinked(m, p, ws) && Distinct(ws) && i < |ws| && k < |ws| && k != i && Closed(m, ws[i]) && NULL !in ws
    ensures LinkedAt(Unlinked(m, ws[i]), p, ws[..i] + ws[i + 1..], if k < i then k else k - 1)
  {
    var us := ws[..i] + ws[i + 1..];
    var j := if k < i then k else k - 1;
    assert LinkedAt(m, p, ws, k) && LinkedAt(m, p, ws, i);
    assert us[j] == ws[k];
    assert i > 0 ==> ws[i - 1] in ws;
    assert i < |ws| - 1 ==> ws[i + 1] in ws;
    assert i > 0 ==> (ws[k] == ws[i - 1] <==> k == i - 1);
    assert i < |ws| - 1 ==> (ws[k] == ws[i + 1] <==> k == i + 1);
    assert j > 0 ==> us[j - 1] == (if k == i + 1 then ws[i - 1] else ws[k - 1]);
    assert j < |us| - 1 ==> us[j + 1] == (if k == i - 1 then ws[i + 1] else ws[k + 1]);
  }

  lemma UnlinkList(m: Mem, p: Window, ws: seq<Window>, w: Window)
    requires ListLinked(m, p, ws) && Distinct(ws) && w in ws && Closed(m, w) && NULL !in ws
    ensures ListLinked(Unlinked(m, w), p, Without(ws, w))
  {
    var i := Index(ws, w);
    var us := Without(ws, w);
    assert LinkedAt(m, p, ws, i);
    forall k: nat | k < |us| ensures LinkedAt(Unlinked(m, w), p, us, k) {
      UnlinkAt(m, p, ws, i, if k < i then k else k + 1);
    }
  }

  /** Pointers of a list are unaffected by writes to windows outside it. */
  lemma ListFrame(m: Mem, m': Mem, q: Window, us: seq<Window>)
    requires ListLinked(m, q, us)
    requires q in m'.bot && m'.bot[q] == m.bot[q] && q in m'.top && m'.top[q] == m.top[q]
    requires forall c <- us | c in m.parent :: c in m'.parent && m'.parent[c] == m.parent[c]
    requires forall c <- us | c in m.prev :: c in m'.prev && m'.prev[c] == m.prev[c]
    requires forall c <- us | c in m.next :: c in m'.next && m'.next[c] == m.next[c]
    ensures ListLinked(m', q, us)
  {
    forall k: nat | k < |us| ensures LinkedAt(m', q, us, k) {
      assert LinkedAt(m, q, us, k) && us[k] in us;
    }
  }

  lemma UnlinkOther(m: Mem, p: Window, ws: seq<Window>, i: nat, q: Window, us: seq<Window>)
    requires i < |ws| && LinkedAt(m, p, ws, i) && Closed(m, ws[i])
    requires ListLinked(m, q, us) && q != p && Apart(us, ws)
    ensures ListLinked(Unlinked(m, ws[i]), q, us)
  {
    assert i > 0 ==> ws[i - 1] in ws;
    assert i < |ws| - 1 ==> ws[i + 1] in ws;
    ListFrame(m, Unlinked(m, ws[i]), q, us);
  }

  lemma UnlinkCovers(m: Mem, ks: set<Window>, w: Window)
    requires Covers(m, ks) && Closed(m, w)
    ensures Covers(Unlinked(m, w), ks)
  {
    var p, b, a := m.parent[w], m.prev[w], m.next[w];
    assert b != NULL ==> m.next[b := a].Keys == ks;
    assert a != NULL ==> m.prev[a := b].Keys == ks;
    assert m.bot[p := a].Keys == ks && m.top[p := b].Keys == ks;
  }

  lemma UnlinkKeeps(m: Mem, kids: map<Window, seq<Window>>, p: Window, w: Window)
    requires Linked(m, kids) && Lists(kids) && p in kids && w in kids[p]
    ensures Closed(m, w) && Linked(Unlinked(m, w), kids[p := Without(kids[p], w)])
  {
    var ws := kids[p];
    Neighbours(m, kids, p, Index(ws, w));
    UnlinkCovers(m, kids.Keys, w);
    var m', kids' := Unlinked(m, w), kids[p := Without(ws, w)];
    assert kids'.Keys == kids.Keys;
    forall q | q in kids' ensures ListLinked(m', q, kids'[q]) {
      assert ListLinked(m, q, kids[q]) && ListOk(kids, q);
      if q == p {
        UnlinkList(m, p, ws, w);
      } else {
        assert Apart(kids[q], kids[p]);
        UnlinkOther(m, p, ws, Index(ws, w), q, kids[q]);
      }
    }
  }

  lemma OnTopCovers(m: Mem, ks: set<Window>, w: Window, p: Window)
    requires Covers(m, ks) && w in ks && p in ks && (m.top[p] != NULL ==> m.top[p] in ks)
    ensures Covers(OnTop(m, w, p), ks)
  {
    var t := m.top[p];
    assert m.next[w := NULL].Keys == ks;
    assert t != NULL ==> m.next[w := NULL][t := w].Keys == ks;
    assert OnTop(m, w, p).next.Keys == ks;
  }

  lemma OnBottomCovers(m: Mem, ks: set<Window>, w: Window, p: Window)
    requires Covers(m, ks) && w in ks && p in ks && (m.bot[p] != NULL ==> m.bot[p] in ks)
    ensures Covers(OnBottom(m, w, p), ks)
  {
    var t := m.bot[p];
    assert m.prev[w := NULL].Keys == ks;
    assert t != NULL ==> m.prev[w := NULL][t := w].Keys == ks;
    assert OnBottom(m, w, p).prev.Keys == ks;
  }

  lemma OnTopList(m: Mem, p: Window, ws: seq<Window>, w: Window)
    requires ListLinked(m, p, ws) && Distinct(ws) && w !in ws && NULL !in ws
    ensures ListLinked(OnTop(m, w, p), p, ws + [w])
  {
    var us := ws + [w];
    assert ws != [] ==> ws[|ws| - 1] in ws;
    forall k: nat | k < |us| ensures LinkedAt(OnTop(m, w, p), p, us, k) {
      if k < |ws| {
        assert LinkedAt(m, p, ws, k) && us[k] == ws[k] && ws[k] in ws;
        assert ws[k] == ws[|ws| - 1] <==> k == |ws| - 1;
      } else if ws != [] {
        assert us[k - 1] == ws[|ws| - 1] && ws[|ws| - 1] in ws;
      }
    }
  }

  lemma OnTopOther(m: Mem, p: Window, ws: seq<Window>, w: Window, q: Window, us: seq<Window>)
    requires ListLinked(m, p, ws) && ListLinked(m, q, us) && q != p && Apart(us, ws) && w !in us
    ensures ListLinked(OnTop(m, w, p), q, us)
  {
    assert ws != [] ==> ws[|ws| - 1] in ws;
    ListFrame(m, OnTop(m, w, p), q, us);
  }

  lemma OnTopKeeps(m: Mem, kids: map<Window, seq<Window>>, p: Window, w: Window)
    requires Linked(m, kids) && Lists(kids) && p in kids && w in kids
    requires Loose(kids, w)
    ensures Linked(OnTop(m, w, p), kids[p := kids[p] + [w]])
  {
    var ws := kids[p];
    var m', kids' := OnTop(m, w, p), kids[p := ws + [w]];
    assert ListLinked(m, p, ws) && ListOk(kids, p);
    assert ws != [] ==> ws[|ws| - 1] in ws;
    OnTopCovers(m, kids.Keys, w, p);
    assert kids'.Keys == kids.Keys;
    forall q | q in kids' ensures ListLinked(m', q, kids'[q]) {
      assert ListLinked(m, q, kids[q]);
      if q == p {
        OnTopList(m, p, ws, w);
      } else {
        assert Apart(kids[q], kids[p]);
        OnTopOther(m, p, ws, w, q, kids[q]);
      }
    }
  }

  lemma OnBottomList(m: Mem, p: Window, ws: seq<Window>, w: Window)
    requires ListLinked(m, p, ws) && Distinct(ws) && w !in ws && NULL !in ws
    ensures ListLinked(OnBottom(m, w, p), p, [w] + ws)
  {
    var us := [w] + ws;
    assert ws != [] ==> ws[0] in ws;
    forall k: nat | k < |us| ensures LinkedAt(OnBottom(m, w, p), p, us, k) {
      if k > 0 {
        assert LinkedAt(m, p, ws, k - 1) && us[k] == ws[k - 1] && ws[k - 1] in ws;
        assert ws[k - 1] == ws[0] <==> k == 1;
      } else if ws != [] {
        assert us[1] == ws[0] && ws[0] in ws;
      }
    }
  }

  lemma OnBottomOther(m: Mem, p: Window, ws: seq<Window>, w: Window, q: Window, us: seq<Window>)
    requires ListLinked(m, p, ws) && ListLinked(m, q, us) && q != p && Apart(us, ws) && w !in us
    ensures ListLinked(OnBottom(m, w, p), q, us)
  {
    assert ws != [] ==> ws[0] in ws;
    ListFrame(m, OnBottom(m, w, p), q, us);
  }

  lemma OnBottomKeeps(m: Mem, kids: map<Window, seq<Window>>, p: Window, w: Window)
    requires Linked(m, kids) && Lists(kids) && p in kids && w in kids
    requires Loose(kids, w)
    ensures Linked(OnBottom(m, w, p), kids[p := [w] + kids[p]])
  {
    var ws := kids[p];
    var m', kids' := OnBottom(m, w, p), kids[p := [w] + ws];
    assert ListLinked(m, p, ws) && ListOk(kids, p);
    assert ws != [] ==> ws[0] in ws;
    OnBottomCovers(m, kids.Keys, w, p);
    assert kids'.Keys == kids.Keys;
    forall q | q in kids' ensures ListLinked(m', q, kids'[q]) {
      assert ListLinked(m, q, kids[q]);
      if q == p {
        OnBottomList(m, p, ws, w);
      } else {
        assert Apart(kids[q], kids[p]);
        OnBottomOther(m, p, ws, w, q, kids[q]);
      }
    }
  }

  lemma ShapeLists(s: Shape)
    requires WellFormed(s)
    ensures Lists(s.kids)
  {
    forall p <- s.kids ensures ListOk(s.kids, p) {
      assert ChildrenOk(s, p);
    }
    forall p <- s.kids, q <- s.kids | p != q ensures Apart(s.kids[p], s.kids[q]) {
      forall c <- s.kids[p] ensures c !in s.kids[q] {
        UniqueParent(s, c, p);
        if c in s.kids[q] { UniqueParent(s, c, q); }
      }
    }
  }

  lemma WithoutLists(kids: map<Window, seq<Window>>, p: Window, w: Window)
    requires Lists(kids) && p in kids && w in kids[p]
    ensures Lists(kids[p := Without(kids[p], w)]) && Loose(kids[p := Without(kids[p], w)], w)
  {
    var kids' := kids[p := Without(kids[p], w)];
    assert ListOk(kids, p);
    WithoutMembers(kids[p], w);
    forall q <- kids' ensures ListOk(kids', q) && w !in kids'[q] {
      assert ListOk(kids, q);
      if q != p { assert Apart(kids[p], kids[q]); }
    }
    forall q <- kids', r <- kids' | q != r ensures Apart(kids'[q], kids'[r]) {
      assert Apart(kids[q], kids[r]);
    }
  }

  /** The pointers of all windows spell out the tree. */
  ghost predicate TreeLinked(m: Mem, s: Shape) {
    && Linked(m, s.kids)
    && s.root in m.parent && m.parent[s.root] == NULL
    && s.root in m.prev && m.prev[s.root] == NULL
    && s.root in m.next && m.next[s.root] == NULL
  }

  /** The pointers of a child of the tree. */
  lemma ChildPointers(m: Mem, s: Shape, p: Window, i: nat)
    requires WellFormed(s) && TreeLinked(m, s) && p in s.kids && i < |s.kids[p]|
    ensures LinkedAt(m, p, s.kids[p], i) && Closed(m, s.kids[p][i])
    ensures m.prev[s.kids[p][i]] == NULL <==> i == 0
    ensures m.next[s.kids[p][i]] == NULL <==> i == |s.kids[p]| - 1
    ensures forall c <- s.kids[p] :: c in s.kids && c != s.root && c != NULL && c != p
    ensures m.bot[p] == s.kids[p][0] && m.top[p] == s.kids[p][|s.kids[p]| - 1]
  {
    ShapeLists(s);
    Neighbours(m, s.kids, p, i);
    var ws := s.kids[p];
    forall c <- ws ensures c in s.kids && c != s.root && c != NULL && c != p { UniqueParent(s, c, p); }
    assert ListLinked(m, p, ws);
    assert i > 0 ==> ws[i - 1] in ws;
    assert i < |ws| - 1 ==> ws[i + 1] in ws;
  }

  /** Unlinking a window of the tree leaves it in no list. */
  lemma UnlinkShape(m: Mem, s: Shape, w: Window)
    requires WellFormed(s) && TreeLinked(m, s) && w in s.kids && w != s.root
    ensures Closed(m, w) && m.parent[w] == Parent(s, w)
    ensures var t := s.(kids := s.kids[Parent(s, w) := Without(s.kids[Parent(s, w)], w)]);
            TreeLinked(Unlinked(m, w), t) && Lists(t.kids) && Loose(t.kids, w)
  {
    var p := Parent(s, w);
    var ws := s.kids[p];
    var i := Index(ws, w);
    ShapeLists(s);
    UnlinkKeeps(m, s.kids, p, w);
    ChildPointers(m, s, p, i);
    assert i > 0 ==> ws[i - 1] in ws;
    assert i < |ws| - 1 ==> ws[i + 1] in ws;
    WithoutLists(s.kids, p, w);
  }

  /** Stacking a loose window leaves the pointers of the root alone. */
  lemma StackTopShape(m: Mem, s: Shape, w: Window, p: Window)
    requires TreeLinked(m, s) && Lists(s.kids) && Loose(s.kids, w) && Loose(s.kids, s.root)
    requires p in s.kids && w in s.kids && w != s.root
    ensures p in m.top && TreeLinked(OnTop(m, w, p), s.(kids := s.kids[p := s.kids[p] + [w]]))
  {
    var ws := s.kids[p];
    OnTopKeeps(m, s.kids, p, w);
    assert ListLinked(m, p, ws);
    assert ws != [] ==> ws[|ws| - 1] in ws;
  }

  lemma StackBottomShape(m: Mem, s: Shape, w: Window, p: Window)
    requires TreeLinked(m, s) && Lists(s.kids) && Loose(s.kids, w) && Loose(s.kids, s.root)
    requires p in s.kids && w in s.kids && w != s.root
    ensures p in m.bot && TreeLinked(OnBottom(m, w, p), s.(kids := s.kids[p := [w] + s.kids[p]]))
  {
    var ws := s.kids[p];
    OnBottomKeeps(m, s.kids, p, w);
    assert ListLinked(m, p, ws);
    assert ws != [] ==> ws[0] in ws;
  }

  lemma UpdateTwice(kids: map<Window, seq<Window>>, p: Window, us: seq<Window>, ws: seq<Window>)
    ensures kids[p := us][p := ws] == kids[p := ws]
  {
  }

  lemma RootLoose(s: Shape, p: Window, w: Window)
    requires WellFormed(s) && p in s.kids && w in s.kids[p]
    ensures Loose(s.kids, s.root) && Loose(s.kids[p := Without(s.kids[p], w)], s.root)
  {
    forall q <- s.kids ensures s.root !in s.kids[q] {
      if s.root in s.kids[q] { UniqueParent(s, s.root, q); }
    }
  }

  /** Circulating the pointers is circulating the lists. */
  lemma RaiseLinks(m: Mem, s: Shape, w: Window)
    requires WellFormed(s) && TreeLinked(m, s) && w in s.kids && w != s.root && Closed(m, w)
    requires Parent(s, w) in Unlinked(m, w).top
    ensures TreeLinked(OnTop(Unlinked(m, w), w, Parent(s, w)), Raised(s, w))
  {
    var p := Parent(s, w);
    UnlinkShape(m, s, w);
    RootLoose(s, p, w);
    var us := Without(s.kids[p], w);
    StackTopShape(Unlinked(m, w), s.(kids := s.kids[p := us]), w, p);
    UpdateTwice(s.kids, p, us, us + [w]);
  }

  lemma LowerLinks(m: Mem, s: Shape, w: Window)
    requires WellFormed(s) && TreeLinked(m, s) && w in s.kids && w != s.root && Closed(m, w)
    requires Parent(s, w) in Unlinked(m, w).bot
    ensures TreeLinked(OnBottom(Unlinked(m, w), w, Parent(s, w)), Lowered(s, w))
  {
    var p := Parent(s, w);
    UnlinkShape(m, s, w);
    RootLoose(s, p, w);
    var us := Without(s.kids[p], w);
    StackBottomShape(Unlinked(m, w), s.(kids := s.kids[p := us]), w, p);
    UpdateTwice(s.kids, p, us, [w] + us);
  }

  /** Sibling pointers are empty exactly where circulating moves nothing. */
  lemma StackEnds(m: Mem, s: Shape, w: Window)
    requires WellFormed(s) && TreeLinked(m, s) && w in s.kids && w != s.root
    ensures Closed(m, w) && m.parent[w] == Parent(s, w)
    ensures m.next[w] == NULL <==> Raised(s, w) == s
    ensures m.prev[w] == NULL <==> Lowered(s, w) == s
    ensures m.bot[Parent(s, w)] != NULL && m.top[Parent(s, w)] != NULL
    ensures m.next[w] != NULL ==> m.top[Parent(s, w)] != w
    ensures m.prev[w] != NULL ==> m.bot[Parent(s, w)] != w
  {
    var p := Parent(s, w);
    var ws := s.kids[p];
    var i := Index(ws, w);
    ChildPointers(m, s, p, i);
    assert ChildrenOk(s, p);
    assert ws[0] in ws && ws[|ws| - 1] in ws;
    CirculateStill(s, w, i);
  }

  /** Circulating changes the child list unless the window is at that end already. */
  lemma CirculateStill(s: Shape, w: Window, i: nat)
    requires WellFormed(s) && w in s.kids && w != s.root
    requires i == Index(s.kids[Parent(s, w)], w)
    ensures i == |s.kids[Parent(s, w)]| - 1 <==> Raised(s, w) == s
    ensures i == 0 <==> Lowered(s, w) == s
  {
    var p := Parent(s, w);
    var ws := s.kids[p];
    assert ChildrenOk(s, p);
    assert s == s.(kids := s.kids[p := ws]);
    if i == 0 { assert [w] + Without(ws, w) == ws; } else { assert Lowered(s, w).kids[p][0] != ws[0]; }
    if i == |ws| - 1 { assert Without(ws, w) + [w] == ws; } else { assert Raised(s, w).kids[p][|ws| - 1] != ws[|ws| - 1]; }
  }

  lemma ReparentLinks(m: Mem, s: Shape, w: Window, p: Window)
    requires WellFormed(s) && TreeLinked(m, s) && w in s.kids && w != s.root && p in s.kids && Closed(m, w)
    requires !Inferior(s, p, w) && Parent(s, w) != p && p in Unlinked(m, w).top
    ensures TreeLinked(OnTop(Unlinked(m, w), w, p), Reparented(s, w, p))
  {
    UnlinkShape(m, s, w);
    var q := Parent(s, w);
    RootLoose(s, q, w);
    StackTopShape(Unlinked(m, w), s.(kids := s.kids[q := Without(s.kids[q], w)]), w, p);
  }

  /** The memory of a window that is no longer allocated. */
  ghost function Freed(m: Mem, w: Window): Mem {
    Mem(m.parent - {w}, m.prev - {w}, m.next - {w}, m.bot - {w}, m.top - {w})
  }

  /** Unlinking and freeing a window without children is pruning it. */
  lemma FreeLinks(m: Mem, s: Shape, w: Window)
    requires WellFormed(s) && TreeLinked(m, s) && w in s.kids && w != s.root && s.kids[w] == [] && Closed(m, w)
    ensures TreeLinked(Freed(Unlinked(m, w), w), Pruned(s, w))
  {
    UnlinkShape(m, s, w);
    LeafPruned(s, w);
    var p := Parent(s, w);
    var m1, kids1 := Unlinked(m, w), s.kids[p := Without(s.kids[p], w)];
    var m', kids' := Freed(m1, w), Pruned(s, w).kids;
    assert Covers(m', kids'.Keys);
    forall q | q in kids' ensures ListLinked(m', q, kids'[q]) {
      assert kids'[q] == kids1[q] && w !in kids1[q];
      assert ListLinked(m1, q, kids1[q]);
      ListFrame(m1, m', q, kids1[q]);
    }
  }

  /** A newly allocated window, not yet in any list. */
  ghost function Allocated(m: Mem, w: Window): Mem {
    Mem(m.parent[w := NULL], m.prev[w := NULL], m.next[w := NULL], m.bot[w := NULL], m.top[w := NULL])
  }

  lemma AllocateLists(s: Shape, w: Window)
    requires WellFormed(s) && w !in s.kids && w != NULL
    ensures Lists(s.kids[w := []]) && Loose(s.kids[w := []], w) && Loose(s.kids[w := []], s.root)
  {
    ShapeLists(s);
    var kids1 := s.kids[w := []];
    forall q <- kids1 ensures ListOk(kids1, q) && w !in kids1[q] && s.root !in kids1[q] {
      if q in s.kids {
        assert ListOk(s.kids, q);
        if s.root in s.kids[q] { UniqueParent(s, s.root, q); }
      }
    }
    forall q <- kids1, r <- kids1 | q != r ensures Apart(kids1[q], kids1[r]) {
      assert q in s.kids && r in s.kids ==> Apart(s.kids[q], s.kids[r]);
    }
  }

  lemma AllocateLinks(m: Mem, s: Shape, w: Window)
    requires WellFormed(s) && TreeLinked(m, s) && w !in s.kids && w != NULL
    ensures TreeLinked(Allocated(m, w), s.(kids := s.kids[w := []]))
  {
    var m1, kids1 := Allocated(m, w), s.kids[w := []];
    assert Covers(m1, kids1.Keys);
    forall q <- kids1 ensures ListLinked(m1, q, kids1[q]) {
      if q != w {
        assert ListLinked(m, q, s.kids[q]) && ChildrenOk(s, q);
        ListFrame(m, m1, q, s.kids[q]);
      }
    }
  }

  /** Linking a new window on top of its parent's stack. */
  lemma CreateLinks(m: Mem, s: Shape, w: Window, p: Window)
    requires WellFormed(s) && TreeLinked(m, s) && p in s.kids && w !in s.kids && w != NULL
    ensures p in Allocated(m, w).top
    ensures TreeLinked(OnTop(Allocated(m, w), w, p), AddChild(s, w, p))
  {
    AllocateLists(s, w);
    AllocateLinks(m, s, w);
    var kids1 := s.kids[w := []];
    StackTopShape(Allocated(m, w), s.(kids := kids1), w, p);
  }

  lemma TopLive(m: Mem, s: Shape, p: Window)
    requires WellFormed(s) && TreeLinked(m, s) && p in s.kids
    ensures m.top[p] == NULL || (m.top[p] in s.kids && m.parent[m.top[p]] == p)
  {
    assert ListLinked(m, p, s.kids[p]);
    if s.kids[p] != [] { ChildPointers(m, s, p, |s.kids[p]| - 1); }
  }

  /** Parent pointers climb the path and end at the root. */
  lemma ParentPointers(m: Mem, s: Shape, w: Window)
    requires WellFormed(s) && TreeLinked(m, s) && w in s.kids
    ensures w == s.root ==> m.parent[w] == NULL && s.path[w] == [w]
    ensures w != s.root ==> m.parent[w] == Parent(s, w) && m.parent[w] != NULL && s.path[w] == [w] + s.path[m.parent[w]]
  {
    if w != s.root {
      var p := Parent(s, w);
      ChildPointers(m, s, p, Index(s.kids[p], w));
      assert ChildrenOk(s, p);
    }
  }

  type Client = nat

  /** The window memory, the tree it spells out and the pools that own the windows agree. */
  ghost predicate Consistent(m: Mem, s: Shape, pool: map<Window, Client>) {
    WellFormed(s) && TreeLinked(m, s) && pool.Keys == s.kids.Keys - {s.root}
  }

  lemma NeighboursAgree(m: Mem, s: Shape, p: Window, i: nat)
    requires WellFormed(s) && TreeLinked(m, s) && p in s.kids && i + 1 < |s.kids[p]|
    ensures var a, b := s.kids[p][i], s.kids[p][i + 1];
            && a in m.next && m.next[a] == b && b in m.prev && m.prev[b] == a
            && a in m.parent && m.parent[a] == p && b in m.parent && m.parent[b] == p
  {
    ChildPointers(m, s, p, i);
    ChildPointers(m, s, p, i + 1);
  }

  /** In terms of the pointers alone: neighbours point at each other. */
  lemma PointersAgree(m: Mem, s: Shape, pool: map<Window, Client>, w: Window)
    requires Consistent(m, s, pool) && w in s.kids && w != s.root
    ensures Closed(m, w)
    ensures m.next[w] != NULL ==> m.next[w] in m.parent && m.prev[m.next[w]] == w && m.parent[m.next[w]] == m.parent[w]
    ensures m.prev[w] != NULL ==> m.prev[w] in m.parent && m.next[m.prev[w]] == w && m.parent[m.prev[w]] == m.parent[w]
  {
    var p := Parent(s, w);
    var i := Index(s.kids[p], w);
    ChildPointers(m, s, p, i);
    if i > 0 { NeighboursAgree(m, s, p, i - 1); }
    if i + 1 < |s.kids[p]| { NeighboursAgree(m, s, p, i); }
  }

  /** And the ends of a list are what its parent points to. */
  lemma EndsAgree(m: Mem, s: Shape, pool: map<Window, Client>, w: Window)
    requires Consistent(m, s, pool) && w in s.kids && w != s.root
    ensures Closed(m, w)
    ensures m.next[w] == NULL <==> m.top[m.parent[w]] == w
    ensures m.prev[w] == NULL <==> m.bot[m.parent[w]] == w
  {
    var p := Parent(s, w);
    ChildPointers(m, s, p, Index(s.kids[p], w));
    StackEnds(m, s, w);
  }

  /** What RQ_CreateWindow relies on. */
  lemma CreateClosed(m: Mem, s: Shape, w: Window, p: Window)
    requires WellFormed(s) && TreeLinked(m, s) && p in s.kids && w !in s.kids && w != NULL
    ensures p in Allocated(m, w).top && Allocated(m, w).top[p] != w
  {
    TopLive(m, s, p);
  }

  /** What it leaves behind. */
  lemma CreateReady(m: Mem, s: Shape, pool: map<Window, Client>, w: Window, p: Window, clnt: Client)
    requires Consistent(m, s, pool) && p in s.kids && w !in s.kids && w != NULL
    ensures p in Allocated(m, w).top
    ensures Consistent(OnTop(Allocated(m, w), w, p), AddChild(s, w, p), pool[w := clnt])
  {
    CreateClosed(m, s, w, p);
    CreateLinks(m, s, w, p);
    AddChildKeeps(s, w, p);
    assert AddChild(s, w, p).kids.Keys == s.kids.Keys + {w};
  }

  /** What RQ_ReparentWindow relies on. */
  lemma ReparentClosed(m: Mem, s: Shape, w: Window, p: Window)
    requires WellFormed(s) && TreeLinked(m, s) && w in s.kids && w != s.root && p in s.kids && Parent(s, w) != p
    ensures Closed(m, w) && p in Unlinked(m, w).top && Unlinked(m, w).top[p] != w
  {
    UnlinkShape(m, s, w);
    assert ListLinked(Unlinked(m, w), p, s.kids[p]);
    if s.kids[p] != [] { ChildPointers(m, s, p, |s.kids[p]| - 1); }
  }

  /** What it leaves behind. */
  lemma ReparentReady(m: Mem, s: Shape, pool: map<Window, Client>, w: Window, p: Window)
    requires Consistent(m, s, pool) && w in s.kids && w != s.root && p in s.kids
    requires !Inferior(s, p, w) && Parent(s, w) != p
    ensures Closed(m, w) && p in Unlinked(m, w).top
    ensures Consistent(OnTop(Unlinked(m, w), w, p), Reparented(s, w, p), pool)
  {
    ReparentClosed(m, s, w, p);
    ReparentLinks(m, s, w, p);
    ReparentKeeps(s, w, p);
    ReparentedKeys(s, w, p);
  }

  lemma ReparentedKeys(s: Shape, w: Window, p: Window)
    requires WellFormed(s) && w in s.kids && w != s.root && p in s.kids && !Inferior(s, p, w) && Parent(s, w) != p
    ensures Reparented(s, w, p).kids.Keys == s.kids.Keys && Reparented(s, w, p).root == s.root
  {
  }

  /** Everything one round of WindDelete relies on and leaves behind. */
  lemma FreeReady(m: Mem, s: Shape, pool: map<Window, Client>, w: Window)
    requires Consistent(m, s, pool) && w in s.kids && w != s.root && s.kids[w] == []
    ensures Closed(m, w)
    ensures Consistent(Freed(Unlinked(m, w), w), Pruned(s, w), pool - {w})
  {
    UnlinkShape(m, s, w);
    FreeLinks(m, s, w);
    PruneKeeps(s, w);
    PrunedPool(s, pool, w);
  }

  lemma PrunedPool(s: Shape, pool: map<Window, Client>, w: Window)
    requires WellFormed(s) && pool.Keys == s.kids.Keys - {s.root} && w in s.kids && w != s.root && s.kids[w] == []
    ensures (pool - {w}).Keys == Pruned(s, w).kids.Keys - {Pruned(s, w).root}
  {
    LeafPruned(s, w);
    assert Pruned(s, w).kids.Keys == s.kids.Keys - {w};
  }

  /** Everything WindCirculate relies on and leaves behind. */
  lemma RaiseReady(m: Mem, s: Shape, pool: map<Window, Client>, w: Window)
    requires Consistent(m, s, pool) && w in s.kids && w != s.root && w in m.next && m.next[w] != NULL
    ensures Closed(m, w) && m.top[m.parent[w]] != NULL && m.top[m.parent[w]] != w
    ensures Consistent(OnTop(Unlinked(m, w), w, m.parent[w]), Raised(s, w), pool) && Raised(s, w) != s
  {
    StackEnds(m, s, w);
    CirculateKeeps(s, w);
    RaiseLinks(m, s, w);
  }

  lemma LowerReady(m: Mem, s: Shape, pool: map<Window, Client>, w: Window)
    requires Consistent(m, s, pool) && w in s.kids && w != s.root && w in m.prev && m.prev[w] != NULL
    ensures Closed(m, w) && m.bot[m.parent[w]] != NULL && m.bot[m.parent[w]] != w
    ensures Consistent(OnBottom(Unlinked(m, w), w, m.parent[w]), Lowered(s, w), pool) && Lowered(s, w) != s
  {
    StackEnds(m, s, w);
    CirculateKeeps(s, w);
    LowerLinks(m, s, w);
  }

  /** The pools lost exactly the windows the tree lost. */
  ghost predicate Shrunk(pool0: map<Window, Client>, s0: Shape, pool: map<Window, Client>, s: Shape) {
    pool == pool0 - (s0.kids.Keys - s.kids.Keys) && s.kids.Keys <= s0.kids.Keys
  }

  lemma ShrunkStep(pool0: map<Window, Client>, s0: Shape, s: Shape, w: Window)
    requires WellFormed(s) && w in s.kids && w != s.root && s.kids[w] == [] && s.kids.Keys <= s0.kids.Keys
    ensures Shrunk(pool0, s0, pool0 - (s0.kids.Keys - s.kids.Keys) - {w}, Pruned(s, w))
    ensures Pruned(s, w).kids.Keys < s.kids.Keys
  {
    LeafPruned(s, w);
    assert Pruned(s, w).kids.Keys == s.kids.Keys - {w};
    assert s0.kids.Keys - (s.kids.Keys - {w}) == (s0.kids.Keys - s.kids.Keys) + {w};
  }
}
