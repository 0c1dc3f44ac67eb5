/**
 The walks that visit a subtree without a stack, by child, sibling and parent pointers only,
 and the recursive preorder they refine.
 */
module WindowWalk {
  import opened Basics
  import opened WindowShape
  import opened WindowLinks
  import opened WindowDestroy
  import opened WindowTree

  type View = map<Window, seq<Window>>

  /** Which children a walk enters, and in which order. */
  ghost predicate ViewOk(s: Shape, k: View) {
    k.Keys == s.kids.Keys && forall w {:trigger k[w]} | w in k :: Distinct(k[w]) && forall c <- k[w] :: c in s.kids[w]
  }

  /** Preorder: a window, then the subtrees of the children in view. */
  ghost function Pre(s: Shape, k: View, w: Window): seq<Window>
    requires WellFormed(s) && ViewOk(s, k) && w in s.kids
    decreases Below(s, w), |k[w]| + 1
  {
    [w] + PreFrom(s, k, w, 0)
  }

  ghost function PreFrom(s: Shape, k: View, p: Window, i: nat): seq<Window>
    requires WellFormed(s) && ViewOk(s, k) && p in s.kids && i <= |k[p]|
    decreases Below(s, p), |k[p]| - i
  {
    if i == |k[p]| then [] else
      assert k[p][i] in k[p];
      BelowShrinks(s, p, k[p][i]);
      Pre(s, k, k[p][i]) + PreFrom(s, k, p, i + 1)
  }

  /** What a walk from x still has to visit once it is through with the subtree of w. */
  ghost function After(s: Shape, k: View, x: Window, w: Window): seq<Window>
    requires WellFormed(s) && ViewOk(s, k) && w in s.kids
    decreases |s.path[w]|
  {
    if w == x || w == s.root || w !in k[Parent(s, w)] then [] else
      IsChild(s, w);
      PreFrom(s, k, Parent(s, w), Index(k[Parent(s, w)], w) + 1) + After(s, k, x, Parent(s, w))
  }

  ghost function Todo(s: Shape, k: View, x: Window, w: Window, enter: bool): seq<Window>
    requires WellFormed(s) && ViewOk(s, k) && w in s.kids
  {
    (if enter then Pre(s, k, w) else []) + After(s, k, x, w)
  }

  /** Entering the first child in view. */
  lemma TodoDown(s: Shape, k: View, x: Window, w: Window)
    requires WellFormed(s) && ViewOk(s, k) && w in s.kids && x in s.kids && Inferior(s, w, x)
    ensures k[w] == [] ==> Todo(s, k, x, w, true) == [w] + Todo(s, k, x, w, false)
    ensures k[w] != [] ==> k[w][0] in s.kids && k[w][0] != x && Inferior(s, k[w][0], x)
                           && Todo(s, k, x, w, true) == [w] + Todo(s, k, x, k[w][0], true)
  {
    if k[w] == [] {
      assert PreFrom(s, k, w, 0) == [];
      assert Pre(s, k, w) == [w];
      assert Todo(s, k, x, w, false) == After(s, k, x, w);
    } else {
      var c := k[w][0];
      assert c in k[w];
      UniqueParent(s, c, w);
      assert ChildrenOk(s, w);
      assert c != x by { if c == x { PathIndex(s, w, x); } }
      assert Index(k[w], c) == 0;
      assert Pre(s, k, w) == [w] + (Pre(s, k, c) + PreFrom(s, k, w, 1));
    }
  }

  /** Going on to the next sibling in view, or up when there is none. */
  lemma TodoNext(s: Shape, k: View, x: Window, w: Window, i: nat)
    requires WellFormed(s) && ViewOk(s, k) && w in s.kids && x in s.kids && Inferior(s, w, x) && w != x
    requires w != s.root && i < |k[Parent(s, w)]| && k[Parent(s, w)][i] == w
    ensures var p := Parent(s, w);
            && Inferior(s, p, x)
            && (i + 1 == |k[p]| ==> Todo(s, k, x, w, false) == Todo(s, k, x, p, false))
            && (i + 1 < |k[p]| ==> k[p][i + 1] in s.kids && k[p][i + 1] != x && Inferior(s, k[p][i + 1], x)
                                   && Todo(s, k, x, w, false) == Todo(s, k, x, k[p][i + 1], true))
  {
    var p := Parent(s, w);
    IsChild(s, w);
    assert Index(k[p], w) == i;
    if i + 1 < |k[p]| {
      var c := k[p][i + 1];
      assert c in k[p];
      UniqueParent(s, c, p);
      assert ChildrenOk(s, p);
      assert c != x by { if c == x { PathIndex(s, p, x); } }
      assert Index(k[p], c) == i + 1;
      assert PreFrom(s, k, p, i + 1) == Pre(s, k, c) + PreFrom(s, k, p, i + 2);
    }
  }

  lemma FullView(s: Shape)
    requires WellFormed(s)
    ensures ViewOk(s, s.kids)
  {
    forall w | w in s.kids ensures Distinct(s.kids[w]) { assert ChildrenOk(s, w); }
  }

  ghost function Preorder(s: Shape, w: Window): seq<Window>
    requires WellFormed(s) && w in s.kids
  {
    FullView(s);
    Pre(s, s.kids, w)
  }

  /** The pointers of w lead where the preorder goes. */
  lemma PointersDown(m: Mem, s: Shape, w: Window)
    requires WellFormed(s) && TreeLinked(m, s) && w in s.kids
    ensures m.bot[w] == (if s.kids[w] == [] then NULL else s.kids[w][0])
    ensures m.top[w] == (if s.kids[w] == [] then NULL else s.kids[w][|s.kids[w]| - 1])
    ensures NULL !in s.kids[w]
  {
    assert ListLinked(m, w, s.kids[w]) && ChildrenOk(s, w);
  }

  lemma PointersAcross(m: Mem, s: Shape, w: Window) returns (i: nat)
    requires WellFormed(s) && TreeLinked(m, s) && w in s.kids && w != s.root
    ensures var p := Parent(s, w);
            && i < |s.kids[p]| && s.kids[p][i] == w && m.parent[w] == p && NULL !in s.kids[p]
            && m.next[w] == (if i + 1 == |s.kids[p]| then NULL else s.kids[p][i + 1])
            && m.prev[w] == (if i == 0 then NULL else s.kids[p][i - 1])
            && |s.path[p]| < |s.path[w]|
            && forall c <- s.kids[p] :: c in s.kids && |s.path[c]| == |s.path[w]|
  {
    var p := Parent(s, w);
    i := Index(s.kids[p], w);
    ChildPointers(m, s, p, i);
    IsChild(s, w);
    assert ChildrenOk(s, p);
  }

  /** v is an inferior of x and every step from v up to x is one the view takes down. */
  ghost predicate InView(s: Shape, k: View, x: Window, v: Window) {
    && v in s.path && x in s.path && |s.path[x]| <= |s.path[v]|
    && x in s.path[v]
    && forall j | 0 <= j < |s.path[v]| - |s.path[x]| :: StepInView(s, k, v, j)
  }

  ghost predicate StepInView(s: Shape, k: View, v: Window, j: nat)
    requires v in s.path
  {
    j + 1 < |s.path[v]| && s.path[v][j + 1] in k && s.path[v][j] in k[s.path[v][j + 1]]
  }

  lemma ViewChild(s: Shape, k: View, x: Window, w: Window, c: Window)
    requires WellFormed(s) && ViewOk(s, k) && x in s.kids && InView(s, k, x, w) && c in k[w]
    ensures c in s.kids && InView(s, k, x, c)
  {
    UniqueParent(s, c, w);
    IsChild(s, c);
    forall j | 0 <= j < |s.path[c]| - |s.path[x]| ensures StepInView(s, k, c, j) {
      if j > 0 { assert StepInView(s, k, w, j - 1); }
    }
  }

  lemma ViewParent(s: Shape, k: View, x: Window, w: Window)
    requires WellFormed(s) && ViewOk(s, k) && x in s.kids && InView(s, k, x, w) && w != x
    ensures w in s.kids && w != s.root && w in k[Parent(s, w)] && InView(s, k, x, Parent(s, w))
  {
    PathIndex(s, w, x);
    PathStart(s, w);
    assert StepInView(s, k, w, 0);
    if w == s.root { PathEnd(s, x); }
    IsChild(s, w);
    var p := Parent(s, w);
    forall j | 0 <= j < |s.path[p]| - |s.path[x]| ensures StepInView(s, k, p, j) {
      assert StepInView(s, k, w, j + 1);
    }
  }

  /** A walk from x that has seen some windows and stands at w, about to enter or to leave it. */
  ghost predicate Walking(s: Shape, k: View, x: Window, w: Window, enter: bool, seen: seq<Window>) {
    && WellFormed(s) && ViewOk(s, k) && x in s.kids && w in s.kids && InView(s, k, x, w)
    && seen + Todo(s, k, x, w, enter) == Pre(s, k, x)
  }

  /** How many windows the walk has yet to see. */
  ghost function Unseen(s: Shape, k: View, x: Window, seen: seq<Window>): int
    requires WellFormed(s) && ViewOk(s, k) && x in s.kids
  {
    |Pre(s, k, x)| - |seen|
  }

  lemma WalkStart(s: Shape, k: View, x: Window)
    requires WellFormed(s) && ViewOk(s, k) && x in s.kids
    ensures Walking(s, k, x, x, true, [])
  {
    PathStart(s, x);
    assert [] + Todo(s, k, x, x, true) == Pre(s, k, x);
  }

  lemma WalkEnter(s: Shape, k: View, x: Window, w: Window, seen: seq<Window>)
    requires Walking(s, k, x, w, true, seen)
    ensures Unseen(s, k, x, seen) > 0
    ensures k[w] == [] ==> Walking(s, k, x, w, false, seen + [w])
    ensures k[w] != [] ==> Walking(s, k, x, k[w][0], true, seen + [w]) && k[w][0] != x
  {
    TodoDown(s, k, x, w);
    if k[w] != [] { ViewChild(s, k, x, w, k[w][0]); }
    if k[w] == [] {
      assert seen + [w] + Todo(s, k, x, w, false) == seen + ([w] + Todo(s, k, x, w, false));
    } else {
      assert seen + [w] + Todo(s, k, x, k[w][0], true) == seen + ([w] + Todo(s, k, x, k[w][0], true));
    }
    assert |seen + Todo(s, k, x, w, true)| == |seen| + |Todo(s, k, x, w, true)|;
  }

  lemma WalkLeave(s: Shape, k: View, x: Window, w: Window, seen: seq<Window>, i: nat)
    requires Walking(s, k, x, w, false, seen) && w != x && w != s.root
    requires i < |k[Parent(s, w)]| && k[Parent(s, w)][i] == w
    ensures Unseen(s, k, x, seen) >= 0
    ensures i + 1 == |k[Parent(s, w)]| ==> Walking(s, k, x, Parent(s, w), false, seen)
    ensures i + 1 < |k[Parent(s, w)]| ==>
              k[Parent(s, w)][i + 1] != x && Walking(s, k, x, k[Parent(s, w)][i + 1], true, seen)
  {
    ViewParent(s, k, x, w);
    TodoNext(s, k, x, w, i);
    if i + 1 < |k[Parent(s, w)]| { ViewChild(s, k, x, Parent(s, w), k[Parent(s, w)][i + 1]); }
    assert |seen + Todo(s, k, x, w, false)| == |seen| + |Todo(s, k, x, w, false)|;
  }

  lemma WalkDone(s: Shape, k: View, x: Window, seen: seq<Window>)
    requires Walking(s, k, x, x, false, seen)
    ensures seen == Pre(s, k, x) && Unseen(s, k, x, seen) == 0
  {
    assert Todo(s, k, x, x, false) == [];
  }

  /** WindCleanup without its early exit: every window once, in preorder. */
  method VisitAll(tree: Tree) returns (visited: seq<Window>)
    requires tree.Valid()
    ensures visited == Preorder(tree.shape, tree.root)
  {
    ghost var s, x, k := tree.shape, tree.root, tree.shape.kids;
    FullView(s);
    WalkStart(s, k, x);
    visited := [];
    var wind, b := tree.root, true;
    while wind != NULL
      invariant if wind == NULL then visited == Pre(s, k, x) else Walking(s, k, x, wind, b, visited)
      decreases Unseen(s, k, x, visited), if wind == NULL then 0 else |s.path[wind]|, !b
    {
      if b {
        WalkEnter(s, k, x, wind, visited);
        PointersDown(tree.Memory(), s, wind);
        visited := visited + [wind];
        if tree.stackBot[wind] != NULL {
          wind := tree.stackBot[wind];
          continue;
        }
      }
      if wind == x {
        WalkDone(s, k, x, visited);
        PathStart(s, x);
      } else {
        ghost var i := PointersAcross(tree.Memory(), s, wind);
        WalkLeave(s, k, x, wind, visited, i);
        assert forall c <- s.kids[Parent(s, wind)] :: c != NULL;
      }
      if tree.nextSibl[wind] != NULL {
        wind := tree.nextSibl[wind];
        b := true;
      } else {
        wind := tree.parent[wind];
        b := false;
      }
    }
  }

  lemma ViewDown(s: Shape, k: View, x: Window, v: Window) returns (c: Window)
    requires WellFormed(s) && ViewOk(s, k) && x in s.kids && InView(s, k, x, v) && v != x
    ensures c in k[x] && InView(s, k, c, v)
  {
    PathIndex(s, v, x);
    PathStart(s, v);
    var n := |s.path[v]| - |s.path[x]|;
    c := s.path[v][n - 1];
    assert StepInView(s, k, v, n - 1);
    PathSuffix(s, v, n - 1);
    assert |s.path[c]| == |s.path[x]| + 1;
    forall j | 0 <= j < |s.path[v]| - |s.path[c]| ensures StepInView(s, k, v, j) {}
  }

  lemma ViewUp(s: Shape, k: View, x: Window, c: Window, v: Window)
    requires WellFormed(s) && ViewOk(s, k) && x in s.kids && c in k[x] && InView(s, k, c, v)
    ensures InView(s, k, x, v)
  {
    assert ChildrenOk(s, x);
    OnlyChildOnPath(s, v, x, c);
    PathIndex(s, v, x);
    var n := |s.path[v]| - |s.path[x]|;
    assert StepInView(s, k, v, n - 1);
    forall j | 0 <= j < n ensures StepInView(s, k, v, j) {}
  }

  lemma ThroughView(s: Shape, k: View, x: Window, v: Window)
    requires WellFormed(s) && ViewOk(s, k) && x in s.kids
    ensures InView(s, k, x, v) <==> v == x || exists j | 0 <= j < |k[x]| :: InView(s, k, k[x][j], v)
  {
    PathStart(s, x);
    if InView(s, k, x, v) && v != x {
      var c := ViewDown(s, k, x, v);
      assert InView(s, k, k[x][Index(k[x], c)], v);
    }
    forall j | 0 <= j < |k[x]| && InView(s, k, k[x][j], v) ensures InView(s, k, x, v) {
      ViewUp(s, k, x, k[x][j], v);
    }
  }

  /** Preorder contains exactly the windows in view. */
  lemma {:induction false} PreMembers(s: Shape, k: View, x: Window, v: Window)
    requires WellFormed(s) && ViewOk(s, k) && x in s.kids
    ensures v in Pre(s, k, x) <==> InView(s, k, x, v)
    decreases Below(s, x), |k[x]| + 1
  {
    PreFromMembers(s, k, x, 0, v);
    ThroughView(s, k, x, v);
  }

  lemma {:induction false} PreFromMembers(s: Shape, k: View, p: Window, i: nat, v: Window)
    requires WellFormed(s) && ViewOk(s, k) && p in s.kids && i <= |k[p]|
    ensures v in PreFrom(s, k, p, i) <==> exists j | i <= j < |k[p]| :: InView(s, k, k[p][j], v)
    decreases Below(s, p), |k[p]| - i
  {
    if i < |k[p]| {
      assert k[p][i] in k[p];
      BelowShrinks(s, p, k[p][i]);
      PreMembers(s, k, k[p][i], v);
      PreFromMembers(s, k, p, i + 1, v);
    }
  }

  /** No window comes after one of its inferiors; in particular none comes twice. */
  ghost predicate AncestorsFirst(s: Shape, ws: seq<Window>) {
    && (forall v <- ws :: v in s.path)
    && forall a, b | 0 <= a < b < |ws| :: ws[b] !in s.path[ws[a]]
  }

  lemma AncestorsFirstJoin(s: Shape, us: seq<Window>, ws: seq<Window>)
    requires AncestorsFirst(s, us) && AncestorsFirst(s, ws)
    requires forall u <- us, w <- ws :: w !in s.path[u]
    ensures AncestorsFirst(s, us + ws)
  {
    var vs := us + ws;
    forall a, b | 0 <= a < b < |vs| ensures vs[b] !in s.path[vs[a]] {
      if a < |us| <= b { assert vs[a] == us[a] && us[a] in us && vs[b] == ws[b - |us|] && ws[b - |us|] in ws; }
    }
  }

  lemma {:induction false} PreOrdered(s: Shape, k: View, x: Window)
    requires WellFormed(s) && ViewOk(s, k) && x in s.kids
    ensures AncestorsFirst(s, Pre(s, k, x))
    decreases Below(s, x), |k[x]| + 1
  {
    PreFromOrdered(s, k, x, 0);
    forall w <- PreFrom(s, k, x, 0) ensures w !in s.path[x] {
      PreFromMembers(s, k, x, 0, w);
      var j :| 0 <= j < |k[x]| && InView(s, k, k[x][j], w);
      assert k[x][j] in k[x];
      OnlyChildOnPath(s, w, x, k[x][j]);
      if w in s.path[x] { PathIndex(s, x, w); }
    }
    AncestorsFirstJoin(s, [x], PreFrom(s, k, x, 0));
  }

  lemma {:induction false} PreFromOrdered(s: Shape, k: View, p: Window, i: nat)
    requires WellFormed(s) && ViewOk(s, k) && p in s.kids && i <= |k[p]|
    ensures AncestorsFirst(s, PreFrom(s, k, p, i))
    decreases Below(s, p), |k[p]| - i
  {
    if i < |k[p]| {
      var c := k[p][i];
      assert c in k[p];
      BelowShrinks(s, p, c);
      PreOrdered(s, k, c);
      PreFromOrdered(s, k, p, i + 1);
      forall u <- Pre(s, k, c), w <- PreFrom(s, k, p, i + 1) ensures w !in s.path[u] {
        PreMembers(s, k, c, u);
        PreFromMembers(s, k, p, i + 1, w);
        if w in s.path[u] { SeparateViews(s, k, p, i, w, u); }
      }
      AncestorsFirstJoin(s, Pre(s, k, c), PreFrom(s, k, p, i + 1));
    }
  }

  lemma SeparateViews(s: Shape, k: View, p: Window, i: nat, w: Window, u: Window)
    requires WellFormed(s) && ViewOk(s, k) && p in s.kids && i < |k[p]|
    requires u in s.kids && w in s.kids && w in s.path[u] && k[p][i] in s.path[u]
    ensures forall j | i < j < |k[p]| :: k[p][j] !in s.path[w]
  {
    PathIndex(s, u, w);
    assert k[p][i] in k[p];
    OnlyChildOnPath(s, u, p, k[p][i]);
    forall j | i < j < |k[p]| ensures k[p][j] !in s.path[w] {
      if k[p][j] in s.path[w] {
        assert k[p][j] in k[p] && k[p][j] in s.path[u];
        OnlyChildOnPath(s, u, p, k[p][j]);
      }
    }
  }

  /** The full walk meets every window of the tree, and meets it once. */
  lemma PreorderComplete(s: Shape, v: Window)
    requires WellFormed(s)
    ensures v in Preorder(s, s.root) <==> v in s.kids
    ensures Distinct(Preorder(s, s.root))
  {
    FullView(s);
    PreMembers(s, s.kids, s.root, v);
    PreOrdered(s, s.kids, s.root);
    var ws := Preorder(s, s.root);
    forall a, b | 0 <= a < b < |ws| ensures ws[a] != ws[b] {
      assert ws[a] in ws;
      PreMembers(s, s.kids, s.root, ws[a]);
      PathStart(s, ws[a]);
    }
    if v in s.kids {
      PathEnd(s, v);
      forall j | 0 <= j < |s.path[v]| - 1 ensures StepInView(s, s.kids, v, j) {
        PathSuffix(s, v, j);
        PathEnd(s, s.path[v][j]);
        assert s.path[v][j] != s.root;
        IsChild(s, s.path[v][j]);
      }
    }
  }

  /** WindSetMapped enters the children of open windows only, from the top of the stack down. */
  ghost function OpenView(s: Shape, open: set<Window>): View {
    map w | w in s.kids :: if w in open then Backwards(s.kids[w]) else []
  }

  lemma OpenViewOk(s: Shape, open: set<Window>)
    requires WellFormed(s)
    ensures ViewOk(s, OpenView(s, open))
  {
    var k := OpenView(s, open);
    forall w | w in k ensures Distinct(k[w]) && forall c <- k[w] :: c in s.kids[w] {
      assert ChildrenOk(s, w);
    }
  }

  /** The members of ws that are in keep, in order. */
  function Only(ws: seq<Window>, keep: set<Window>): seq<Window> {
    if ws == [] then [] else Only(ws[..|ws| - 1], keep) + if ws[|ws| - 1] in keep then [ws[|ws| - 1]] else []
  }

  lemma OnlyAppend(ws: seq<Window>, w: Window, keep: set<Window>)
    ensures Only(ws + [w], keep) == Only(ws, keep) + if w in keep then [w] else []
  {
    assert (ws + [w])[..|ws|] == ws;
  }

  /** The windows WindSetMapped(wind, visible) sends VisibilityNotify to. */
  ghost function Notified(s: Shape, wind: Window, open: set<Window>, wants: set<Window>): seq<Window>
    requires WellFormed(s) && wind in s.kids
  {
    OpenViewOk(s, open);
    Only(Pre(s, OpenView(s, open), wind), open * wants)
  }

  /** WindSetMapped: marks the window and announces what became visible below it. */
  method SetMapped(tree: Tree, wind: Window, visible: bool,
                   mapped: set<Window>, inOut: set<Window>, wants: set<Window>)
    returns (mapped': set<Window>, notified: seq<Window>, redraw: bool)
    requires tree.Valid() && wind in tree.shape.kids
    ensures mapped' == mapped + {wind}
    ensures redraw <==> visible && wind in inOut
    ensures notified == if visible then Notified(tree.shape, wind, mapped' * inOut, wants) else []
  {
    mapped', notified, redraw := mapped + {wind}, [], false;
    if visible {
      ghost var s, open := tree.shape, mapped' * inOut;
      ghost var k, seen := OpenView(s, open), [];
      OpenViewOk(s, open);
      WalkStart(s, k, wind);
      var w, b := wind, true;
      while true
        invariant Walking(s, k, wind, w, b, seen) && (!b ==> w != wind)
        invariant notified == Only(seen, open * wants)
        invariant if redraw then wind in open else w == wind && b
        decreases Unseen(s, k, wind, seen), |s.path[w]|, !b
      {
        if b {
          EnterOpen(tree.Memory(), s, open, wind, w, seen);
          OnlyAppend(seen, w, open * wants);
          seen := seen + [w];
          if w in mapped' && w in inOut {
            redraw := true;
            if w in wants {
              notified := notified + [w];
            }
            if tree.stackTop[w] != NULL {
              w := tree.stackTop[w];
              continue;
            }
          }
          if w == wind {
            WalkDone(s, k, wind, seen);
            break;
          }
        }
        LeaveOpen(tree.Memory(), s, open, wind, w, seen);
        if tree.prevSibl[w] != NULL {
          w := tree.prevSibl[w];
          b := true;
        } else {
          w := tree.parent[w];
          if w == wind {
            WalkDone(s, k, wind, seen);
            break;
          } else {
            b := false;
          }
        }
      }
    }
  }

  lemma LeaveMirrored(s: Shape, k: View, x: Window, w: Window, seen: seq<Window>, i: nat)
    requires Walking(s, k, x, w, false, seen) && w != x && w != s.root
    requires var p := Parent(s, w); i < |s.kids[p]| && s.kids[p][i] == w && k[p] == Backwards(s.kids[p])
    ensures Unseen(s, k, x, seen) >= 0
    ensures i > 0 ==> Walking(s, k, x, s.kids[Parent(s, w)][i - 1], true, seen)
    ensures i == 0 ==> Walking(s, k, x, Parent(s, w), false, seen)
  {
    var p := Parent(s, w);
    var j := |s.kids[p]| - 1 - i;
    assert k[p][j] == w;
    assert i > 0 ==> k[p][j + 1] == s.kids[p][i - 1];
    WalkLeave(s, k, x, w, seen, j);
  }

  /** Leaving a window by PrevSibl, or by Parent at the bottom of the stack. */
  lemma EnterOpen(m: Mem, s: Shape, open: set<Window>, x: Window, w: Window, seen: seq<Window>)
    requires Walking(s, OpenView(s, open), x, w, true, seen) && TreeLinked(m, s)
    ensures w in m.top && Unseen(s, OpenView(s, open), x, seen) > 0
    ensures w in open && m.top[w] != NULL ==>
              Walking(s, OpenView(s, open), x, m.top[w], true, seen + [w]) && m.top[w] != x
    ensures !(w in open && m.top[w] != NULL) ==> Walking(s, OpenView(s, open), x, w, false, seen + [w])
  {
    WalkEnter(s, OpenView(s, open), x, w, seen);
    PointersDown(m, s, w);
  }

  lemma LeaveOpen(m: Mem, s: Shape, open: set<Window>, x: Window, w: Window, seen: seq<Window>)
    requires Walking(s, OpenView(s, open), x, w, false, seen) && w != x && TreeLinked(m, s)
    ensures w in m.prev && w in m.parent && Unseen(s, OpenView(s, open), x, seen) >= 0
    ensures m.prev[w] != NULL ==>
              && Walking(s, OpenView(s, open), x, m.prev[w], true, seen)
              && |s.path[m.prev[w]]| == |s.path[w]|
    ensures m.prev[w] == NULL ==>
              && Walking(s, OpenView(s, open), x, m.parent[w], false, seen)
              && |s.path[m.parent[w]]| < |s.path[w]|
  {
    var k := OpenView(s, open);
    ViewParent(s, k, x, w);
    var p := Parent(s, w);
    var i := PointersAcross(m, s, w);
    assert k[p] == Backwards(s.kids[p]);
    LeaveMirrored(s, k, x, w, seen, i);
    assert i > 0 ==> s.kids[p][i - 1] in s.kids[p];
  }

  lemma {:induction false} OnlyMembers(ws: seq<Window>, keep: set<Window>, v: Window)
    ensures v in Only(ws, keep) <==> v in ws && v in keep
  {
    if ws != [] {
      OnlyMembers(ws[..|ws| - 1], keep, v);
      assert ws == ws[..|ws| - 1] + [ws[|ws| - 1]];
    }
  }

  lemma {:induction false} OnlyDistinct(ws: seq<Window>, keep: set<Window>)
    requires Distinct(ws)
    ensures Distinct(Only(ws, keep))
  {
    if ws != [] {
      OnlyDistinct(ws[..|ws| - 1], keep);
      OnlyMembers(ws[..|ws| - 1], keep, ws[|ws| - 1]);
    }
  }

  lemma PreDistinct(s: Shape, k: View, x: Window)
    requires WellFormed(s) && ViewOk(s, k) && x in s.kids
    ensures Distinct(Pre(s, k, x))
  {
    PreOrdered(s, k, x);
    var ws := Pre(s, k, x);
    forall a, b | 0 <= a < b < |ws| ensures ws[a] != ws[b] {
      assert ws[a] in ws;
      PreMembers(s, k, x, ws[a]);
      PathStart(s, ws[a]);
    }
  }

  /** A step up is in the open view exactly when it arrives at an open window. */
  lemma OpenStep(s: Shape, open: set<Window>, v: Window, j: nat)
    requires WellFormed(s) && v in s.kids && j + 1 < |s.path[v]|
    ensures StepInView(s, OpenView(s, open), v, j) <==> s.path[v][j + 1] in open
  {
    PathSuffix(s, v, j);
    var u := s.path[v][j];
    PathEnd(s, u);
    assert u != s.root;
    IsChild(s, u);
    var ws := s.kids[s.path[v][j + 1]];
    assert Backwards(ws)[|ws| - 1 - Index(ws, u)] == u;
  }

  /** The windows from v up to its ancestor x, both included. */
  ghost function Span(s: Shape, v: Window, x: Window): (r: seq<Window>)
    requires WellFormed(s) && x in s.kids && v in s.kids && Inferior(s, v, x)
    ensures |r| > 0 && r[0] == v && |r| == |s.path[v]| - |s.path[x]| + 1
  {
    PathIndex(s, v, x);
    PathStart(s, v);
    s.path[v][..|s.path[v]| - |s.path[x]| + 1]
  }

  lemma OpenPath(s: Shape, x: Window, open: set<Window>, v: Window)
    requires WellFormed(s) && x in s.kids && v in s.kids && Inferior(s, v, x)
    ensures InView(s, OpenView(s, open), x, v) && v in open <==> forall u <- Span(s, v, x) :: u in open
  {
    PathIndex(s, v, x);
    var k, us := OpenView(s, open), Span(s, v, x);
    var n := |us| - 1;
    forall j | 0 <= j < n ensures StepInView(s, k, v, j) <==> us[j + 1] in open {
      OpenStep(s, open, v, j);
    }
    if InView(s, k, x, v) && v in open {
      forall u <- us ensures u in open {
        var j := Index(us, u);
        if j > 0 { assert StepInView(s, k, v, j - 1); }
      }
    }
    if forall u <- us :: u in open {
      assert us[0] in us;
      forall j | 0 <= j < n ensures StepInView(s, k, v, j) {
        assert us[j + 1] in us;
      }
    }
  }

  /** They are the windows that lie both above v and below x. */
  lemma SpanMembers(s: Shape, v: Window, x: Window, u: Window)
    requires WellFormed(s) && x in s.kids && v in s.kids && Inferior(s, v, x)
    ensures u in Span(s, v, x) <==> u in s.path[v] && u in s.kids && Inferior(s, u, x)
  {
    PathIndex(s, v, x);
    var us := Span(s, v, x);
    if u in s.path[v] && u in s.kids && Inferior(s, u, x) {
      PathIndex(s, v, u);
      PathIndex(s, u, x);
      assert us[|s.path[v]| - |s.path[u]|] == u;
    }
    if u in us {
      var j := Index(us, u);
      PathSuffix(s, v, j);
      assert s.path[v][j..][|us| - 1 - j] == x;
    }
  }

  /**
   WindSetMapped notifies exactly the inferiors of wind that want it and whose whole path up
   to wind is mapped and InputOutput, and notifies each of them once.
   */
  lemma NotifiedExactly(s: Shape, wind: Window, open: set<Window>, wants: set<Window>, v: Window)
    requires WellFormed(s) && wind in s.kids
    ensures v in Notified(s, wind, open, wants) <==>
              && v in s.kids && Inferior(s, v, wind) && v in wants
              && forall u | u in s.kids && Inferior(s, v, u) && Inferior(s, u, wind) :: u in open
    ensures Distinct(Notified(s, wind, open, wants))
  {
    if v in s.kids && Inferior(s, v, wind) {
      forall u ensures u in Span(s, v, wind) <==> u in s.kids && Inferior(s, v, u) && Inferior(s, u, wind) {
        SpanMembers(s, v, wind, u);
      }
    }
    var k := OpenView(s, open);
    OpenViewOk(s, open);
    PreDistinct(s, k, wind);
    OnlyDistinct(Pre(s, k, wind), open * wants);
    OnlyMembers(Pre(s, k, wind), open * wants, v);
    PreMembers(s, k, wind, v);
    if v in s.kids && Inferior(s, v, wind) {
      OpenPath(s, wind, open, v);
      assert Span(s, v, wind)[0] in Span(s, v, wind);
    }
  }
}
