/**
 The four operations that rewire the hierarchy, on Shapes, and what every run of them keeps.
 */
module WindowRuns {
  import opened Basics
  import opened WindowShape

  /** CreateWindow links the new window on top of its parent's stack. */
  ghost function AddChild(s: Shape, w: Window, p: Window): Shape
    requires WellFormed(s) && p in s.kids && w !in s.kids && w != NULL
  {
    s.(kids := s.kids[w := []][p := s.kids[p] + [w]], path := s.path[w := [w] + s.path[p]])
  }

  /** CirculateWindow moves one window to an end of its parent's stack. */
  ghost function Raised(s: Shape, w: Window): Shape
    requires WellFormed(s) && w in s.kids && w != s.root
  {
    var p := Parent(s, w);
    assert HasParent(s, w);
    s.(kids := s.kids[p := Without(s.kids[p], w) + [w]])
  }

  ghost function Lowered(s: Shape, w: Window): Shape
    requires WellFormed(s) && w in s.kids && w != s.root
  {
    var p := Parent(s, w);
    assert HasParent(s, w);
    s.(kids := s.kids[p := [w] + Without(s.kids[p], w)])
  }

  /** The path of v once w hangs below p: the part above w is replaced. */
  ghost function MovedPath(s: Shape, v: Window, w: Window, p: Window): seq<Window>
    requires WellFormed(s) && v in s.kids && w in s.kids && p in s.kids
  {
    if w in s.path[v] then
      PathIndex(s, v, w);
      s.path[v][..|s.path[v]| - |s.path[w]|] + [w] + s.path[p]
    else
      s.path[v]
  }

  /** ReparentWindow: w and its whole subtree move on top of p's stack. */
  ghost function Reparented(s: Shape, w: Window, p: Window): Shape
    requires WellFormed(s) && w in s.kids && w != s.root && p in s.kids
    requires !Inferior(s, p, w) && Parent(s, w) != p
  {
    var q := Parent(s, w);
    assert HasParent(s, w);
    s.(kids := s.kids[q := Without(s.kids[q], w)][p := s.kids[p] + [w]],
       path := map v | v in s.kids :: MovedPath(s, v, w, p))
  }

  /** DestroyWindow: exactly the inferiors of w disappear. */
  ghost function Pruned(s: Shape, w: Window): Shape
    requires WellFormed(s) && w in s.kids && w != s.root
  {
    var q := Parent(s, w);
    assert HasParent(s, w);
    Shape(s.root,
          map v | v in s.kids && !Inferior(s, v, w) :: if v == q then Without(s.kids[v], w) else s.kids[v],
          map v | v in s.kids && !Inferior(s, v, w) :: s.path[v])
  }

  lemma AddChildKeeps(s: Shape, w: Window, p: Window)
    requires WellFormed(s) && p in s.kids && w !in s.kids && w != NULL
    ensures WellFormed(AddChild(s, w, p))
  {
    var t := AddChild(s, w, p);
    PathStart(s, p);
    forall v <- t.kids ensures ChildrenOk(t, v) {
      if v in s.kids {
        assert ChildrenOk(s, v);
      }
    }
    forall v <- t.kids | v != t.root ensures HasParent(t, v) {
      if v in s.kids {
        assert HasParent(s, v);
      } else {
        assert t.kids[p][|s.kids[p]|] == w;
      }
    }
  }

  /** Any rearrangement of one child list keeps the tree. */
  lemma PermuteKeeps(s: Shape, p: Window, ws: seq<Window>)
    requires WellFormed(s) && p in s.kids && Distinct(ws)
    requires forall v :: v in ws <==> v in s.kids[p]
    ensures WellFormed(s.(kids := s.kids[p := ws]))
  {
    var t := s.(kids := s.kids[p := ws]);
    forall v <- t.kids ensures ChildrenOk(t, v) {
      assert ChildrenOk(s, v);
    }
    forall v <- t.kids | v != t.root ensures HasParent(t, v) {
      assert HasParent(s, v);
    }
  }

  lemma CirculateKeeps(s: Shape, w: Window)
    requires WellFormed(s) && w in s.kids && w != s.root
    ensures WellFormed(Raised(s, w)) && WellFormed(Lowered(s, w))
    ensures multiset(Raised(s, w).kids[Parent(s, w)]) == multiset(s.kids[Parent(s, w)])
    ensures multiset(Lowered(s, w).kids[Parent(s, w)]) == multiset(s.kids[Parent(s, w)])
  {
    var p := Parent(s, w);
    assert HasParent(s, w) && ChildrenOk(s, p);
    WithoutMembers(s.kids[p], w);
    var ws := s.kids[p];
    var i := Index(ws, w);
    assert ws == ws[..i] + [w] + ws[i + 1..];
    PermuteKeeps(s, p, Without(ws, w) + [w]);
    PermuteKeeps(s, p, [w] + Without(ws, w));
  }

  /** ws without the entry at i, then or before that w: what is in which place. */
  ghost predicate MovedUp(ws: seq<Window>, i: nat, vs: seq<Window>)
    requires i < |ws|
  {
    |vs| == |ws| && forall j | 0 <= j < |ws| :: vs[j] == if j < i then ws[j] else if j + 1 < |ws| then ws[j + 1] else ws[i]
  }

  ghost predicate MovedDown(ws: seq<Window>, i: nat, vs: seq<Window>)
    requires i < |ws|
  {
    |vs| == |ws| && forall j | 0 <= j < |ws| :: vs[j] == if j == 0 then ws[i] else if j <= i then ws[j - 1] else ws[j]
  }

  /** The window goes to the top or the bottom of its list, all others keep their order, and no other list or path changes. */
  lemma CirculateOrder(s: Shape, w: Window, i: nat)
    requires WellFormed(s) && w in s.kids && w != s.root
    requires i < |s.kids[Parent(s, w)]| && s.kids[Parent(s, w)][i] == w
    ensures var p, up, down := Parent(s, w), Raised(s, w), Lowered(s, w);
            && MovedUp(s.kids[p], i, up.kids[p]) && MovedDown(s.kids[p], i, down.kids[p])
            && up.path == down.path == s.path && up.kids.Keys == down.kids.Keys == s.kids.Keys
            && (forall v | v in s.kids && v != p :: up.kids[v] == down.kids[v] == s.kids[v])
  {
    assert HasParent(s, w) && ChildrenOk(s, Parent(s, w));
    assert Index(s.kids[Parent(s, w)], w) == i;
  }

  /** The members of the child lists after w moved from q to p. */
  lemma MovedLists(s: Shape, w: Window, p: Window, v: Window, c: Window)
    requires WellFormed(s) && w in s.kids && w != s.root && p in s.kids && v in s.kids
    requires !Inferior(s, p, w) && Parent(s, w) != p
    ensures w !in s.kids[p]
    ensures Distinct(Reparented(s, w, p).kids[v])
    ensures c in Reparented(s, w, p).kids[v] <==> if c == w then v == p else c in s.kids[v]
  {
    var q := Parent(s, w);
    assert ChildrenOk(s, q) && ChildrenOk(s, p) && ChildrenOk(s, v);
    WithoutMembers(s.kids[q], w);
    if w in s.kids[p] { UniqueParent(s, w, p); }
    if w in s.kids[v] { UniqueParent(s, w, v); }
  }

  lemma ReparentChildren(s: Shape, w: Window, p: Window, v: Window)
    requires WellFormed(s) && w in s.kids && w != s.root && p in s.kids && v in s.kids
    requires !Inferior(s, p, w) && Parent(s, w) != p
    ensures Reparented(s, w, p).kids.Keys == Reparented(s, w, p).path.Keys
    ensures ChildrenOk(Reparented(s, w, p), v)
  {
    var t := Reparented(s, w, p);
    MovedLists(s, w, p, v, w);
    assert ChildrenOk(s, v);
    PathStart(s, w);
    PathStart(s, p);
    forall c <- t.kids[v] ensures c in t.kids && t.path[c] == [c] + t.path[v] {
      MovedLists(s, w, p, v, c);
      if c != w { MovedChild(s, c, v, w, p); }
    }
  }

  lemma ReparentParent(s: Shape, w: Window, p: Window, v: Window)
    requires WellFormed(s) && w in s.kids && w != s.root && p in s.kids && v in s.kids && v != s.root
    requires !Inferior(s, p, w) && Parent(s, w) != p
    ensures Reparented(s, w, p).kids.Keys == Reparented(s, w, p).path.Keys
    ensures HasParent(Reparented(s, w, p), v)
    ensures v == w ==> Reparented(s, w, p).path[v][1] == p
  {
    var t := Reparented(s, w, p);
    PathStart(s, w);
    PathStart(s, p);
    if v == w {
      assert t.path[w] == [w] + s.path[p];
      MovedLists(s, w, p, p, w);
    } else {
      var o := Parent(s, v);
      MovedChild(s, v, o, w, p);
      MovedLists(s, w, p, o, v);
      assert t.path[v][1] == o;
    }
  }

  lemma ReparentKeeps(s: Shape, w: Window, p: Window)
    requires WellFormed(s) && w in s.kids && w != s.root && p in s.kids
    requires !Inferior(s, p, w) && Parent(s, w) != p
    ensures WellFormed(Reparented(s, w, p))
    ensures Parent(Reparented(s, w, p), w) == p
  {
    var t := Reparented(s, w, p);
    assert t.kids.Keys == s.kids.Keys;
    forall v <- t.kids ensures ChildrenOk(t, v) {
      ReparentChildren(s, w, p, v);
    }
    forall v <- t.kids | v != t.root ensures HasParent(t, v) {
      ReparentParent(s, w, p, v);
    }
    ReparentParent(s, w, p, w);
    assert t.path[s.root] == [s.root];
  }

  /** Below the moved window, a path still is the window followed by its parent's path. */
  lemma MovedChild(s: Shape, c: Window, v: Window, w: Window, p: Window)
    requires WellFormed(s) && v in s.kids && c in s.kids[v] && c != w
    requires w in s.kids && p in s.kids
    ensures c in s.kids && MovedPath(s, c, w, p) == [c] + MovedPath(s, v, w, p)
    ensures |MovedPath(s, v, w, p)| > 0 && MovedPath(s, v, w, p)[0] == v
  {
    assert ChildrenOk(s, v);
    PathStart(s, v);
    if w in s.path[v] {
      PathIndex(s, v, w);
      PathIndex(s, c, w);
      SpliceCons(c, s.path[v], |s.path[w]|, [w] + s.path[p]);
      var k := |s.path[v]| - |s.path[w]|;
      assert s.path[v][k] == w;
      assert s.path[v][..k] + ([w] + s.path[p]) == s.path[v][..k] + [w] + s.path[p];
      assert s.path[c][..k + 1] + ([w] + s.path[p]) == s.path[c][..k + 1] + [w] + s.path[p];
    }
  }

  lemma SpliceCons(c: Window, ws: seq<Window>, n: nat, tail: seq<Window>)
    requires n <= |ws|
    ensures ([c] + ws)[..1 + |ws| - n] + tail == [c] + (ws[..|ws| - n] + tail)
  {
  }

  lemma PruneKeeps(s: Shape, w: Window)
    requires WellFormed(s) && w in s.kids && w != s.root
    ensures WellFormed(Pruned(s, w))
  {
    var t := Pruned(s, w);
    var q := Parent(s, w);
    assert HasParent(s, w) && ChildrenOk(s, q);
    WithoutMembers(s.kids[q], w);
    forall v <- t.kids ensures ChildrenOk(t, v) {
      assert ChildrenOk(s, v);
      forall c <- t.kids[v] ensures c in t.kids && t.path[c] == [c] + t.path[v] {
        if c == w { UniqueParent(s, w, v); assert false; }
      }
    }
    forall v <- t.kids | v != t.root ensures HasParent(t, v) {
      assert HasParent(s, v);
      var o := Parent(s, v);
      assert ChildrenOk(s, o);
      PathStart(s, v);
    }
  }

  /** Pruning a window without children removes nothing else. */
  lemma LeafPruned(s: Shape, w: Window)
    requires WellFormed(s) && w in s.kids && w != s.root && s.kids[w] == []
    ensures Parent(s, w) != w && w in s.kids[Parent(s, w)]
    ensures Pruned(s, w).kids == s.kids[Parent(s, w) := Without(s.kids[Parent(s, w)], w)] - {w}
    ensures Pruned(s, w).path == s.path - {w}
  {
    assert HasParent(s, w);
    UniqueParent(s, w, Parent(s, w));
    PathStart(s, w);
    forall v <- s.kids | Inferior(s, v, w) ensures v == w {
      PathIndex(s, v, w);
      var i := |s.path[v]| - |s.path[w]|;
      PathStart(s, v);
      if i > 0 {
        PathSuffix(s, v, i - 1);
        IsChild(s, s.path[v][i - 1]);
      }
    }
    assert forall v <- s.kids :: Inferior(s, v, w) <==> v == w;
  }

  /** Removing an inferior first makes no difference to pruning w. */
  /** A leaf below w hangs below w, and not above it. */
  lemma LeafBelow(s: Shape, w: Window, leaf: Window)
    requires WellFormed(s) && w in s.kids && w != s.root && leaf in s.kids && leaf != w && leaf != s.root
    requires Inferior(s, leaf, w)
    ensures Inferior(s, Parent(s, leaf), w) && !Inferior(s, Parent(s, w), w) && !Inferior(s, Parent(s, w), leaf)
    ensures Parent(s, leaf) != Parent(s, w)
  {
    var q := Parent(s, w);
    assert HasParent(s, w) && HasParent(s, leaf) && ChildrenOk(s, Parent(s, leaf)) && ChildrenOk(s, q);
    UniqueParent(s, w, q);
    if leaf in s.path[q] { PathIndex(s, q, leaf); PathIndex(s, leaf, w); }
  }

  lemma PrunedTwice(s: Shape, w: Window, leaf: Window)
    requires WellFormed(s) && w in s.kids && w != s.root && leaf in s.kids && leaf != w
    requires Inferior(s, leaf, w) && s.kids[leaf] == [] && leaf != s.root
    ensures WellFormed(Pruned(s, leaf)) && w in Pruned(s, leaf).kids
    ensures Pruned(Pruned(s, leaf), w) == Pruned(s, w)
  {
    PruneKeeps(s, leaf);
    LeafPruned(s, leaf);
    LeafBelow(s, w, leaf);
    var q := Parent(s, w);
    var t, u, v := Pruned(s, leaf), Pruned(Pruned(s, leaf), w), Pruned(s, w);
    assert u.path == v.path;
    assert t.kids[q] == s.kids[q];
    assert u.kids == v.kids;
  }

  lemma NewIsLeaf(s: Shape, w: Window, p: Window)
    requires WellFormed(s) && p in s.kids && w !in s.kids && w != NULL
    ensures w != s.root && w in AddChild(s, w, p).kids && AddChild(s, w, p).kids[w] == []
  {
  }

  /** Removing a window that was just created leaves everything as before. */
  lemma AddedPruned(s: Shape, w: Window, p: Window)
    requires WellFormed(s) && p in s.kids && w !in s.kids && w != NULL
    ensures WellFormed(AddChild(s, w, p)) && w != s.root && AddChild(s, w, p).kids[w] == []
    ensures Pruned(AddChild(s, w, p), w) == s
  {
    var t := AddChild(s, w, p);
    AddChildKeeps(s, w, p);
    PathStart(s, p);
    LeafPruned(t, w);
    assert ChildrenOk(s, p) && w !in s.kids[p];
    LastOut(s.kids[p], w);
    assert Pruned(t, w).kids == s.kids && Pruned(t, w).path == s.path;
  }

  lemma LastOut(ws: seq<Window>, w: Window)
    requires w !in ws
    ensures w in ws + [w] && Without(ws + [w], w) == ws
  {
    assert (ws + [w])[|ws|] == w;
    assert forall i | 0 <= i < |ws| :: (ws + [w])[i] == ws[i] && ws[i] in ws;
    assert Index(ws + [w], w) == |ws|;
  }

  datatype Op =
    | Create(w: Window, p: Window)
    | Raise(w: Window)
    | Lower(w: Window)
    | Reparent(w: Window, p: Window)
    | Destroy(w: Window)

  /** One request: what the server does, or nothing when it answers with an error. */
  ghost function Step(s: Shape, op: Op): (t: Shape)
    requires WellFormed(s)
    ensures WellFormed(t) && t.root == s.root
  {
    match op
    case Create(w, p) =>
      if p in s.kids && w !in s.kids && w != NULL then AddChildKeeps(s, w, p); AddChild(s, w, p) else s
    case Raise(w) =>
      if w in s.kids && w != s.root then CirculateKeeps(s, w); Raised(s, w) else s
    case Lower(w) =>
      if w in s.kids && w != s.root then CirculateKeeps(s, w); Lowered(s, w) else s
    case Reparent(w, p) =>
      if w in s.kids && w != s.root && p in s.kids && !Inferior(s, p, w) && Parent(s, w) != p
      then ReparentKeeps(s, w, p); Reparented(s, w, p) else s
    case Destroy(w) =>
      if w in s.kids && w != s.root then PruneKeeps(s, w); Pruned(s, w) else s
  }

  ghost function Run(s: Shape, ops: seq<Op>): (t: Shape)
    requires WellFormed(s)
    ensures WellFormed(t) && t.root == s.root
    decreases |ops|
  {
    if ops == [] then s else Run(Step(s, ops[0]), ops[1..])
  }
}
