/**
 The order in which a subtree is destroyed: children before their parent, siblings from the
 bottom of the stack to its top. Removing the leaf at the end of the leftmost chain removes
 exactly the head of that order.
 */
module WindowDestroy {
  import opened WindowShape
  import opened WindowRuns
  import opened WindowLinks

  /** Windows that are not on the path of w: what a descent from w can still reach. */
  ghost function Below(s: Shape, w: Window): set<Window>
    requires w in s.path
  {
    s.kids.Keys - (set v | v in s.path[w])
  }

  lemma BelowShrinks(s: Shape, p: Window, c: Window)
    requires WellFormed(s) && p in s.kids && c in s.kids[p]
    ensures c in s.kids && Below(s, c) < Below(s, p)
  {
    UniqueParent(s, c, p);
    assert ChildrenOk(s, p);
    PathStart(s, c);
    assert c in Below(s, p) && c !in Below(s, c);
  }

  /** The inferiors of w in the order of their DestroyNotify events. */
  ghost function Post(s: Shape, w: Window): seq<Window>
    requires WellFormed(s) && w in s.kids
    decreases Below(s, w), |s.kids[w]| + 1
  {
    PostFrom(s, w, 0) + [w]
  }

  ghost function PostFrom(s: Shape, p: Window, i: nat): seq<Window>
    requires WellFormed(s) && p in s.kids && i <= |s.kids[p]|
    decreases Below(s, p), |s.kids[p]| - i
  {
    if i == |s.kids[p]| then [] else
      BelowShrinks(s, p, s.kids[p][i]);
      Post(s, s.kids[p][i]) + PostFrom(s, p, i + 1)
  }

  /** Every proper inferior of w lies below exactly one child of w. */
  lemma ThroughChild(s: Shape, v: Window, w: Window)
    requires WellFormed(s) && v in s.kids && w in s.kids
    ensures Inferior(s, v, w) <==> v == w || exists j | 0 <= j < |s.kids[w]| :: s.kids[w][j] in s.path[v]
  {
    PathStart(s, v);
    if Inferior(s, v, w) && v != w {
      PathIndex(s, v, w);
      var i := |s.path[v]| - |s.path[w]|;
      var c := s.path[v][i - 1];
      PathSuffix(s, v, i - 1);
      assert HasParent(s, c);
      var j := Index(s.kids[w], c);
      assert s.kids[w][j] in s.path[v];
    }
    forall j | 0 <= j < |s.kids[w]| && s.kids[w][j] in s.path[v] ensures Inferior(s, v, w) {
      OnlyChildOnPath(s, v, w, s.kids[w][j]);
    }
  }

  /** The order contains exactly the inferiors of w. */
  lemma {:induction false} PostMembers(s: Shape, w: Window, v: Window)
    requires WellFormed(s) && w in s.kids
    ensures v in Post(s, w) <==> v in s.kids && Inferior(s, v, w)
    decreases Below(s, w), |s.kids[w]| + 1
  {
    PostFromMembers(s, w, 0, v);
    PathStart(s, w);
    if v in s.kids { ThroughChild(s, v, w); }
  }

  lemma {:induction false} PostFromMembers(s: Shape, p: Window, i: nat, v: Window)
    requires WellFormed(s) && p in s.kids && i <= |s.kids[p]|
    ensures v in PostFrom(s, p, i) <==> v in s.kids && exists j | i <= j < |s.kids[p]| :: s.kids[p][j] in s.path[v]
    decreases Below(s, p), |s.kids[p]| - i
  {
    if i < |s.kids[p]| {
      BelowShrinks(s, p, s.kids[p][i]);
      PostMembers(s, s.kids[p][i], v);
      PostFromMembers(s, p, i + 1, v);
    }
  }

  /** No window comes before one of its inferiors; in particular none comes twice. */
  ghost predicate InferiorsFirst(s: Shape, ws: seq<Window>) {
    && (forall v <- ws :: v in s.path)
    && forall a, b | 0 <= a < b < |ws| :: ws[a] !in s.path[ws[b]]
  }

  lemma InferiorsFirstJoin(s: Shape, us: seq<Window>, ws: seq<Window>)
    requires InferiorsFirst(s, us) && InferiorsFirst(s, ws)
    requires forall u <- us, w <- ws :: u !in s.path[w]
    ensures InferiorsFirst(s, us + ws)
  {
    var vs := us + ws;
    forall a, b | 0 <= a < b < |vs| ensures vs[a] !in s.path[vs[b]] {
      if a < |us| <= b { assert vs[a] == us[a] && us[a] in us && vs[b] == ws[b - |us|] && ws[b - |us|] in ws; }
    }
  }

  lemma {:induction false} PostOrder(s: Shape, w: Window)
    requires WellFormed(s) && w in s.kids
    ensures InferiorsFirst(s, Post(s, w))
    decreases Below(s, w), |s.kids[w]| + 1
  {
    PostFromOrder(s, w, 0);
    forall u <- PostFrom(s, w, 0) ensures u !in s.path[w] {
      PostFromMembers(s, w, 0, u);
      var j :| 0 <= j < |s.kids[w]| && s.kids[w][j] in s.path[u];
      OnlyChildOnPath(s, u, w, s.kids[w][j]);
      if u in s.path[w] { PathIndex(s, w, u); }
    }
    InferiorsFirstJoin(s, PostFrom(s, w, 0), [w]);
  }

  lemma {:induction false} PostFromOrder(s: Shape, p: Window, i: nat)
    requires WellFormed(s) && p in s.kids && i <= |s.kids[p]|
    ensures InferiorsFirst(s, PostFrom(s, p, i))
    decreases Below(s, p), |s.kids[p]| - i
  {
    if i < |s.kids[p]| {
      var c := s.kids[p][i];
      BelowShrinks(s, p, c);
      PostOrder(s, c);
      PostFromOrder(s, p, i + 1);
      forall u <- Post(s, c), v <- PostFrom(s, p, i + 1) ensures u !in s.path[v] {
        PostMembers(s, c, u);
        PostFromMembers(s, p, i + 1, v);
        if u in s.path[v] { Separate(s, p, i, u, v); }
      }
      InferiorsFirstJoin(s, Post(s, c), PostFrom(s, p, i + 1));
    }
  }

  /** Subtrees of different children have nothing in common. */
  lemma Separate(s: Shape, p: Window, i: nat, u: Window, v: Window)
    requires WellFormed(s) && p in s.kids && i < |s.kids[p]|
    requires v in s.kids && u in s.path[v] && u in s.kids && s.kids[p][i] in s.path[u]
    ensures forall j | i < j < |s.kids[p]| :: s.kids[p][j] !in s.path[v]
  {
    PathIndex(s, v, u);
    assert ChildrenOk(s, p);
    assert s.kids[p][i] in s.path[v];
    OnlyChildOnPath(s, v, p, s.kids[p][i]);
    forall j | i < j < |s.kids[p]| ensures s.kids[p][j] !in s.path[v] {
      if s.kids[p][j] in s.path[v] { OnlyChildOnPath(s, v, p, s.kids[p][j]); }
    }
  }

  /** w lies on the chain of bottom children that starts at x. */
  ghost predicate OnSpine(s: Shape, x: Window, w: Window)
    requires WellFormed(s) && x in s.kids
    decreases Below(s, x)
  {
    x == w ||
    (s.kids[x] != [] && (BelowShrinks(s, x, s.kids[x][0]); OnSpine(s, s.kids[x][0], w)))
  }

  lemma {:induction false} SpineDown(s: Shape, x: Window, w: Window)
    requires WellFormed(s) && x in s.kids && w in s.kids && OnSpine(s, x, w) && s.kids[w] != []
    ensures OnSpine(s, x, s.kids[w][0])
    decreases Below(s, x)
  {
    if x == w {
      BelowShrinks(s, x, s.kids[x][0]);
      assert OnSpine(s, s.kids[x][0], s.kids[x][0]);
    } else {
      BelowShrinks(s, x, s.kids[x][0]);
      SpineDown(s, s.kids[x][0], w);
    }
  }

  lemma {:induction false} SpineInferior(s: Shape, x: Window, w: Window)
    requires WellFormed(s) && x in s.kids && OnSpine(s, x, w)
    ensures w in s.kids && Inferior(s, w, x) && (w != x ==> w != s.root)
    decreases Below(s, x)
  {
    PathStart(s, x);
    if x != w {
      var c := s.kids[x][0];
      BelowShrinks(s, x, c);
      assert ChildrenOk(s, x);
      SpineInferior(s, c, w);
      PathIndex(s, w, c);
      UniqueParent(s, c, x);
      assert |s.path[w]| > 1;
    }
  }

  /** The parent of a window on the chain is on the chain, with that window at the bottom. */
  lemma {:induction false} SpineUp(s: Shape, x: Window, w: Window)
    requires WellFormed(s) && x in s.kids && OnSpine(s, x, w) && w != x
    ensures w in s.kids && w != s.root && OnSpine(s, x, Parent(s, w)) && s.kids[Parent(s, w)][0] == w
    decreases Below(s, x)
  {
    SpineInferior(s, x, w);
    var c := s.kids[x][0];
    BelowShrinks(s, x, c);
    if c == w {
      UniqueParent(s, w, x);
    } else {
      SpineUp(s, c, w);
    }
  }

  /** A path that passes through a child passes through its parent, one step later. */
  lemma OnlyChildOnPath(s: Shape, w: Window, p: Window, c: Window)
    requires WellFormed(s) && w in s.kids && p in s.kids && c in s.kids[p] && c in s.path[w]
    ensures |s.path[w]| > |s.path[p]| && s.path[w][|s.path[w]| - |s.path[p]| - 1] == c
    ensures p in s.path[w]
  {
    assert ChildrenOk(s, p);
    PathIndex(s, w, c);
    PathStart(s, p);
    assert s.path[w][|s.path[w]| - |s.path[p]|] == s.path[c][1] == p;
  }

  /** Post orders of subtrees that do not contain the removed leaf do not change. */
  lemma {:induction false} PostSame(s: Shape, leaf: Window, v: Window)
    requires WellFormed(s) && leaf in s.kids && leaf != s.root && s.kids[leaf] == []
    requires v in s.kids && !Inferior(s, leaf, v)
    ensures WellFormed(Pruned(s, leaf)) && v in Pruned(s, leaf).kids
    ensures Post(Pruned(s, leaf), v) == Post(s, v)
    decreases Below(s, v), |s.kids[v]| + 1
  {
    PruneKeeps(s, leaf);
    LeafPruned(s, leaf);
    PathStart(s, leaf);
    assert HasParent(s, leaf);
    forall j | 0 <= j < |s.kids[v]| ensures s.kids[v][j] !in s.path[leaf] {
      if s.kids[v][j] in s.path[leaf] { OnlyChildOnPath(s, leaf, v, s.kids[v][j]); }
    }
    PostFromSame(s, leaf, v, 0);
  }

  lemma {:induction false} PostFromSame(s: Shape, leaf: Window, v: Window, i: nat)
    requires WellFormed(s) && leaf in s.kids && leaf != s.root && s.kids[leaf] == []
    requires v in s.kids && v != leaf && v != Parent(s, leaf) && i <= |s.kids[v]|
    requires forall j | i <= j < |s.kids[v]| :: s.kids[v][j] !in s.path[leaf]
    ensures WellFormed(Pruned(s, leaf)) && v in Pruned(s, leaf).kids
    ensures Pruned(s, leaf).kids[v] == s.kids[v]
    ensures PostFrom(Pruned(s, leaf), v, i) == PostFrom(s, v, i)
    decreases Below(s, v), |s.kids[v]| - i
  {
    PruneKeeps(s, leaf);
    LeafPruned(s, leaf);
    if i < |s.kids[v]| {
      BelowShrinks(s, v, s.kids[v][i]);
      PostSame(s, leaf, s.kids[v][i]);
      PostFromSame(s, leaf, v, i + 1);
    }
  }

  lemma BottomPruned(s: Shape, leaf: Window)
    requires WellFormed(s) && leaf in s.kids && leaf != s.root && s.kids[leaf] == []
    requires s.kids[Parent(s, leaf)][0] == leaf
    ensures Parent(s, leaf) in Pruned(s, leaf).kids
    ensures Pruned(s, leaf).kids[Parent(s, leaf)] == s.kids[Parent(s, leaf)][1..]
    ensures forall j | 0 < j < |s.kids[Parent(s, leaf)]| :: s.kids[Parent(s, leaf)][j] !in s.path[leaf]
  {
    var q := Parent(s, leaf);
    LeafPruned(s, leaf);
    assert ChildrenOk(s, q);
    assert Index(s.kids[q], leaf) == 0;
    forall j | 0 < j < |s.kids[q]| ensures s.kids[q][j] !in s.path[leaf] {
      if s.kids[q][j] in s.path[leaf] {
        PathStart(s, leaf);
        OnlyChildOnPath(s, leaf, q, leaf);
        OnlyChildOnPath(s, leaf, q, s.kids[q][j]);
      }
    }
  }

  /** In the parent of the removed leaf, the bottom child, everything moves down one place. */
  lemma {:induction false} PostFromShift(s: Shape, leaf: Window, i: nat)
    requires WellFormed(s) && leaf in s.kids && leaf != s.root && s.kids[leaf] == []
    requires s.kids[Parent(s, leaf)][0] == leaf && i < |s.kids[Parent(s, leaf)]|
    ensures WellFormed(Pruned(s, leaf)) && Parent(s, leaf) in Pruned(s, leaf).kids
    ensures Pruned(s, leaf).kids[Parent(s, leaf)] == s.kids[Parent(s, leaf)][1..]
    ensures PostFrom(Pruned(s, leaf), Parent(s, leaf), i) == PostFrom(s, Parent(s, leaf), i + 1)
    decreases |s.kids[Parent(s, leaf)]| - i
  {
    var q := Parent(s, leaf);
    PruneKeeps(s, leaf);
    BottomPruned(s, leaf);
    if i + 1 < |s.kids[q]| {
      var c := s.kids[q][i + 1];
      UniqueParent(s, c, q);
      PostSame(s, leaf, c);
      PostFromShift(s, leaf, i + 1);
    }
  }

  /** The leaf at the end of the bottom chain comes first; the rest is the order without it. */
  lemma {:induction false} SpineHead(s: Shape, x: Window, leaf: Window)
    requires WellFormed(s) && x in s.kids && OnSpine(s, x, leaf)
    requires leaf in s.kids && s.kids[leaf] == [] && leaf != s.root
    ensures x == leaf ==> Post(s, x) == [leaf]
    ensures x != leaf ==> WellFormed(Pruned(s, leaf)) && x in Pruned(s, leaf).kids
                          && Post(s, x) == [leaf] + Post(Pruned(s, leaf), x)
    decreases Below(s, x)
  {
    if x != leaf {
      var c := s.kids[x][0];
      BelowShrinks(s, x, c);
      UniqueParent(s, c, x);
      SpineHead(s, c, leaf);
      if c == leaf {
        PostFromShift(s, leaf, 0);
      } else {
        SpineInferior(s, c, leaf);
        SpineInferior(s, x, leaf);
        assert x != Parent(s, leaf) by {
          PathStart(s, leaf);
          if x == Parent(s, leaf) { OnlyChildOnPath(s, leaf, x, leaf); OnlyChildOnPath(s, leaf, x, c); }
        }
        assert ChildrenOk(s, x);
        forall j | 1 <= j < |s.kids[x]| ensures s.kids[x][j] !in s.path[leaf] {
          if s.kids[x][j] in s.path[leaf] {
            OnlyChildOnPath(s, leaf, x, c);
            OnlyChildOnPath(s, leaf, x, s.kids[x][j]);
          }
        }
        PostFromSame(s, leaf, x, 1);
        assert Post(s, x) == Post(s, c) + PostFrom(s, x, 1) + [x];
      }
    }
  }

  /** Above the removed leaf the chain stays the same. */
  lemma {:induction false} SpineKept(s: Shape, x: Window, leaf: Window)
    requires WellFormed(s) && x in s.kids && OnSpine(s, x, leaf) && x != leaf
    requires leaf in s.kids && s.kids[leaf] == [] && leaf != s.root
    ensures WellFormed(Pruned(s, leaf)) && x in Pruned(s, leaf).kids
    ensures OnSpine(Pruned(s, leaf), x, Parent(s, leaf))
    decreases Below(s, x)
  {
    PruneKeeps(s, leaf);
    LeafPruned(s, leaf);
    var c := s.kids[x][0];
    BelowShrinks(s, x, c);
    UniqueParent(s, c, x);
    if c != leaf {
      SpineKept(s, c, leaf);
      SpineUp(s, x, leaf);
      var q := Parent(s, leaf);
      if x != q {
        assert Pruned(s, leaf).kids[x] == s.kids[x];
      }
    }
  }

  /** Following StackBot goes one step down the chain of bottom children. */
  lemma Descend(m: Mem, s: Shape, x: Window, w: Window)
    requires WellFormed(s) && TreeLinked(m, s) && x in s.kids && w in s.kids && OnSpine(s, x, w)
    ensures m.bot[w] == NULL <==> s.kids[w] == []
    ensures var c := m.bot[w]; c != NULL ==>
              c in s.kids && c != s.root && OnSpine(s, x, c) && m.parent[c] == w
              && |s.path[c]| == |s.path[w]| + 1 && Below(s, c) < Below(s, w)
  {
    assert ListLinked(m, w, s.kids[w]);
    if s.kids[w] != [] {
      ChildPointers(m, s, w, 0);
      SpineDown(s, x, w);
      BelowShrinks(s, w, s.kids[w][0]);
      UniqueParent(s, s.kids[w][0], w);
      assert ChildrenOk(s, w) && s.kids[w][0] in s.kids[w];
    }
  }

  /** What one round of WindDelete does at the end of the chain. */
  lemma Round(m: Mem, s: Shape, x: Window, w: Window)
    requires WellFormed(s) && TreeLinked(m, s) && x in s.kids && w in s.kids && OnSpine(s, x, w)
    requires x != s.root && w != s.root && s.kids[w] == [] && w != x
    ensures WellFormed(Pruned(s, w)) && x in Pruned(s, w).kids
    ensures Pruned(Pruned(s, w), x) == Pruned(s, x)
    ensures Post(s, x) == [w] + Post(Pruned(s, w), x)
    ensures var p := Parent(s, w);
            && p in Pruned(s, w).kids && p != s.root && OnSpine(Pruned(s, w), x, p)
            && m.parent[w] == p && |s.path[w]| == |s.path[p]| + 1 && |s.path[x]| <= |s.path[p]|
            && Pruned(s, w).kids[p] == s.kids[p][1..]
            && m.next[w] == (if |s.kids[p]| == 1 then NULL else s.kids[p][1])
            && Pruned(s, w).path == s.path - {w}
  {
    SpineInferior(s, x, w);
    PrunedTwice(s, x, w);
    SpineHead(s, x, w);
    SpineUp(s, x, w);
    SpineKept(s, x, w);
    BottomPruned(s, w);
    LeafPruned(s, w);
    var p := Parent(s, w);
    ChildPointers(m, s, p, 0);
    SpineInferior(s, x, p);
    PathIndex(s, p, x);
    ParentPointers(m, s, w);
    assert LinkedAt(m, p, s.kids[p], 0);
    PathStart(s, x);
  }

  /**
   A deletion of the subtree of x that began in s0, has reached s and stands at w: the
   windows logged since are gone, and what is left of the order is the order of what is left.
   */
  ghost predicate Deleting(s0: Shape, s: Shape, x: Window, w: Window, log0: seq<Window>, log: seq<Window>) {
    && WellFormed(s0) && WellFormed(s) && s.root == s0.root
    && x in s0.kids && x in s.kids && w in s.kids && x != s.root && w != s.root
    && OnSpine(s, x, w)
    && Pruned(s, x) == Pruned(s0, x)
    && log + Post(s, x) == log0 + Post(s0, x)
  }

  lemma DeletingStart(s: Shape, x: Window, log: seq<Window>)
    requires WellFormed(s) && x in s.kids && x != s.root
    ensures Deleting(s, s, x, x, log, log)
  {
  }

  /** The remaining depth counter is zero exactly at the window the deletion started from. */
  lemma DeletingDepth(s0: Shape, s: Shape, x: Window, w: Window, log0: seq<Window>, log: seq<Window>)
    requires Deleting(s0, s, x, w, log0, log)
    ensures |s.path[w]| >= |s.path[x]| && (|s.path[w]| == |s.path[x]| <==> w == x)
  {
    SpineInferior(s, x, w);
    PathIndex(s, w, x);
    PathStart(s, w);
  }

  lemma DeletingDown(m: Mem, s0: Shape, s: Shape, x: Window, w: Window, log0: seq<Window>, log: seq<Window>)
    requires Deleting(s0, s, x, w, log0, log) && TreeLinked(m, s)
    ensures m.bot[w] == NULL <==> s.kids[w] == []
    ensures var c := m.bot[w]; c != NULL ==>
              c in s.kids && Deleting(s0, s, x, c, log0, log) && m.parent[c] == w
              && |s.path[c]| == |s.path[w]| + 1 && Below(s, c) < Below(s, w)
  {
    Descend(m, s, x, w);
  }

  lemma DeletingLast(s0: Shape, s: Shape, x: Window, log0: seq<Window>, log: seq<Window>)
    requires Deleting(s0, s, x, x, log0, log) && s.kids[x] == []
    ensures log + [x] == log0 + Post(s0, x) && Pruned(s, x) == Pruned(s0, x)
  {
    SpineHead(s, x, x);
  }

  /** After a round the deletion stands at the parent, and can go on to the next sibling. */
  lemma DeletingRound(m: Mem, m': Mem, s0: Shape, s: Shape, x: Window, w: Window, log0: seq<Window>, log: seq<Window>)
    requires Deleting(s0, s, x, w, log0, log) && TreeLinked(m, s) && s.kids[w] == [] && w != x
    requires TreeLinked(m', Pruned(s, w))
    ensures var t, p, next := Pruned(s, w), m.parent[w], m.next[w];
            && p in t.kids && x in t.kids && Deleting(s0, t, x, p, log0, log + [w])
            && t.path[p] == s.path[p] && t.path[x] == s.path[x] && |s.path[w]| == |s.path[p]| + 1
            && (next != NULL ==> next in t.kids && Deleting(s0, t, x, next, log0, log + [w])
                                 && m'.parent[next] == p && |t.path[next]| == |s.path[w]|)
  {
    Round(m, s, x, w);
    var t, p, next := Pruned(s, w), m.parent[w], m.next[w];
    assert log + [w] + Post(t, x) == log + ([w] + Post(t, x));
    DeletingDown(m', s0, t, x, p, log0, log + [w]);
    assert ListLinked(m', p, t.kids[p]);
  }
}
