/**
 Trees of depth below 32 with two windows whose way is too long for the 32 entries the server
 has for it: two chains of sixteen or more windows under the root.
 */
module RouteLimit {
  import opened WindowShape
  import opened WindowRuns
  import opened WindowRoute

  const ROOT: Window := 1

  /** The server at its start: only the root. */
  ghost function Bare(): (s: Shape)
    ensures WellFormed(s) && s.kids.Keys == {ROOT} && s.root == ROOT
  {
    Shape(ROOT, map[ROOT := []], map[ROOT := [ROOT]])
  }

  /** No window from w on exists yet. */
  ghost predicate Unused(s: Shape, w: Window) {
    forall v {:trigger v in s.kids} | v in s.kids :: v < w
  }

  /** Creates the windows w, w + 1, ... of a chain of n, the first one below p. */
  ghost function Chain(s: Shape, p: Window, w: Window, n: nat): (t: Shape)
    requires WellFormed(s) && p in s.kids && Unused(s, w) && w != NULL
    ensures WellFormed(t) && t.root == s.root && Unused(t, w + n)
    decreases n
  {
    if n == 0 then s else
      AddChildKeeps(s, w, p);
      Chain(AddChild(s, w, p), w, w + 1, n - 1)
  }

  /** Old windows keep their paths; the last one of the chain has the whole chain on its path, and then that of p. */
  lemma {:induction false} ChainPath(s: Shape, p: Window, w: Window, n: nat, v: Window)
    requires WellFormed(s) && p in s.kids && Unused(s, w) && w != NULL
    ensures v in s.kids ==> v in Chain(s, p, w, n).kids && Chain(s, p, w, n).path[v] == s.path[v]
    ensures n > 0 ==>
              var t, last := Chain(s, p, w, n), w + n - 1;
              last in t.kids && |t.path[last]| == |s.path[p]| + n
              && forall x <- t.path[last] :: x in s.path[p] || w <= x < w + n
    decreases n
  {
    if n > 0 {
      AddChildKeeps(s, w, p);
      var s1 := AddChild(s, w, p);
      ChainPath(s1, w, w + 1, n - 1, v);
      if n == 1 { ChainPath(s1, w, w + 1, 0, w); }
    }
  }

  /** Two chains of n windows under the root: 2, ..., n + 1 and n + 2, ..., 2n + 1. */
  ghost function OneChain(n: nat): (t: Shape)
    ensures WellFormed(t) && t.root == ROOT && ROOT in t.kids && Unused(t, 2 + n)
  {
    Chain(Bare(), ROOT, 2, n)
  }

  ghost function TwoChains(n: nat): (t: Shape)
    ensures WellFormed(t) && t.root == ROOT
  {
    Chain(OneChain(n), ROOT, 2 + n, n)
  }

  lemma TwoChainsPaths(n: nat)
    requires n > 0
    ensures var t, a, b := TwoChains(n), 1 + n, 1 + 2 * n;
            && a in t.kids && b in t.kids && |t.path[a]| == |t.path[b]| == n + 1
            && (forall x <- t.path[a] :: x < 2 + n) && (forall x <- t.path[b] :: x == ROOT || 2 + n <= x)
  {
    ChainPath(Bare(), ROOT, 2, n, ROOT);
    ChainPath(OneChain(n), ROOT, 2 + n, n, 1 + n);
    assert OneChain(n).path[ROOT] == [ROOT];
  }

  /** Windows whose paths have only the root in common meet there. */
  lemma MeetAtRoot(s: Shape, a: Window, b: Window)
    requires WellFormed(s) && a in s.kids && b in s.kids
    requires forall x | x in s.path[a] && x in s.path[b] :: x == s.root
    ensures Lca(s, a, b) == s.root && |s.path[Lca(s, a, b)]| == 1
  {
    LcaLeast(s, a, b);
  }

  /** The last windows of the chains fit for up to fifteen windows; with sixteen or more they do not, whatever the depth. */
  lemma TooLong(n: nat)
    requires n > 0
    ensures var t, a, b := TwoChains(n), 1 + n, 1 + 2 * n;
            && a in t.kids && b in t.kids && |t.path[a]| == |t.path[b]| == n + 1
            && (Fits(t, a, b) <==> n <= 15) && (n > 15 ==> |Route(t, a, b)| > STACK)
  {
    var t, a, b := TwoChains(n), 1 + n, 1 + 2 * n;
    TwoChainsPaths(n);
    MeetAtRoot(t, a, b);
    RouteJoins(t, a, b);
  }
}
