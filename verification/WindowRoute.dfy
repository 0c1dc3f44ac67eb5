/**
 The way from one window to another: up to the least common ancestor, then down. This is
 what _Wind_PathStack flattens into a pointer list.
 */
module WindowRoute {
  import opened WindowShape
  import opened WindowLinks
  import opened WindowTree

  const STACK := 32

  /** The lowest window on the path of b that is also on the path of a. */
  ghost function Lca(s: Shape, a: Window, b: Window): (c: Window)
    requires WellFormed(s) && a in s.kids && b in s.kids
    ensures c in s.kids
    decreases |s.path[b]|
  {
    if b in s.path[a] || b == s.root then b else IsChild(s, b); Lca(s, a, Parent(s, b))
  }

  /** It is a common ancestor and lies below every other one. */
  lemma {:induction false} LcaLeast(s: Shape, a: Window, b: Window)
    requires WellFormed(s) && a in s.kids && b in s.kids
    ensures Lca(s, a, b) in s.kids && Inferior(s, a, Lca(s, a, b)) && Inferior(s, b, Lca(s, a, b))
    ensures forall d | d in s.path[a] && d in s.path[b] :: d in s.kids && Inferior(s, Lca(s, a, b), d)
    decreases |s.path[b]|
  {
    PathStart(s, b);
    PathEnd(s, a);
    if b in s.path[a] || b == s.root {
      forall d | d in s.path[a] && d in s.path[b] ensures d in s.kids { PathIndex(s, b, d); }
    } else {
      IsChild(s, b);
      LcaLeast(s, a, Parent(s, b));
    }
  }

  /** What stands on the stack before the target is looked for. */
  ghost function Base(s: Shape, a: Window): (r: seq<Window>)
    requires WellFormed(s) && (a == NULL || a in s.kids)
    ensures |r| > 0 && r[0] == a && r[|r| - 1] == s.root
  {
    if a == NULL then [NULL, s.root] else PathStart(s, a); PathEnd(s, a); s.path[a]
  }

  /** Where the way turns from up to down; a missing end counts as the root. */
  ghost function Meet(s: Shape, a: Window, b: Window): (c: Window)
    requires WellFormed(s) && (a == NULL || a in s.kids) && (b == NULL || b in s.kids)
    ensures c in s.kids && c in Base(s, a) && (b != NULL ==> c in s.path[b])
    ensures 0 < |s.path[c]| <= |Base(s, a)| && Base(s, a)[|Base(s, a)| - |s.path[c]|] == c
    ensures b != NULL ==> |s.path[c]| <= |s.path[b]|
  {
    var c := if a == NULL || b == NULL then s.root else Lca(s, a, b);
    MeetOk(s, a, b, c);
    c
  }

  lemma MeetOk(s: Shape, a: Window, b: Window, c: Window)
    requires WellFormed(s) && (a == NULL || a in s.kids) && (b == NULL || b in s.kids)
    requires c == if a == NULL || b == NULL then s.root else Lca(s, a, b)
    ensures c in s.kids && c in Base(s, a) && (b != NULL ==> c in s.path[b])
    ensures 0 < |s.path[c]| <= |Base(s, a)| && Base(s, a)[|Base(s, a)| - |s.path[c]|] == c
    ensures b != NULL ==> |s.path[c]| <= |s.path[b]|
  {
    if b != NULL { PathEnd(s, b); }
    if a != NULL && b != NULL { LcaLeast(s, a, b); }
    PathStart(s, c);
    if a != NULL { PathEnd(s, a); PathIndex(s, a, c); }
    if b != NULL { PathIndex(s, b, c); }
  }

  /** How many windows of b's path lie below the turning point. */
  ghost function Rise(s: Shape, a: Window, b: Window): (k: nat)
    requires WellFormed(s) && (a == NULL || a in s.kids) && b in s.kids
    ensures k < |s.path[b]|
  {
    PathStart(s, b);
    |s.path[b]| - |s.path[Meet(s, a, b)]|
  }

  ghost function Turn(s: Shape, a: Window, b: Window): nat
    requires WellFormed(s) && (a == NULL || a in s.kids) && (b == NULL || b in s.kids)
  {
    |Base(s, a)| - |s.path[Meet(s, a, b)]|
  }

  /** The windows from the turning point down to b, the turning point left out. */
  ghost function Down(s: Shape, a: Window, b: Window): seq<Window>
    requires WellFormed(s) && (a == NULL || a in s.kids) && (b == NULL || b in s.kids)
  {
    if b == NULL then [] else Backwards(s.path[b][..Rise(s, a, b)])
  }

  /** The flattened way: a, ..., the turning point, ..., b. */
  ghost function Route(s: Shape, a: Window, b: Window): seq<Window>
    requires WellFormed(s) && (a == NULL || a in s.kids) && (b == NULL || b in s.kids)
  {
    Base(s, a)[..Turn(s, a, b) + 1] + Down(s, a, b)
  }

  /** The two parts of the way as the stack takes them up. */
  lemma RouteJoins(s: Shape, a: Window, b: Window)
    requires WellFormed(s) && (a == NULL || a in s.kids) && b in s.kids
    ensures var n, k := Turn(s, a, b), Rise(s, a, b);
            && n < |Base(s, a)| && k <= |s.path[b]|
            && Route(s, a, b) == Base(s, a)[..n + 1] + Backwards(s.path[b][..k])
            && |Route(s, a, b)| == n + 1 + k
  {
    MeetOk(s, a, b, Meet(s, a, b));
  }

  lemma RouteToNowhere(s: Shape, a: Window)
    requires WellFormed(s) && (a == NULL || a in s.kids)
    ensures Route(s, a, NULL) == Base(s, a) && Turn(s, a, NULL) + 1 == |Base(s, a)|
  {
  }

  /**
   The depths of the two windows and of their least common ancestor allow for arrays of 32
   entries. Nothing in the server tests this.
   */
  ghost predicate Fits(s: Shape, a: Window, b: Window)
    requires WellFormed(s) && (a == NULL || a in s.kids) && (b == NULL || b in s.kids)
  {
    if a == NULL then b == NULL || |s.path[b]| < STACK
    else |s.path[a]| <= STACK
         && (b == NULL || |s.path[a]| + |s.path[b]| + 1 - 2 * |s.path[Lca(s, a, b)]| <= STACK)
  }

  /** That is exactly when everything _Wind_PathStack stores fits: both halves of its stack, and the windows it collects. */
  lemma FitsExact(s: Shape, a: Window, b: Window)
    requires WellFormed(s) && (a == NULL || a in s.kids) && (b == NULL || b in s.kids)
    ensures Fits(s, a, b) <==>
              (|Base(s, a)| <= STACK && |Route(s, a, b)| <= STACK && (b == NULL || Rise(s, a, b) <= STACK))
  {
    if b == NULL {
      RouteToNowhere(s, a);
    } else {
      RouteJoins(s, a, b);
    }
  }

  /** Windows of b's path below the turning point are not on the stack; the turning point is. */
  lemma MeetFirst(s: Shape, a: Window, b: Window, i: nat)
    requires WellFormed(s) && (a == NULL || a in s.kids) && b in s.kids && i < |s.path[b]|
    ensures s.path[b][i] in Base(s, a) <==> i >= Rise(s, a, b)
    ensures s.path[b][i] in s.kids && |s.path[s.path[b][i]]| == |s.path[b]| - i
  {
    var c, d := Meet(s, a, b), s.path[b][i];
    PathSuffix(s, b, i);
    PathIndex(s, b, c);
    if a == NULL {
      PathEnd(s, b);
      PathStart(s, d);
    } else {
      LcaLeast(s, a, b);
      if d in s.path[a] {
        PathIndex(s, c, d);
      }
      if i >= |s.path[b]| - |s.path[c]| {
        PathIndex(s, a, c);
        assert d == s.path[c][i - (|s.path[b]| - |s.path[c]|)];
        assert s.path[a][|s.path[a]| - |s.path[c]| + i - (|s.path[b]| - |s.path[c]|)] == d;
      }
    }
  }

  /** The inner loop of _Wind_PathStack: looks for a window from the top of the stack down. */
  method Search(stack: array<Window>, top: nat, end: Window) returns (found: bool, n: nat)
    requires top < stack.Length
    ensures found ==> n <= top && stack[n] == end
    ensures !found ==> end !in stack[..top + 1]
  {
    n := top;
    while true
      invariant n <= top && forall j | n < j <= top :: stack[j] != end
      decreases n
    {
      if stack[n] == end {
        return true, n;
      }
      if n == 0 {
        return false, n;
      }
      n := n - 1;
    }
  }

  /** The first half of _Wind_PathStack: the way from beg up to the root. */
  method PushBase(tree: Tree, stack: array<Window>, beg: Window) returns (top: nat)
    requires tree.Valid() && (beg == NULL || beg in tree.shape.kids)
    requires |Base(tree.shape, beg)| <= stack.Length
    modifies stack
    ensures top < stack.Length && stack[..top + 1] == Base(tree.shape, beg)
  {
    ghost var path := Base(tree.shape, beg);
    stack[0] := beg;
    if beg == NULL {
      top := 1;
      stack[top] := tree.root;
      assert stack[..top + 1] == path;
    } else {
      top := Climb(tree, stack, beg);
    }
  }

  /** The loop of the first half. */
  method Climb(tree: Tree, stack: array<Window>, beg: Window) returns (top: nat)
    requires tree.Valid() && beg in tree.shape.kids
    requires 0 < |tree.shape.path[beg]| <= stack.Length && stack[0] == beg
    modifies stack
    ensures top < stack.Length && stack[..top + 1] == tree.shape.path[beg]
  {
    ghost var s, path := tree.shape, tree.shape.path[beg];
    assert path[0..] == path;
    ClimbStep(tree.Memory(), s, beg, path, 0);
    top := 0;
    var w := tree.parent[beg];
    while w != NULL
      invariant top < |path| && forall j | 0 <= j <= top :: stack[j] == path[j]
      invariant if w == NULL then top + 1 == |path| else w in s.kids && s.path[w] == path[top + 1..]
      decreases |path| - top
    {
      ClimbStep(tree.Memory(), s, w, path, top + 1);
      top := top + 1;
      stack[top] := w;
      w := tree.parent[w];
    }
    assert stack[..top + 1] == path;
  }

  /** One Parent pointer is one step along the path. */
  lemma ClimbStep(m: Mem, s: Shape, w: Window, path: seq<Window>, i: nat)
    requires WellFormed(s) && TreeLinked(m, s) && w in s.kids && i <= |path| && s.path[w] == path[i..]
    ensures i < |path| && path[i] == w && w in m.parent
    ensures m.parent[w] == NULL <==> i + 1 == |path|
    ensures m.parent[w] != NULL ==> m.parent[w] in s.kids && s.path[m.parent[w]] == path[i + 1..]
  {
    PathStart(s, w);
    ParentPointers(m, s, w);
    assert path[i..][1..] == path[i + 1..];
    if w != s.root { PathStart(s, m.parent[w]); }
  }

  /** The last loop of _Wind_PathStack: appends the collected windows in reverse. */
  method PopOnto(stack: array<Window>, rest: array<Window>, n: nat, num: nat, ghost up: seq<Window>, ghost down: seq<Window>)
    returns (top: nat)
    requires stack != rest && num <= rest.Length && n + num < stack.Length
    requires stack[..n + 1] == up && rest[..num] == down
    modifies stack
    ensures top == n + num && stack[..top + 1] == up + Backwards(down)
  {
    top := n;
    var k := num;
    while k > 0
      invariant 0 <= k <= num && top == n + num - k
      invariant forall j | 0 <= j <= n :: stack[j] == up[j]
      invariant forall j | n < j <= top :: stack[j] == down[n + num - j]
    {
      k := k - 1;
      top := top + 1;
      assert rest[k] == down[k];
      stack[top] := rest[k];
    }
  }

  /** The outer loop of _Wind_PathStack: climbs from end until it meets the stack. */
  method MeetStack(tree: Tree, stack: array<Window>, top: nat, ghost beg: Window, end: Window)
    returns (n: nat, rest: array<Window>, num: nat)
    requires tree.Valid() && (beg == NULL || beg in tree.shape.kids) && end in tree.shape.kids
    requires top < stack.Length && stack[..top + 1] == Base(tree.shape, beg)
    requires Rise(tree.shape, beg, end) <= STACK
    ensures n == Turn(tree.shape, beg, end)
    ensures num == Rise(tree.shape, beg, end)
    ensures fresh(rest) && num <= rest.Length
    ensures rest[..num] == tree.shape.path[end][..num] && stack[..top + 1] == Base(tree.shape, beg)
  {
    ghost var s := tree.shape;
    ghost var path, turn := s.path[end], Rise(s, beg, end);
    rest := new Window[STACK];
    num := 0;
    var w := end;
    assert path[0..] == path && rest[..0] == path[..0];
    while true
      invariant num <= turn && w in s.kids && s.path[w] == path[num..] && rest[..num] == path[..num]
      decreases turn - num
    {
      var found;
      found, n := Meets(tree, stack, top, beg, end, w, num);
      if found {
        return;
      }
      rest[num] := w;
      assert rest[..num + 1] == rest[..num] + [w];
      num := num + 1;
      w := tree.parent[w];
    }
  }

  /** One window of that climb. */
  method Meets(tree: Tree, stack: array<Window>, top: nat, ghost beg: Window, ghost end: Window, w: Window, ghost num: nat)
    returns (found: bool, n: nat)
    requires tree.Valid() && (beg == NULL || beg in tree.shape.kids) && end in tree.shape.kids && w in tree.shape.kids
    requires top < stack.Length && stack[..top + 1] == Base(tree.shape, beg)
    requires num <= Rise(tree.shape, beg, end) && tree.shape.path[w] == tree.shape.path[end][num..]
    ensures found ==> num == Rise(tree.shape, beg, end) && n == Turn(tree.shape, beg, end)
    ensures tree.shape.path[end][num] == w && w in tree.parent
    ensures !found ==>
              && num < Rise(tree.shape, beg, end) && tree.parent[w] in tree.shape.kids
              && tree.shape.path[tree.parent[w]] == tree.shape.path[end][num + 1..]
  {
    found, n := Search(stack, top, w);
    MeetStep(tree.Memory(), tree.shape, beg, end, w, num);
    if found { BaseIndex(tree.shape, beg, w, n); }
  }

  /** One round of that climb: it stops exactly at the turning point. */
  lemma MeetStep(m: Mem, s: Shape, a: Window, b: Window, w: Window, i: nat)
    requires WellFormed(s) && TreeLinked(m, s) && (a == NULL || a in s.kids) && b in s.kids && w in s.kids
    requires i <= Rise(s, a, b) && s.path[w] == s.path[b][i..]
    ensures w in m.parent && s.path[b][i] == w && |s.path[w]| == |s.path[b]| - i
    ensures w in Base(s, a) <==> i == Rise(s, a, b)
    ensures w !in Base(s, a) ==> m.parent[w] in s.kids && s.path[m.parent[w]] == s.path[b][i + 1..]
  {
    ClimbStep(m, s, w, s.path[b], i);
    MeetFirst(s, a, b, i);
  }

  lemma TakeTake<T>(a: seq<T>, k: nat, n: nat)
    requires n <= k <= |a|
    ensures a[..k][..n] == a[..n]
  {
  }

  /** _Wind_PathStack: flattens the way from beg to end; anc is where it turns. */
  method PathStack(tree: Tree, stack: array<Window>, beg: Window, end: Window) returns (anc: nat, top: nat)
    requires tree.Valid() && stack.Length == STACK
    requires (beg == NULL || beg in tree.shape.kids) && (end == NULL || end in tree.shape.kids)
    requires Fits(tree.shape, beg, end)
    modifies stack
    ensures anc == Turn(tree.shape, beg, end) && top + 1 == |Route(tree.shape, beg, end)|
    ensures stack[..top + 1] == Route(tree.shape, beg, end)
  {
    ghost var s := tree.shape;
    FitsExact(s, beg, end);
    top := PushBase(tree, stack, beg);
    anc := top;
    if end != NULL {
      anc, top := GoDown(tree, stack, top, beg, end, Route(s, beg, end));
    } else {
      RouteToNowhere(s, beg);
    }
  }

  /** The second half of _Wind_PathStack: up from end to the stack, and down again. */
  method GoDown(tree: Tree, stack: array<Window>, top: nat, ghost beg: Window, end: Window, ghost route: seq<Window>)
    returns (anc: nat, top': nat)
    requires tree.Valid() && (beg == NULL || beg in tree.shape.kids) && end in tree.shape.kids
    requires top < stack.Length == STACK && stack[..top + 1] == Base(tree.shape, beg)
    requires route == Route(tree.shape, beg, end) && |route| <= STACK
    modifies stack
    ensures anc == Turn(tree.shape, beg, end)
    ensures top' < stack.Length && stack[..top' + 1] == route
  {
    ghost var s := tree.shape;
    RouteJoins(s, beg, end);
    ghost var up, down := Base(s, beg)[..Turn(s, beg, end) + 1], s.path[end][..Rise(s, beg, end)];
    assert up + Backwards(down) == route;
    var rest, num;
    anc, rest, num := MeetStack(tree, stack, top, beg, end);
    TakeTake(stack[..], top + 1, anc + 1);
    top' := PopOnto(stack, rest, anc, num, up, down);
  }

  /** On the base every window stands at the place its depth says. */
  lemma BaseIndex(s: Shape, a: Window, w: Window, n: nat)
    requires WellFormed(s) && (a == NULL || a in s.kids) && w in s.kids
    requires n < |Base(s, a)| && Base(s, a)[n] == w
    ensures n == |Base(s, a)| - |s.path[w]|
  {
    if a != NULL { PathSuffix(s, a, n); }
  }
}
