/**
 EnterNotify and LeaveNotify when the pointer moves from one window to another: what
 section 11 of the X Window System Protocol prescribes, and the server's single pass over
 the flattened way that produces it.
 */
module Crossing {
  import opened WindowShape
  import opened WindowLinks
  import opened WindowTree
  import opened WindowRoute

  datatype PXY = PXY(x: int, y: int) {
    function Plus(o: PXY): PXY { PXY(x + o.x, y + o.y) }
    function Minus(o: PXY): PXY { PXY(x - o.x, y - o.y) }
  }

  datatype Kind = Enter | Leave
  datatype Detail = NotifyAncestor | NotifyVirtual | NotifyInferior | NotifyNonlinear | NotifyNonlinearVirtual
  datatype Event = Event(kind: Kind, window: Window, detail: Detail, at: PXY)

  /** What the events depend on besides the tree: positions, event masks and the pointer. */
  datatype Env = Env(rect: map<Window, PXY>, enter: set<Window>, leave: set<Window>, pointer: PXY)

  /** The origin of a window on the screen: its position added to those of its ancestors. */
  ghost function Origin(s: Shape, e: Env, w: Window): PXY
    requires WellFormed(s) && s.kids.Keys <= e.rect.Keys && w in s.kids
    decreases |s.path[w]|
  {
    if w == s.root then e.rect[w] else IsChild(s, w); e.rect[w].Plus(Origin(s, e, Parent(s, w)))
  }

  /** The pointer as seen from a window. */
  ghost function Local(s: Shape, e: Env, w: Window): PXY
    requires WellFormed(s) && s.kids.Keys <= e.rect.Keys && w in s.kids
  {
    e.pointer.Minus(Origin(s, e, w))
  }

  /** EvntEnterNotify and EvntLeaveNotify, guarded by the window's event mask. */
  function Sent(e: Env, kind: Kind, detail: Detail, w: Window, at: PXY): seq<Event> {
    if w in (if kind == Enter then e.enter else e.leave) then [Event(kind, w, detail, at)] else []
  }

  /** One event for every listed window that selects it. */
  ghost function Tell(s: Shape, e: Env, kind: Kind, detail: Detail, ws: seq<Window>): seq<Event>
    requires WellFormed(s) && s.kids.Keys <= e.rect.Keys && forall w <- ws :: w in s.kids
  {
    if ws == [] then [] else
      var w := ws[|ws| - 1];
      Tell(s, e, kind, detail, ws[..|ws| - 1]) + Sent(e, kind, detail, w, Local(s, e, w))
  }

  /** The windows strictly between v and its ancestor x, from v upward. */
  ghost function Between(s: Shape, v: Window, x: Window): (r: seq<Window>)
    requires WellFormed(s) && v in s.kids && x in s.path[v]
    ensures forall w <- r :: w in s.kids
  {
    PathIndex(s, v, x);
    var n := |s.path[v]| - |s.path[x]|;
    forall i | 0 <= i < |s.path[v]| ensures s.path[v][i] in s.kids { PathSuffix(s, v, i); }
    if n == 0 then [] else s.path[v][1..n]
  }

  /** Section 11 of the protocol, for a pointer that moves from a to another window b. */
  ghost function Prescribed(s: Shape, e: Env, a: Window, b: Window): seq<Event>
    requires WellFormed(s) && s.kids.Keys <= e.rect.Keys && a in s.kids && b in s.kids
  {
    if Inferior(s, a, b) then
      Tell(s, e, Leave, NotifyAncestor, [a])
      + Tell(s, e, Leave, NotifyVirtual, Between(s, a, b))
      + Tell(s, e, Enter, NotifyInferior, [b])
    else if Inferior(s, b, a) then
      Tell(s, e, Leave, NotifyInferior, [a])
      + Tell(s, e, Enter, NotifyVirtual, Backwards(Between(s, b, a)))
      + Tell(s, e, Enter, NotifyAncestor, [b])
    else
      LcaLeast(s, a, b);
      var c := Lca(s, a, b);
      Tell(s, e, Leave, NotifyNonlinear, [a])
      + Tell(s, e, Leave, NotifyNonlinearVirtual, Between(s, a, c))
      + Tell(s, e, Enter, NotifyNonlinearVirtual, Backwards(Between(s, b, c)))
      + Tell(s, e, Enter, NotifyNonlinear, [b])
  }

  /** Section 11 for a pointer that comes from another screen, and for one that goes there. */
  ghost function Section11Entry(s: Shape, e: Env, b: Window): seq<Event>
    requires WellFormed(s) && s.kids.Keys <= e.rect.Keys && b in s.kids
  {
    if b == s.root then Tell(s, e, Enter, NotifyNonlinear, [b]) else
      PathEnd(s, b);
      Tell(s, e, Enter, NotifyNonlinearVirtual, [s.root])
      + Tell(s, e, Enter, NotifyNonlinearVirtual, Backwards(Between(s, b, s.root)))
      + Tell(s, e, Enter, NotifyNonlinear, [b])
  }

  ghost function Section11Exit(s: Shape, e: Env, a: Window): seq<Event>
    requires WellFormed(s) && s.kids.Keys <= e.rect.Keys && a in s.kids
  {
    if a == s.root then Tell(s, e, Leave, NotifyNonlinear, [a]) else
      PathEnd(s, a);
      Tell(s, e, Leave, NotifyNonlinear, [a])
      + Tell(s, e, Leave, NotifyNonlinearVirtual, Between(s, a, s.root))
      + Tell(s, e, Leave, NotifyNonlinearVirtual, [s.root])
  }

  /** What the server does for a pointer that comes from no window. */
  ghost function ServerEntry(s: Shape, e: Env, b: Window): seq<Event>
    requires WellFormed(s) && s.kids.Keys <= e.rect.Keys && b in s.kids
  {
    if b == s.root then Tell(s, e, Enter, NotifyInferior, [b]) else
      PathEnd(s, b);
      Tell(s, e, Enter, NotifyNonlinearVirtual, Backwards(Between(s, b, s.root))) + Tell(s, e, Enter, NotifyNonlinear, [b])
  }

  /**
   r is the way from a to b, all that the events depend on: n steps up along the path of a,
   then k steps down along that of b.
   */
  ghost predicate Way(s: Shape, a: Window, b: Window, r: seq<Window>, n: nat, k: nat) {
    && WellFormed(s) && b in s.kids && |r| == n + k + 1 && k < |s.path[b]|
    && (if a == NULL then n == 1 && r[0] == NULL else a in s.kids && n < |s.path[a]| && OnPath(r, s.path[a], n))
    && forall i {:trigger r[i]} | n <= i <= n + k :: r[i] == s.path[b][n + k - i]
  }

  /** The first windows of a stack are those of a path. */
  ghost predicate OnPath(stack: seq<Window>, path: seq<Window>, n: nat) {
    n < |path| && n <= |stack| && (forall i {:trigger stack[i]} | 0 <= i < n :: stack[i] == path[i])
  }

  lemma JoinDown(up: seq<Window>, path: seq<Window>, k: nat, j: nat)
    requires j < k <= |path| && |up| > 0
    ensures (up + Backwards(path[..k]))[|up| - 1 + k - j] == path[j]
  {
  }

  /** The flattened way is one. */
  lemma RouteIsWay(s: Shape, a: Window, b: Window)
    requires WellFormed(s) && (a == NULL || a in s.kids) && b in s.kids
    ensures Way(s, a, b, Route(s, a, b), Turn(s, a, b), Rise(s, a, b))
    ensures Route(s, a, b)[Turn(s, a, b)] == Meet(s, a, b)
  {
    RouteParts(s, a, b);
    WayFrom(s, a, b, Route(s, a, b), Turn(s, a, b), Rise(s, a, b), Base(s, a), Meet(s, a, b));
  }

  lemma WayFrom(s: Shape, a: Window, b: Window, r: seq<Window>, n: nat, k: nat, base: seq<Window>, c: Window)
    requires WellFormed(s) && (a == NULL || a in s.kids) && b in s.kids && n < |base| && k < |s.path[b]|
    requires if a == NULL then n == 1 && base[0] == NULL else base == s.path[a]
    requires base[n] == s.path[b][k] == c && r == base[..n + 1] + Backwards(s.path[b][..k])
    ensures Way(s, a, b, r, n, k) && r[n] == c
  {
    Joined(base, s.path[b], r, n, k, c);
  }

  lemma RouteParts(s: Shape, a: Window, b: Window)
    requires WellFormed(s) && (a == NULL || a in s.kids) && b in s.kids
    ensures var r, n, k, c := Route(s, a, b), Turn(s, a, b), Rise(s, a, b), Meet(s, a, b);
            && n < |Base(s, a)| && k < |s.path[b]| && Base(s, a)[n] == s.path[b][k] == c
            && r == Base(s, a)[..n + 1] + Backwards(s.path[b][..k]) && (a == NULL ==> n == 1)
  {
    var c := Meet(s, a, b);
    RouteJoins(s, a, b);
    MeetOk(s, a, b, c);
    PathIndex(s, b, c);
    if a == NULL { assert s.path[c] == [s.root]; }
  }

  lemma Joined(base: seq<Window>, path: seq<Window>, r: seq<Window>, n: nat, k: nat, c: Window)
    requires n < |base| && k < |path| && r == base[..n + 1] + Backwards(path[..k]) && base[n] == path[k] == c
    ensures |r| == n + k + 1 && r[n] == c
    ensures forall i {:trigger r[i]} | 0 <= i <= n :: r[i] == base[i]
    ensures forall i {:trigger r[i]} | n <= i <= n + k :: r[i] == path[n + k - i]
  {
    forall i | n < i <= n + k ensures r[i] == path[n + k - i] { JoinDown(base[..n + 1], path, k, n + k - i); }
  }

  /** The parent of a window on a path is the next one. */
  lemma PathParent(s: Shape, v: Window, i: nat)
    requires WellFormed(s) && v in s.kids && i + 1 < |s.path[v]|
    ensures s.path[v][i] in s.kids && s.path[v][i] != s.root && Parent(s, s.path[v][i]) == s.path[v][i + 1]
    ensures s.path[v][i + 1] in s.kids
  {
    PathSuffix(s, v, i);
    PathSuffix(s, v, i + 1);
    assert |s.path[s.path[v][i]]| > 1;
  }

  /** Adding a window's own position turns its view of the pointer into its parent's. */
  lemma ParentView(s: Shape, e: Env, w: Window)
    requires WellFormed(s) && s.kids.Keys <= e.rect.Keys && w in s.kids && w != s.root
    ensures Local(s, e, w).Plus(e.rect[w]) == Local(s, e, Parent(s, w))
    ensures Local(s, e, Parent(s, w)).Minus(e.rect[w]) == Local(s, e, w)
  {
  }

  lemma TellMore(s: Shape, e: Env, kind: Kind, detail: Detail, ws: seq<Window>, w: Window)
    requires WellFormed(s) && s.kids.Keys <= e.rect.Keys && w in s.kids && forall v <- ws :: v in s.kids
    ensures Tell(s, e, kind, detail, ws + [w]) == Tell(s, e, kind, detail, ws) + Sent(e, kind, detail, w, Local(s, e, w))
  {
    assert (ws + [w])[..|ws|] == ws;
  }

  lemma TellOne(s: Shape, e: Env, kind: Kind, detail: Detail, w: Window)
    requires WellFormed(s) && s.kids.Keys <= e.rect.Keys && w in s.kids
    ensures Tell(s, e, kind, detail, [w]) == Sent(e, kind, detail, w, Local(s, e, w))
  {
    assert Tell(s, e, kind, detail, [w][..0]) == [];
  }

  lemma SliceMore(ws: seq<Window>, i: nat, j: nat)
    requires i <= j < |ws|
    ensures ws[i..j + 1] == ws[i..j] + [ws[j]]
  {
  }

  /** One more window of the list. */
  lemma ChainMore(s: Shape, e: Env, kind: Kind, detail: Detail, ws: seq<Window>, i: nat, j: nat)
    requires WellFormed(s) && s.kids.Keys <= e.rect.Keys && i <= j < |ws| && ws[j] in s.kids
    requires forall v <- ws[i..j] :: v in s.kids
    ensures forall v <- ws[i..j + 1] :: v in s.kids
    ensures Tell(s, e, kind, detail, ws[i..j + 1])
         == Tell(s, e, kind, detail, ws[i..j]) + Sent(e, kind, detail, ws[j], Local(s, e, ws[j]))
  {
    SliceMore(ws, i, j);
    TellMore(s, e, kind, detail, ws[i..j], ws[j]);
  }

  ghost predicate StepUp(s: Shape, ws: seq<Window>, i: nat) {
    && WellFormed(s) && i + 1 < |ws| && ws[i] in s.kids && ws[i + 1] in s.kids
    && ws[i] != s.root && Parent(s, ws[i]) == ws[i + 1]
  }

  ghost predicate StepDown(s: Shape, ws: seq<Window>, i: nat) {
    && WellFormed(s) && 0 < i < |ws| && ws[i] in s.kids && ws[i - 1] in s.kids
    && ws[i] != s.root && Parent(s, ws[i]) == ws[i - 1]
  }

  lemma WayDown(s: Shape, a: Window, b: Window, r: seq<Window>, n: nat, k: nat, i: nat)
    requires Way(s, a, b, r, n, k) && n < i <= n + k
    ensures StepDown(s, r, i)
  {
    PathParent(s, b, n + k - i);
  }

  /** Some windows of the list have been told, and the coordinates are those of w. */
  ghost predicate Telling(s: Shape, e: Env, kind: Kind, detail: Detail, ws: seq<Window>, i: nat, j: nat, w: Window, xy: PXY, log: seq<Event>) {
    && WellFormed(s) && s.kids.Keys <= e.rect.Keys && i <= j <= |ws| && w in s.kids && xy == Local(s, e, w)
    && (forall v <- ws[i..j] :: v in s.kids) && log == Tell(s, e, kind, detail, ws[i..j])
  }

  lemma TellingNone(s: Shape, e: Env, kind: Kind, detail: Detail, ws: seq<Window>, i: nat, w: Window)
    requires WellFormed(s) && s.kids.Keys <= e.rect.Keys && i <= |ws| && w in s.kids
    ensures Telling(s, e, kind, detail, ws, i, i, w, Local(s, e, w), [])
  {
    assert ws[i..i] == [];
  }

  lemma LeaveStep(s: Shape, e: Env, detail: Detail, ws: seq<Window>, i: nat, j: nat, xy: PXY, log: seq<Event>)
    requires j < |ws| && Telling(s, e, Leave, detail, ws, i, j, ws[j], xy, log) && StepUp(s, ws, j)
    ensures Telling(s, e, Leave, detail, ws, i, j + 1, ws[j + 1], xy.Plus(e.rect[ws[j]]), log + Sent(e, Leave, detail, ws[j], xy))
  {
    ParentView(s, e, ws[j]);
    ChainMore(s, e, Leave, detail, ws, i, j);
  }

  lemma EnterStep(s: Shape, e: Env, detail: Detail, ws: seq<Window>, i: nat, j: nat, xy: PXY, log: seq<Event>)
    requires 0 < j < |ws| && Telling(s, e, Enter, detail, ws, i, j, ws[j - 1], xy, log) && StepDown(s, ws, j)
    ensures var at := xy.Minus(e.rect[ws[j]]);
            Telling(s, e, Enter, detail, ws, i, j + 1, ws[j], at, log + Sent(e, Enter, detail, ws[j], at))
  {
    ParentView(s, e, ws[j]);
    ChainMore(s, e, Enter, detail, ws, i, j);
  }

  /** The first loop of EvntPointer: leaves the windows between the start and the turn. */
  method LeaveChain(ghost s: Shape, e: Env, stack: seq<Window>, anc: nat, xy: PXY, next: Detail, ghost path: seq<Window>)
    returns (xy': PXY, log: seq<Event>)
    requires 0 < anc && OnPath(stack, path, anc) && forall i | 0 <= i < anc :: StepUp(s, path, i)
    requires Telling(s, e, Leave, next, path, 1, 1, path[1], xy, [])
    ensures Telling(s, e, Leave, next, path, 1, anc, path[anc], xy', log)
  {
    log := [];
    xy' := xy;
    var bot := 1;
    while bot < anc
      invariant 1 <= bot <= anc && Telling(s, e, Leave, next, path, 1, bot, path[bot], xy', log)
    {
      var w := stack[bot];
      LeaveStep(s, e, next, path, 1, bot, xy', log);
      log := log + Sent(e, Leave, next, w, xy');
      xy' := xy'.Plus(e.rect[w]);
      bot := bot + 1;
    }
  }

  /** The second loop of EvntPointer: enters the windows between the turn and the target. */
  method EnterChain(ghost s: Shape, e: Env, stack: seq<Window>, anc: nat, top: nat, xy: PXY, next: Detail)
    returns (xy': PXY, log: seq<Event>)
    requires anc < top < |stack| && forall i | anc < i <= top :: StepDown(s, stack, i)
    requires Telling(s, e, Enter, next, stack, anc + 1, anc + 1, stack[anc], xy, [])
    ensures Telling(s, e, Enter, next, stack, anc + 1, top, stack[top - 1], xy', log)
  {
    log := [];
    xy' := xy;
    var bot := anc + 1;
    while bot < top
      invariant anc < bot <= top && Telling(s, e, Enter, next, stack, anc + 1, bot, stack[bot - 1], xy', log)
    {
      var w := stack[bot];
      EnterStep(s, e, next, stack, anc + 1, bot, xy', log);
      xy' := xy'.Minus(e.rect[w]);
      log := log + Sent(e, Enter, next, w, xy');
      bot := bot + 1;
    }
  }

  datatype Details = Details(first: Detail, next: Detail, last: Detail)

  function DetailsOf(anc: nat, top: nat): Details {
    if anc == 0 then Details(NotifyInferior, NotifyVirtual, NotifyAncestor)
    else if anc == top then Details(NotifyAncestor, NotifyVirtual, NotifyInferior)
    else Details(NotifyNonlinear, NotifyNonlinearVirtual, NotifyNonlinear)
  }

  /** The windows strictly between v and place n of its path. */
  ghost function Inner(s: Shape, v: Window, n: nat): (r: seq<Window>)
    requires WellFormed(s) && v in s.kids && n < |s.path[v]|
    ensures forall w <- r :: w in s.kids
  {
    forall i | 0 <= i < |s.path[v]| ensures s.path[v][i] in s.kids { PathSuffix(s, v, i); }
    if n == 0 then [] else s.path[v][1..n]
  }

  lemma InnerIsBetween(s: Shape, v: Window, n: nat)
    requires WellFormed(s) && v in s.kids && n < |s.path[v]|
    ensures s.path[v][n] in s.kids && s.path[v][n] in s.path[v] && Between(s, v, s.path[v][n]) == Inner(s, v, n)
  {
    PathSuffix(s, v, n);
  }

  /** What the pass tells while it goes up to place n of the path of a, and down from place k of that of b. */
  ghost function Leaving(s: Shape, e: Env, a: Window, n: nat, d: Details): seq<Event>
    requires WellFormed(s) && s.kids.Keys <= e.rect.Keys && a in s.kids && n < |s.path[a]|
  {
    Tell(s, e, Leave, d.first, [a]) + Tell(s, e, Leave, d.next, Inner(s, a, n))
  }

  ghost function Entering(s: Shape, e: Env, b: Window, k: nat, d: Details): seq<Event>
    requires WellFormed(s) && s.kids.Keys <= e.rect.Keys && b in s.kids && k < |s.path[b]|
  {
    Tell(s, e, Enter, d.next, Backwards(Inner(s, b, k))) + Tell(s, e, Enter, d.last, [b])
  }

  /** Which of the three cases of the protocol applies can be read off the turning point. */
  lemma TurnCases(s: Shape, a: Window, b: Window)
    requires WellFormed(s) && a in s.kids && b in s.kids
    ensures Turn(s, a, b) < |s.path[a]| && s.path[a][Turn(s, a, b)] == Lca(s, a, b)
    ensures Rise(s, a, b) < |s.path[b]| && s.path[b][Rise(s, a, b)] == Lca(s, a, b)
    ensures Turn(s, a, b) == 0 <==> Inferior(s, b, a)
    ensures Rise(s, a, b) == 0 <==> Inferior(s, a, b)
  {
    var c := Meet(s, a, b);
    LcaLeast(s, a, b);
    PathStart(s, a);
    PathStart(s, b);
    PathIndex(s, a, c);
    PathIndex(s, b, c);
    if Inferior(s, b, a) { PathIndex(s, c, a); }
    if Inferior(s, a, b) { PathIndex(s, c, b); }
  }

  /** The two halves together are what the protocol prescribes. */
  lemma ToldIsPrescribed(s: Shape, e: Env, a: Window, b: Window)
    requires WellFormed(s) && s.kids.Keys <= e.rect.Keys && a in s.kids && b in s.kids && a != b
    ensures var n, k := Turn(s, a, b), Rise(s, a, b);
            && n < |s.path[a]| && k < |s.path[b]|
            && Leaving(s, e, a, n, DetailsOf(n, n + k)) + Entering(s, e, b, k, DetailsOf(n, n + k)) == Prescribed(s, e, a, b)
  {
    TurnCases(s, a, b);
    Cases(s, e, a, b, Turn(s, a, b), Rise(s, a, b));
  }

  lemma Cases(s: Shape, e: Env, a: Window, b: Window, n: nat, k: nat)
    requires WellFormed(s) && s.kids.Keys <= e.rect.Keys && a in s.kids && b in s.kids && a != b
    requires n < |s.path[a]| && k < |s.path[b]| && s.path[a][n] == Lca(s, a, b) == s.path[b][k]
    requires n == 0 <==> Inferior(s, b, a)
    requires k == 0 <==> Inferior(s, a, b)
    ensures Leaving(s, e, a, n, DetailsOf(n, n + k)) + Entering(s, e, b, k, DetailsOf(n, n + k)) == Prescribed(s, e, a, b)
  {
    PathStart(s, a);
    PathStart(s, b);
    InnerIsBetween(s, a, n);
    InnerIsBetween(s, b, k);
  }

  lemma ToldIsEntry(s: Shape, e: Env, b: Window)
    requires WellFormed(s) && s.kids.Keys <= e.rect.Keys && b in s.kids
    ensures Turn(s, NULL, b) == 1 && Rise(s, NULL, b) < |s.path[b]|
    ensures Entering(s, e, b, Rise(s, NULL, b), DetailsOf(1, 1 + Rise(s, NULL, b))) == ServerEntry(s, e, b)
  {
    PathEnd(s, b);
    PathStart(s, b);
    if b != s.root { IsChild(s, b); PathStart(s, Parent(s, b)); }
    InnerIsBetween(s, b, Rise(s, NULL, b));
  }

  /**
   What the server does for a pointer that leaves the window a for none. Over a window of
   another program it leaves as for another screen, outside of all windows as for an ancestor.
   */
  ghost function ServerExit(s: Shape, e: Env, a: Window, outside: bool): seq<Event>
    requires WellFormed(s) && s.kids.Keys <= e.rect.Keys && a in s.kids
  {
    PathEnd(s, a);
    if a == s.root then
      if outside then [] else Tell(s, e, Leave, NotifyInferior, [a])
    else if outside then
      Tell(s, e, Leave, NotifyAncestor, [a]) + Tell(s, e, Leave, NotifyVirtual, Between(s, a, s.root))
    else
      Tell(s, e, Leave, NotifyNonlinear, [a]) + Tell(s, e, Leave, NotifyNonlinearVirtual, Between(s, a, s.root))
  }

  lemma ToldIsExit(s: Shape, e: Env, a: Window, anc: nat, top: nat, outside: bool)
    requires WellFormed(s) && s.kids.Keys <= e.rect.Keys && a in s.kids && anc + 1 == |s.path[a]|
    requires top == if outside then anc else anc + 1
    ensures !(a == s.root && outside) ==> Leaving(s, e, a, anc, DetailsOf(anc, top)) == ServerExit(s, e, a, outside)
  {
    PathStart(s, a);
    PathEnd(s, a);
    if a != s.root { IsChild(s, a); PathStart(s, Parent(s, a)); }
    InnerIsBetween(s, a, anc);
  }

  /** The server enters as section 11 asks exactly when the root does not select the event. */
  lemma EntryExact(s: Shape, e: Env, b: Window)
    requires WellFormed(s) && s.kids.Keys <= e.rect.Keys && b in s.kids
    ensures ServerEntry(s, e, b) == Section11Entry(s, e, b) <==> s.root !in e.enter
  {
    TellOne(s, e, Enter, NotifyNonlinearVirtual, s.root);
    TellOne(s, e, Enter, NotifyNonlinear, b);
    TellOne(s, e, Enter, NotifyInferior, b);
    if b != s.root {
      assert |Section11Entry(s, e, b)| == |ServerEntry(s, e, b)| + if s.root in e.enter then 1 else 0;
    }
  }

  /** It leaves for a window of another program as section 11 asks exactly when the root does not select the event. */
  lemma ExitExact(s: Shape, e: Env, a: Window)
    requires WellFormed(s) && s.kids.Keys <= e.rect.Keys && a in s.kids
    ensures ServerExit(s, e, a, false) == Section11Exit(s, e, a) <==> s.root !in e.leave
  {
    TellOne(s, e, Leave, NotifyNonlinearVirtual, s.root);
    TellOne(s, e, Leave, NotifyNonlinear, a);
    TellOne(s, e, Leave, NotifyInferior, a);
    if a != s.root {
      assert |Section11Exit(s, e, a)| == |ServerExit(s, e, a, false)| + if s.root in e.leave then 1 else 0;
    }
  }

  /** Events keep the detail they are told with, and there are none exactly when no window selects them. */
  lemma {:induction false} TellNone(s: Shape, e: Env, kind: Kind, detail: Detail, ws: seq<Window>)
    requires WellFormed(s) && s.kids.Keys <= e.rect.Keys && forall w <- ws :: w in s.kids
    ensures Tell(s, e, kind, detail, ws) == [] <==> forall w <- ws :: w !in (if kind == Enter then e.enter else e.leave)
    ensures forall ev <- Tell(s, e, kind, detail, ws) :: ev.detail == detail
  {
    if ws != [] {
      var n := |ws| - 1;
      var sent := Sent(e, kind, detail, ws[n], Local(s, e, ws[n]));
      assert forall w :: w in ws <==> w in ws[..n] || w == ws[n] by { assert ws == ws[..n] + [ws[n]]; }
      TellNone(s, e, kind, detail, ws[..n]);
      assert |Tell(s, e, kind, detail, ws)| == |Tell(s, e, kind, detail, ws[..n])| + |sent|;
    }
  }

  lemma NothingInCommon(a: seq<Event>, b: seq<Event>)
    requires forall x <- a :: x !in b
    ensures a == b <==> a == [] == b
  {
    if a != [] { assert a[0] in a; }
  }

  /** What section 11 asks for is nothing exactly when no window on the path selects it. */
  lemma ExitEvents(s: Shape, e: Env, a: Window)
    requires WellFormed(s) && s.kids.Keys <= e.rect.Keys && a in s.kids && a != s.root
    ensures Section11Exit(s, e, a) == [] <==> forall w <- s.path[a] :: w !in e.leave
    ensures forall ev <- Section11Exit(s, e, a) :: ev.detail == NotifyNonlinear || ev.detail == NotifyNonlinearVirtual
  {
    PathEnd(s, a);
    PathParts(s, a);
    var up := Between(s, a, s.root);
    TellNone(s, e, Leave, NotifyNonlinear, [a]);
    TellNone(s, e, Leave, NotifyNonlinearVirtual, up);
    TellNone(s, e, Leave, NotifyNonlinearVirtual, [s.root]);
    assert forall w :: w in s.path[a] <==> w in [a] || w in up || w in [s.root];
  }

  /** And what the server does outside of all windows has other details. */
  lemma OutsideEvents(s: Shape, e: Env, a: Window)
    requires WellFormed(s) && s.kids.Keys <= e.rect.Keys && a in s.kids && a != s.root
    ensures (forall w <- s.path[a] :: w !in e.leave) ==> ServerExit(s, e, a, true) == []
    ensures forall ev <- ServerExit(s, e, a, true) :: ev.detail == NotifyAncestor || ev.detail == NotifyVirtual
  {
    PathEnd(s, a);
    PathParts(s, a);
    var up := Between(s, a, s.root);
    TellNone(s, e, Leave, NotifyAncestor, [a]);
    TellNone(s, e, Leave, NotifyVirtual, up);
    assert forall w :: w in s.path[a] <==> w in [a] || w in up || w in [s.root];
  }

  /** Outside of all windows every detail is wrong: that is right exactly when no window from a up to the root selects the event. */
  lemma OutsideExact(s: Shape, e: Env, a: Window)
    requires WellFormed(s) && s.kids.Keys <= e.rect.Keys && a in s.kids
    ensures ServerExit(s, e, a, true) == Section11Exit(s, e, a) <==> forall w <- s.path[a] :: w !in e.leave
  {
    if a == s.root {
      TellNone(s, e, Leave, NotifyNonlinear, [a]);
      assert s.path[a] == [a];
    } else {
      ExitEvents(s, e, a);
      OutsideEvents(s, e, a);
      NothingInCommon(Section11Exit(s, e, a), ServerExit(s, e, a, true));
    }
  }

  lemma PathParts(s: Shape, a: Window)
    requires WellFormed(s) && a in s.kids && a != s.root && s.root in s.path[a]
    ensures s.path[a] == [a] + Between(s, a, s.root) + [s.root]
  {
    PathStart(s, a);
    PathEnd(s, a);
    IsChild(s, a);
    PathStart(s, Parent(s, a));
  }

  /** A server with nothing but the root, which selects both events and is pointed at. */
  lemma RootExample()
    ensures var s, e := Shape(1, map[1 := []], map[1 := [1]]), Env(map[1 := PXY(0, 0)], {1}, {1}, PXY(0, 0));
            && WellFormed(s) && ServerEntry(s, e, 1) != Section11Entry(s, e, 1)
            && ServerExit(s, e, 1, false) != Section11Exit(s, e, 1) && ServerExit(s, e, 1, true) != Section11Exit(s, e, 1)
  {
    var s, e := Shape(1, map[1 := []], map[1 := [1]]), Env(map[1 := PXY(0, 0)], {1}, {1}, PXY(0, 0));
    assert WellFormed(s);
    EntryExact(s, e, 1);
    ExitExact(s, e, 1);
    assert 1 in s.path[1];
    OutsideExact(s, e, 1);
  }

  /** The stack for that: the path with NULL behind the root, or outside of all windows in its place. */
  ghost predicate LeadsOut(s: Shape, a: Window, stack: seq<Window>, anc: nat, top: nat, outside: bool)
    requires WellFormed(s)
  {
    && a in s.kids && anc + 1 == |s.path[a]|
    && if outside then top == anc && stack == s.path[a][..anc] + [NULL] else top == anc + 1 && stack == s.path[a] + [NULL]
  }

  /** Without a target nothing is entered, and the second loop of EvntPointer has no round. */
  lemma OutStack(s: Shape, a: Window, stack: seq<Window>, anc: nat, top: nat, outside: bool)
    requires WellFormed(s) && LeadsOut(s, a, stack, anc, top, outside)
    ensures top < |stack| && stack[top] == NULL && top <= anc + 1 && OnPath(stack, s.path[a], anc)
    ensures stack[0] == if a == s.root && outside then NULL else a
  {
    PathStart(s, a);
    if a != s.root { IsChild(s, a); PathStart(s, Parent(s, a)); }
  }

  /** The flattened way from a to b as the callers of EvntPointer provide it; either may be missing. */
  ghost predicate Flattened(s: Shape, a: Window, b: Window, stack: seq<Window>, anc: nat, top: nat, outside: bool)
    requires WellFormed(s) && (a == NULL || a in s.kids) && (b == NULL || b in s.kids)
  {
    if b != NULL then stack == Route(s, a, b) && anc == Turn(s, a, b) && top + 1 == |stack|
    else if a != NULL then LeadsOut(s, a, stack, anc, top, outside)
    else top == 0 && anc <= 1 && |stack| > 0 && stack[0] == NULL
  }

  ghost function Told(s: Shape, e: Env, a: Window, b: Window, outside: bool): seq<Event>
    requires WellFormed(s) && s.kids.Keys <= e.rect.Keys && (a == NULL || a in s.kids) && (b == NULL || b in s.kids)
  {
    if b != NULL then (if a == NULL then ServerEntry(s, e, b) else Prescribed(s, e, a, b))
    else if a != NULL then ServerExit(s, e, a, outside)
    else []
  }

  // What the log of EvntPointer holds, one event at a time, whatever function sends it.

  /** How far right of and below the screen's corner a chain of windows begins. */
  ghost function Across(e: Env, ws: seq<Window>): int
    requires forall w <- ws :: w in e.rect
  {
    if ws == [] then 0 else e.rect[ws[0]].x + Across(e, ws[1..])
  }

  ghost function Below(e: Env, ws: seq<Window>): int
    requires forall w <- ws :: w in e.rect
  {
    if ws == [] then 0 else e.rect[ws[0]].y + Below(e, ws[1..])
  }

  lemma OnPathKnown(s: Shape, v: Window)
    requires WellFormed(s) && v in s.kids
    ensures forall w <- s.path[v] :: w in s.kids
  {
    forall w | w in s.path[v] ensures w in s.kids { PathIndex(s, v, w); }
  }

  /** The event's coordinates are those of the pointer, counted from the corner of its window. */
  ghost predicate Located(s: Shape, e: Env, ev: Event)
    requires WellFormed(s) && s.kids.Keys <= e.rect.Keys && ev.window in s.kids
  {
    OnPathKnown(s, ev.window);
    && ev.at.x + Across(e, s.path[ev.window]) == e.pointer.x
    && ev.at.y + Below(e, s.path[ev.window]) == e.pointer.y
  }

  lemma {:induction false} OriginSums(s: Shape, e: Env, w: Window)
    requires WellFormed(s) && s.kids.Keys <= e.rect.Keys && w in s.kids && forall v <- s.path[w] :: v in e.rect
    ensures Origin(s, e, w).x == Across(e, s.path[w]) && Origin(s, e, w).y == Below(e, s.path[w])
    decreases |s.path[w]|
  {
    if w == s.root {
      assert s.path[w][1..] == [];
    } else {
      IsChild(s, w);
      OnPathKnown(s, Parent(s, w));
      assert s.path[w][1..] == s.path[Parent(s, w)];
      OriginSums(s, e, Parent(s, w));
    }
  }

  lemma LocalLocates(s: Shape, e: Env, ev: Event)
    requires WellFormed(s) && s.kids.Keys <= e.rect.Keys && ev.window in s.kids
    ensures Located(s, e, ev) <==> ev.at == Local(s, e, ev.window)
  {
    OnPathKnown(s, ev.window);
    OriginSums(s, e, ev.window);
  }

  /** One end of the way contains the other; a missing one is inside the root, or around it when it is outside of all. */
  ghost predicate Contains(s: Shape, own: Window, other: Window, outside: bool)
    requires own in s.path && (other == NULL || other in s.path)
  {
    if other == NULL then own == s.root && !outside else own in s.path[other]
  }

  ghost predicate IsWithin(s: Shape, own: Window, other: Window, outside: bool)
    requires own in s.path
  {
    if other == NULL then outside else other in s.path[own]
  }

  /**
   The window w is passed on the way between the window `own` and the other end, on the side
   of `own`, and that is the detail: it is `own` itself, or it contains `own` but not the other end.
   */
  ghost predicate Passed(s: Shape, own: Window, other: Window, outside: bool, w: Window, detail: Detail)
    requires own in s.path && (other == NULL || other in s.path)
  {
    && w in s.path[own] && !(other == NULL && outside && own == s.root)
    && if w == own then
         detail == if Contains(s, own, other, outside) then NotifyInferior
                   else if IsWithin(s, own, other, outside) then NotifyAncestor
                   else NotifyNonlinear
       else
         && (if other == NULL then w != s.root else w !in s.path[other])
         && detail == if IsWithin(s, own, other, outside) || Contains(s, own, other, outside) then NotifyVirtual
                      else NotifyNonlinearVirtual
  }

  /** The events there have to be: leaves on the side of a, enters on the side of b, where the window selects them. */
  ghost predicate Due(s: Shape, e: Env, a: Window, b: Window, outside: bool, ev: Event)
    requires WellFormed(s) && s.kids.Keys <= e.rect.Keys && (a == NULL || a in s.kids) && (b == NULL || b in s.kids)
  {
    && ev.window in s.kids && Located(s, e, ev)
    && match ev.kind
       case Leave => a != NULL && ev.window in e.leave && Passed(s, a, b, outside, ev.window, ev.detail)
       case Enter => b != NULL && ev.window in e.enter && Passed(s, b, a, false, ev.window, ev.detail)
  }

  /** Leaves come before enters; windows are left from the inside out and entered from the outside in. */
  ghost predicate Precedes(s: Shape, p: Event, q: Event) {
    && p.window in s.path && q.window in s.path
    && match (p.kind, q.kind)
       case (Leave, Enter) => true
       case (Enter, Leave) => false
       case (Leave, Leave) => |s.path[p.window]| > |s.path[q.window]|
       case (Enter, Enter) => |s.path[p.window]| < |s.path[q.window]|
  }

  ghost predicate InOrder(s: Shape, log: seq<Event>) {
    forall i, j | 0 <= i < j < |log| :: Precedes(s, log[i], log[j])
  }

  /** Exactly the events that are due, in order; so each window gets at most one of a kind. */
  ghost predicate Proper(s: Shape, e: Env, a: Window, b: Window, outside: bool, log: seq<Event>)
    requires WellFormed(s) && s.kids.Keys <= e.rect.Keys && (a == NULL || a in s.kids) && (b == NULL || b in s.kids)
  {
    && (forall ev :: ev in log <==> Due(s, e, a, b, outside, ev))
    && InOrder(s, log)
  }

  /** What one event of a list of tellings is. */
  ghost predicate From(s: Shape, e: Env, kind: Kind, detail: Detail, ws: seq<Window>, ev: Event)
    requires WellFormed(s) && s.kids.Keys <= e.rect.Keys && forall w <- ws :: w in s.kids
  {
    && ev.window in ws && ev.kind == kind && ev.detail == detail && Located(s, e, ev)
    && (kind == Enter ==> ev.window in e.enter) && (kind == Leave ==> ev.window in e.leave)
  }

  lemma {:induction false} TellFrom(s: Shape, e: Env, kind: Kind, detail: Detail, ws: seq<Window>, ev: Event)
    requires WellFormed(s) && s.kids.Keys <= e.rect.Keys && forall w <- ws :: w in s.kids
    ensures ev in Tell(s, e, kind, detail, ws) <==> From(s, e, kind, detail, ws, ev)
  {
    if ws != [] {
      var n := |ws| - 1;
      assert ev.window in ws <==> ev.window in ws[..n] || ev.window == ws[n] by { assert ws == ws[..n] + [ws[n]]; }
      TellFrom(s, e, kind, detail, ws[..n], ev);
      if ev.window == ws[n] { LocalLocates(s, e, ev); }
    }
  }

  /** Windows in the order in which they are left, or entered. */
  ghost predicate Stepwise(s: Shape, kind: Kind, ws: seq<Window>)
    requires forall w <- ws :: w in s.path
  {
    forall i, j | 0 <= i < j < |ws| ::
      if kind == Leave then |s.path[ws[i]]| > |s.path[ws[j]]| else |s.path[ws[i]]| < |s.path[ws[j]]|
  }

  lemma JoinOrder(s: Shape, l: seq<Event>, r: seq<Event>)
    requires InOrder(s, l) && InOrder(s, r) && forall p, q | p in l && q in r :: Precedes(s, p, q)
    ensures InOrder(s, l + r)
  {
  }

  lemma {:induction false} TellOrder(s: Shape, e: Env, kind: Kind, detail: Detail, ws: seq<Window>)
    requires WellFormed(s) && s.kids.Keys <= e.rect.Keys && (forall w <- ws :: w in s.kids) && Stepwise(s, kind, ws)
    ensures InOrder(s, Tell(s, e, kind, detail, ws))
  {
    if ws != [] {
      var n := |ws| - 1;
      var l, r := Tell(s, e, kind, detail, ws[..n]), Tell(s, e, kind, detail, [ws[n]]);
      TellOne(s, e, kind, detail, ws[n]);
      assert Tell(s, e, kind, detail, ws) == l + r && |r| <= 1;
      TellOrder(s, e, kind, detail, ws[..n]);
      forall p, q | p in l && q in r ensures Precedes(s, p, q) { LastTold(s, e, kind, detail, ws, p, q); }
      JoinOrder(s, l, r);
    }
  }

  lemma LastTold(s: Shape, e: Env, kind: Kind, detail: Detail, ws: seq<Window>, p: Event, q: Event)
    requires WellFormed(s) && s.kids.Keys <= e.rect.Keys && (forall w <- ws :: w in s.kids) && Stepwise(s, kind, ws)
    requires ws != [] && p in Tell(s, e, kind, detail, ws[..|ws| - 1]) && q in Tell(s, e, kind, detail, [ws[|ws| - 1]])
    ensures Precedes(s, p, q)
  {
    var n := |ws| - 1;
    TellFrom(s, e, kind, detail, ws[..n], p);
    TellFrom(s, e, kind, detail, [ws[n]], q);
    var i :| 0 <= i < n && ws[..n][i] == p.window;
    assert ws[i] == p.window && q.window == ws[n];
  }

  /** The window itself, and with another detail what contains it but not its ancestor c. */
  ghost predicate OneSide(s: Shape, v: Window, c: Window, own: Detail, through: Detail, w: Window, detail: Detail)
    requires v in s.path && c in s.path
  {
    w in s.path[v] && if w == v then detail == own else w !in s.path[c] && detail == through
  }

  lemma InnerMembers(s: Shape, v: Window, n: nat, w: Window)
    requires WellFormed(s) && v in s.kids && n < |s.path[v]|
    ensures s.path[v][n] in s.kids
    ensures w in Inner(s, v, n) <==> w in s.path[v] && w != v && w !in s.path[s.path[v][n]]
  {
    var path := s.path[v];
    PathSuffix(s, v, n);
    PathStart(s, v);
    PathDistinct(s, v);
    if n > 0 {
      assert path == [v] + path[1..n] + path[n..];
    } else {
      assert path == path[n..];
    }
  }

  lemma InnerSteps(s: Shape, v: Window, n: nat)
    requires WellFormed(s) && v in s.kids && n < |s.path[v]|
    ensures Stepwise(s, Leave, Inner(s, v, n)) && Stepwise(s, Enter, Backwards(Inner(s, v, n)))
    ensures forall w <- Inner(s, v, n) :: |s.path[w]| < |s.path[v]|
  {
    var inner := Inner(s, v, n);
    forall i | 0 <= i < |inner| ensures |s.path[inner[i]]| == |s.path[v]| - 1 - i { PathSuffix(s, v, i + 1); }
  }

  lemma BackwardsMembers(ws: seq<Window>, w: Window)
    ensures w in Backwards(ws) <==> w in ws
  {
    if w in ws {
      var i := Index(ws, w);
      assert Backwards(ws)[|ws| - 1 - i] == w;
    }
  }

  lemma LeavingFrom(s: Shape, e: Env, a: Window, n: nat, d: Details, ev: Event)
    requires WellFormed(s) && s.kids.Keys <= e.rect.Keys && a in s.kids && n < |s.path[a]|
    ensures s.path[a][n] in s.kids
    ensures ev in Leaving(s, e, a, n, d) <==>
              && ev.window in s.kids && Located(s, e, ev) && ev.kind == Leave && ev.window in e.leave
              && OneSide(s, a, s.path[a][n], d.first, d.next, ev.window, ev.detail)
  {
    InnerMembers(s, a, n, ev.window);
    OnPathKnown(s, a);
    PathStart(s, a);
    TellFrom(s, e, Leave, d.first, [a], ev);
    TellFrom(s, e, Leave, d.next, Inner(s, a, n), ev);
  }

  lemma EnteringFrom(s: Shape, e: Env, b: Window, k: nat, d: Details, ev: Event)
    requires WellFormed(s) && s.kids.Keys <= e.rect.Keys && b in s.kids && k < |s.path[b]|
    ensures s.path[b][k] in s.kids
    ensures ev in Entering(s, e, b, k, d) <==>
              && ev.window in s.kids && Located(s, e, ev) && ev.kind == Enter && ev.window in e.enter
              && OneSide(s, b, s.path[b][k], d.last, d.next, ev.window, ev.detail)
  {
    InnerMembers(s, b, k, ev.window);
    BackwardsMembers(Inner(s, b, k), ev.window);
    OnPathKnown(s, b);
    PathStart(s, b);
    TellFrom(s, e, Enter, d.last, [b], ev);
    TellFrom(s, e, Enter, d.next, Backwards(Inner(s, b, k)), ev);
  }

  lemma LeavingOrder(s: Shape, e: Env, a: Window, n: nat, d: Details)
    requires WellFormed(s) && s.kids.Keys <= e.rect.Keys && a in s.kids && n < |s.path[a]|
    ensures InOrder(s, Leaving(s, e, a, n, d))
  {
    var inner := Inner(s, a, n);
    InnerSteps(s, a, n);
    TellOrder(s, e, Leave, d.first, [a]);
    TellOrder(s, e, Leave, d.next, inner);
    var l, r := Tell(s, e, Leave, d.first, [a]), Tell(s, e, Leave, d.next, inner);
    forall p, q | p in l && q in r ensures Precedes(s, p, q) {
      TellFrom(s, e, Leave, d.first, [a], p);
      TellFrom(s, e, Leave, d.next, inner, q);
    }
    JoinOrder(s, l, r);
  }

  lemma EnteringOrder(s: Shape, e: Env, b: Window, k: nat, d: Details)
    requires WellFormed(s) && s.kids.Keys <= e.rect.Keys && b in s.kids && k < |s.path[b]|
    ensures InOrder(s, Entering(s, e, b, k, d))
  {
    var inner := Inner(s, b, k);
    InnerSteps(s, b, k);
    TellOrder(s, e, Enter, d.next, Backwards(inner));
    TellOrder(s, e, Enter, d.last, [b]);
    var l, r := Tell(s, e, Enter, d.next, Backwards(inner)), Tell(s, e, Enter, d.last, [b]);
    forall p, q | p in l && q in r ensures Precedes(s, p, q) {
      TellFrom(s, e, Enter, d.next, Backwards(inner), p);
      TellFrom(s, e, Enter, d.last, [b], q);
      BackwardsMembers(inner, p.window);
    }
    JoinOrder(s, l, r);
  }

  /** What contains a contains b exactly when it contains their least common ancestor. */
  lemma Common(s: Shape, a: Window, b: Window, w: Window)
    requires WellFormed(s) && a in s.kids && b in s.kids
    ensures Lca(s, a, b) in s.kids
    ensures w in s.path[Lca(s, a, b)] <==> w in s.path[a] && w in s.path[b]
  {
    var c := Lca(s, a, b);
    LcaLeast(s, a, b);
    if w in s.path[c] {
      PathIndex(s, a, c);
      PathIndex(s, b, c);
      assert w in s.path[a][|s.path[a]| - |s.path[c]|..] && w in s.path[b][|s.path[b]| - |s.path[c]|..];
    }
  }

  /** On either side of the turn, an event is due exactly when it is told. */
  lemma LeavingDue(s: Shape, e: Env, a: Window, b: Window, outside: bool, ev: Event)
    requires WellFormed(s) && s.kids.Keys <= e.rect.Keys && a in s.kids && b in s.kids && a != b
    ensures var n, k := Turn(s, a, b), Rise(s, a, b);
            && n < |s.path[a]|
            && (ev in Leaving(s, e, a, n, DetailsOf(n, n + k)) <==> ev.kind == Leave && Due(s, e, a, b, outside, ev))
  {
    TurnCases(s, a, b);
    LeavingFrom(s, e, a, Turn(s, a, b), DetailsOf(Turn(s, a, b), Turn(s, a, b) + Rise(s, a, b)), ev);
    Common(s, a, b, ev.window);
  }

  lemma EnteringDue(s: Shape, e: Env, a: Window, b: Window, outside: bool, ev: Event)
    requires WellFormed(s) && s.kids.Keys <= e.rect.Keys && a in s.kids && b in s.kids && a != b
    ensures var n, k := Turn(s, a, b), Rise(s, a, b);
            && k < |s.path[b]|
            && (ev in Entering(s, e, b, k, DetailsOf(n, n + k)) <==> ev.kind == Enter && Due(s, e, a, b, outside, ev))
  {
    TurnCases(s, a, b);
    EnteringFrom(s, e, b, Rise(s, a, b), DetailsOf(Turn(s, a, b), Turn(s, a, b) + Rise(s, a, b)), ev);
    Common(s, a, b, ev.window);
  }

  /** From one window to another. */
  lemma BothProper(s: Shape, e: Env, a: Window, b: Window, outside: bool)
    requires WellFormed(s) && s.kids.Keys <= e.rect.Keys && a in s.kids && b in s.kids && a != b
    ensures Proper(s, e, a, b, outside, Prescribed(s, e, a, b))
  {
    var n, k := Turn(s, a, b), Rise(s, a, b);
    ToldIsPrescribed(s, e, a, b);
    var l, r := Leaving(s, e, a, n, DetailsOf(n, n + k)), Entering(s, e, b, k, DetailsOf(n, n + k));
    forall ev
      ensures ev in l <==> ev.kind == Leave && Due(s, e, a, b, outside, ev)
      ensures ev in r <==> ev.kind == Enter && Due(s, e, a, b, outside, ev)
    {
      LeavingDue(s, e, a, b, outside, ev);
      EnteringDue(s, e, a, b, outside, ev);
    }
    LeavingOrder(s, e, a, n, DetailsOf(n, n + k));
    EnteringOrder(s, e, b, k, DetailsOf(n, n + k));
    assert forall p, q | p in l && q in r :: Precedes(s, p, q);
    JoinOrder(s, l, r);
  }

  /** From no window to one. */
  lemma EntryProper(s: Shape, e: Env, b: Window, outside: bool)
    requires WellFormed(s) && s.kids.Keys <= e.rect.Keys && b in s.kids
    ensures Proper(s, e, NULL, b, outside, ServerEntry(s, e, b))
  {
    var k := Rise(s, NULL, b);
    var d := DetailsOf(1, 1 + k);
    ToldIsEntry(s, e, b);
    PathEnd(s, b);
    PathStart(s, b);
    if b != s.root { IsChild(s, b); PathStart(s, Parent(s, b)); }
    forall ev ensures ev in Entering(s, e, b, k, d) <==> Due(s, e, NULL, b, outside, ev) { EnteringFrom(s, e, b, k, d, ev); }
    EnteringOrder(s, e, b, k, d);
  }

  /** From one window to none. */
  lemma ExitProper(s: Shape, e: Env, a: Window, outside: bool)
    requires WellFormed(s) && s.kids.Keys <= e.rect.Keys && a in s.kids
    ensures Proper(s, e, a, NULL, outside, ServerExit(s, e, a, outside))
  {
    var n := |s.path[a]| - 1;
    PathEnd(s, a);
    PathStart(s, a);
    if a != s.root { IsChild(s, a); PathStart(s, Parent(s, a)); }
    var d := DetailsOf(n, if outside then n else n + 1);
    ToldIsExit(s, e, a, n, if outside then n else n + 1, outside);
    if a != s.root || !outside {
      forall ev ensures ev in Leaving(s, e, a, n, d) <==> Due(s, e, a, NULL, outside, ev) { LeavingFrom(s, e, a, n, d, ev); }
      LeavingOrder(s, e, a, n, d);
    }
  }

  /** What EvntPointer tells is proper, whatever ends there are. */
  lemma ToldProper(s: Shape, e: Env, a: Window, b: Window, outside: bool)
    requires WellFormed(s) && s.kids.Keys <= e.rect.Keys && (a == NULL || a in s.kids) && (b == NULL || b in s.kids)
    requires a == NULL || a != b
    ensures Proper(s, e, a, b, outside, Told(s, e, a, b, outside))
  {
    if a != NULL && b != NULL {
      BothProper(s, e, a, b, outside);
    } else if b != NULL {
      EntryProper(s, e, b, outside);
    } else if a != NULL {
      ExitProper(s, e, a, outside);
    }
  }

  /** EvntPointer: one pass over the flattened way, shifting the coordinates as it goes. */
  method EvntPointer(ghost s: Shape, e: Env, stack: seq<Window>, anc: nat, top: nat, start: PXY,
                     ghost a: Window, ghost b: Window, ghost outside: bool)
    returns (log: seq<Event>)
    requires WellFormed(s) && s.kids.Keys <= e.rect.Keys && (a == NULL || a in s.kids) && (b == NULL || b in s.kids)
    requires (a == NULL || a != b) && Flattened(s, a, b, stack, anc, top, outside)
    requires start == if a == NULL then Local(s, e, s.root) else Local(s, e, a)
    ensures log == Told(s, e, a, b, outside) && Proper(s, e, a, b, outside, log)
  {
    ToldProper(s, e, a, b, outside);
    ghost var k := 0;
    if b == NULL {
      if a != NULL {
        OutStack(s, a, stack, anc, top, outside);
        ToldIsExit(s, e, a, anc, top, outside);
      }
    } else {
      k := Rise(s, a, b);
      WayReady(s, e, a, b);
    }
    var d := DetailsOf(anc, top);
    var xy := start;
    log := [];
    if stack[0] != NULL {
      xy, log := LeaveHalf(s, e, stack, anc, start, d, a);
    }
    if stack[top] != NULL {
      var l := EnterHalf(s, e, stack, anc, top, xy, d, a, b, k);
      log := log + l;
    }
  }

  /** With a target, the stack is the way, and what is told is as it should be. */
  lemma WayReady(s: Shape, e: Env, a: Window, b: Window)
    requires WellFormed(s) && s.kids.Keys <= e.rect.Keys && (a == NULL || a in s.kids) && b in s.kids && a != b
    ensures var r, n, k := Route(s, a, b), Turn(s, a, b), Rise(s, a, b);
            && Way(s, a, b, r, n, k) && r[0] == a && r[n + k] == b && r[n] in s.kids && (a == NULL ==> r[n] == s.root)
            && Told(s, e, a, b, false) == Told(s, e, a, b, true)
            && Told(s, e, a, b, false) == (if a == NULL then [] else Leaving(s, e, a, n, DetailsOf(n, n + k)))
                                          + Entering(s, e, b, k, DetailsOf(n, n + k))
  {
    RouteIsWay(s, a, b);
    PathStart(s, b);
    if a == NULL { ToldIsEntry(s, e, b); } else { ToldIsPrescribed(s, e, a, b); PathStart(s, a); }
  }

  /** The part of EvntPointer that leaves windows. */
  method LeaveHalf(ghost s: Shape, e: Env, stack: seq<Window>, anc: nat, start: PXY, d: Details, ghost a: Window)
    returns (xy: PXY, log: seq<Event>)
    requires WellFormed(s) && s.kids.Keys <= e.rect.Keys && a in s.kids && start == Local(s, e, a)
    requires |stack| > 0 && stack[0] == a && OnPath(stack, s.path[a], anc)
    ensures s.path[a][anc] in s.kids && xy == Local(s, e, s.path[a][anc]) && log == Leaving(s, e, a, anc, d)
  {
    ghost var path := s.path[a];
    PathStart(s, a);
    TellOne(s, e, Leave, d.first, a);
    xy, log := start, Sent(e, Leave, d.first, stack[0], start);
    if anc > 0 {
      forall i | 0 <= i < anc ensures StepUp(s, path, i) { PathParent(s, a, i); }
      assert StepUp(s, path, 0);
      ParentView(s, e, a);
      xy := xy.Plus(e.rect[stack[0]]);
      TellingNone(s, e, Leave, d.next, path, 1, path[1]);
      var l;
      xy, l := LeaveChain(s, e, stack, anc, xy, d.next, path);
      log := log + l;
    }
  }

  /** The part of EvntPointer that enters windows. */
  method EnterHalf(ghost s: Shape, e: Env, stack: seq<Window>, anc: nat, top: nat, start: PXY, d: Details,
                   ghost a: Window, ghost b: Window, ghost k: nat)
    returns (log: seq<Event>)
    requires Way(s, a, b, stack, anc, k) && s.kids.Keys <= e.rect.Keys && top == anc + k && stack[top] == b
    requires stack[anc] in s.kids && start == Local(s, e, stack[anc])
    ensures log == Entering(s, e, b, k, d)
  {
    TellOne(s, e, Enter, d.last, b);
    log := [];
    var xy := start;
    if anc < top {
      forall i | anc < i <= top ensures StepDown(s, stack, i) { WayDown(s, a, b, stack, anc, k, i); }
      TellingNone(s, e, Enter, d.next, stack, anc + 1, stack[anc]);
      xy, log := EnterChain(s, e, stack, anc, top, start, d.next);
      InnerStack(s, a, b, stack, anc, k);
      assert StepDown(s, stack, top);
      ParentView(s, e, b);
      xy := xy.Minus(e.rect[stack[top]]);
    }
    log := log + Sent(e, Enter, d.last, stack[top], xy);
  }

  lemma InnerStack(s: Shape, a: Window, b: Window, r: seq<Window>, n: nat, k: nat)
    requires Way(s, a, b, r, n, k) && k > 0
    ensures r[n + 1..n + k] == Backwards(Inner(s, b, k))
  {
  }

  /** WindPointerPos: subtracts positions along the Parent pointers. */
  method WindPointerPos(tree: Tree, e: Env, wind: Window) returns (pos: PXY)
    requires tree.Valid() && tree.shape.kids.Keys <= e.rect.Keys && (wind == NULL || wind in tree.shape.kids)
    ensures pos == Local(tree.shape, e, if wind == NULL then tree.root else wind)
  {
    pos := e.pointer;
    if wind == NULL {
      pos := pos.Minus(e.rect[tree.root]);
    } else {
      ghost var s := tree.shape;
      var w := wind;
      while true
        invariant w in s.kids && pos.Minus(Origin(s, e, w)) == Local(s, e, wind)
        decreases |s.path[w]|
      {
        ParentPointers(tree.Memory(), s, w);
        pos := pos.Minus(e.rect[w]);
        if tree.parent[w] == NULL {
          break;
        }
        w := tree.parent[w];
      }
    }
  }

  /** _Wind_PgrabSet: the pointer is taken from one window to another one. */
  method Grab(tree: Tree, e: Env, from: Window, wind: Window) returns (log: seq<Event>)
    requires tree.Valid() && tree.shape.kids.Keys <= e.rect.Keys
    requires (from == NULL || from in tree.shape.kids) && wind in tree.shape.kids && wind != from
    requires Fits(tree.shape, from, wind)
    ensures log == if from == NULL then ServerEntry(tree.shape, e, wind) else Prescribed(tree.shape, e, from, wind)
    ensures Proper(tree.shape, e, from, wind, false, log)
  {
    var stack := new Window[STACK];
    var anc, top := PathStack(tree, stack, from, wind);
    var xy := WindPointerPos(tree, e, from);
    log := EvntPointer(tree.shape, e, stack[..top + 1], anc, top, xy, from, wind, false);
  }
}
