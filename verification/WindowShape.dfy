/**
 The window hierarchy as the server means it: a rooted, ordered tree.

 A Shape is the mathematical view of the linked WINDOW structs: for every live window the
 list of its children from bottom to top, and the path from the window up to the root. The
 existence of that finite path is what makes the hierarchy acyclic.
 */
module WindowShape {
  import opened Basics

  /** The address of a WINDOW struct. */
  type Window = nat

  const NULL: Window := 0

  datatype Shape = Shape(root: Window, kids: map<Window, seq<Window>>, path: map<Window, seq<Window>>)

  ghost predicate ChildrenOk(s: Shape, w: Window)
    requires s.kids.Keys == s.path.Keys && w in s.kids
  {
    && Distinct(s.kids[w])
    && forall c <- s.kids[w] :: c in s.kids && s.path[c] == [c] + s.path[w]
  }

  ghost predicate HasParent(s: Shape, w: Window)
    requires s.kids.Keys == s.path.Keys && w in s.kids
  {
    |s.path[w]| >= 2 && s.path[w][1] in s.kids && w in s.kids[s.path[w][1]]
  }

  /** One acyclic tree under the root, each window in exactly one child list. */
  ghost predicate WellFormed(s: Shape) {
    && NULL !in s.kids && s.root in s.kids && s.kids.Keys == s.path.Keys
    && s.path[s.root] == [s.root]
    && (forall w {:trigger ChildrenOk(s, w)} | w in s.kids :: ChildrenOk(s, w))
    && (forall w {:trigger HasParent(s, w)} | w in s.kids && w != s.root :: HasParent(s, w))
  }

  ghost function Parent(s: Shape, w: Window): (p: Window)
    requires WellFormed(s) && w in s.kids && w != s.root
    ensures p in s.kids && w in s.kids[p]
  {
    assert HasParent(s, w);
    s.path[w][1]
  }

  lemma IsChild(s: Shape, w: Window)
    requires WellFormed(s) && w in s.kids && w != s.root
    ensures |s.path[w]| >= 2 && s.path[w][1] in s.kids && w in s.kids[s.path[w][1]]
    ensures s.path[w] == [w] + s.path[s.path[w][1]]
  {
    assert HasParent(s, w) && ChildrenOk(s, s.path[w][1]);
  }

  /** v is w itself or lies below w. */
  ghost predicate Inferior(s: Shape, v: Window, w: Window)
    requires v in s.path
  {
    w in s.path[v]
  }

  /** Every suffix of a path is the path of the window it starts with. */
  lemma {:induction false} PathSuffix(s: Shape, w: Window, i: nat)
    requires WellFormed(s) && w in s.kids && i < |s.path[w]|
    ensures s.path[w][i] in s.kids
    ensures s.path[s.path[w][i]] == s.path[w][i..]
    decreases i
  {
    if w == s.root {
    } else {
      assert HasParent(s, w);
      var p := s.path[w][1];
      assert ChildrenOk(s, p);
      if i > 0 {
        PathSuffix(s, p, i - 1);
        assert s.path[w][i] == s.path[p][i - 1];
      }
    }
  }

  lemma PathStart(s: Shape, w: Window)
    requires WellFormed(s) && w in s.kids
    ensures |s.path[w]| > 0 && s.path[w][0] == w
  {
    if w != s.root {
      assert HasParent(s, w);
      assert ChildrenOk(s, s.path[w][1]);
    }
  }

  lemma PathEnd(s: Shape, w: Window)
    requires WellFormed(s) && w in s.kids
    ensures |s.path[w]| > 0 && s.path[w][|s.path[w]| - 1] == s.root
  {
    PathStart(s, w);
    var n := |s.path[w]| - 1;
    var last := s.path[w][n];
    PathSuffix(s, w, n);
    assert last != s.root ==> HasParent(s, last);
  }

  /** No window occurs twice on a path: nothing is its own inferior. */
  lemma PathDistinct(s: Shape, w: Window)
    requires WellFormed(s) && w in s.kids
    ensures Distinct(s.path[w])
  {
    forall i, j | 0 <= i < j < |s.path[w]| ensures s.path[w][i] != s.path[w][j] {
      PathSuffix(s, w, i);
      PathSuffix(s, w, j);
    }
  }

  /** Where an ancestor stands on the path. */
  lemma PathIndex(s: Shape, v: Window, w: Window)
    requires WellFormed(s) && v in s.kids && w in s.path[v]
    ensures w in s.kids && |s.path[w]| <= |s.path[v]|
    ensures s.path[v][|s.path[v]| - |s.path[w]|..] == s.path[w]
    ensures |s.path[w]| > 0 && s.path[v][|s.path[v]| - |s.path[w]|] == w
  {
    var i :| 0 <= i < |s.path[v]| && s.path[v][i] == w;
    PathSuffix(s, v, i);
  }

  /** A window belongs to the child list of its parent and to no other. */
  lemma UniqueParent(s: Shape, w: Window, p: Window)
    requires WellFormed(s) && p in s.kids && w in s.kids[p]
    ensures w in s.kids && w != s.root && w != p && Parent(s, w) == p && w !in s.path[p]
  {
    assert ChildrenOk(s, p);
    PathStart(s, p);
    if w in s.path[p] {
      PathIndex(s, p, w);
      assert false;
    }
  }

  ghost function Index(ws: seq<Window>, w: Window): (i: nat)
    requires w in ws
    ensures i < |ws| && ws[i] == w
  {
    var i :| 0 <= i < |ws| && ws[i] == w;
    i
  }

  ghost function Backwards(ws: seq<Window>): (r: seq<Window>)
    ensures |r| == |ws| && forall i | 0 <= i < |ws| :: r[i] == ws[|ws| - 1 - i]
  {
    seq(|ws|, i requires 0 <= i < |ws| => ws[|ws| - 1 - i])
  }

  ghost function Without(ws: seq<Window>, w: Window): (r: seq<Window>)
    requires w in ws
    ensures |r| == |ws| - 1
  {
    ws[..Index(ws, w)] + ws[Index(ws, w) + 1..]
  }

  lemma WithoutMembers(ws: seq<Window>, w: Window)
    requires w in ws && Distinct(ws)
    ensures Distinct(Without(ws, w))
    ensures forall v :: v in Without(ws, w) <==> v in ws && v != w
  {
    var i := Index(ws, w);
    forall v | v in ws && v != w ensures v in Without(ws, w) {
      var j :| 0 <= j < |ws| && ws[j] == v;
      assert Without(ws, w)[if j < i then j else j - 1] == v;
    }
  }
}
