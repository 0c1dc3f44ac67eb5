/**
 The window memory and the requests that rewire it in place. Every method is proved to do
 to the tree what WindowRuns says, and to leave the pointers spelling out that tree.
 */
module WindowTree {
  import opened WindowShape
  import opened WindowRuns
  import opened WindowLinks
  import opened WindowDestroy

  datatype Status = Success | BadIDChoice | BadWindow | BadValue | BadMatch | Ignored | BadAlloc
  datatype Place = PlaceOnTop | PlaceOnBottom

  class Tree {
    const root: Window
    var parent: map<Window, Window>
    var prevSibl: map<Window, Window>
    var nextSibl: map<Window, Window>
    var stackBot: map<Window, Window>
    var stackTop: map<Window, Window>
    /** For every window the client whose Drawables pool holds it. */
    var drawables: map<Window, Client>
    /** The windows DestroyNotify was sent for, oldest first. */
    var destroyed: seq<Window>
    ghost var shape: Shape

    ghost function Memory(): Mem
      reads this
    {
      Mem(parent, prevSibl, nextSibl, stackBot, stackTop)
    }

    ghost predicate Valid()
      reads this
    {
      shape.root == root && Consistent(Memory(), shape, drawables)
    }

    constructor (root: Window)
      requires root != NULL
      ensures Valid() && this.root == root
      ensures shape == Shape(root, map[root := []], map[root := [root]]) && destroyed == []
    {
      this.root := root;
      parent, prevSibl, nextSibl := map[root := NULL], map[root := NULL], map[root := NULL];
      stackBot, stackTop := map[root := NULL], map[root := NULL];
      drawables, destroyed := map[], [];
      shape := Shape(root, map[root := []], map[root := [root]]);
    }

    /** The statements that take a window out of its sibling list. */
    method Unlink(w: Window)
      requires Closed(Memory(), w)
      modifies `prevSibl, `nextSibl, `stackBot, `stackTop
      ensures Memory() == Unlinked(old(Memory()), w)
    {
      if prevSibl[w] != NULL {
        nextSibl := nextSibl[prevSibl[w] := nextSibl[w]];
      } else {
        stackBot := stackBot[parent[w] := nextSibl[w]];
      }
      if nextSibl[w] != NULL {
        prevSibl := prevSibl[nextSibl[w] := prevSibl[w]];
      } else {
        stackTop := stackTop[parent[w] := prevSibl[w]];
      }
    }

    /** The statements that stack a window on top of a parent. */
    method StackOnTop(w: Window, p: Window)
      requires p in stackTop && stackTop[p] != w
      modifies `parent, `prevSibl, `nextSibl, `stackBot, `stackTop
      ensures Memory() == OnTop(old(Memory()), w, p)
    {
      nextSibl := nextSibl[w := NULL];
      parent := parent[w := p];
      prevSibl := prevSibl[w := stackTop[p]];
      if prevSibl[w] != NULL {
        nextSibl := nextSibl[stackTop[p] := w];
      } else {
        stackBot := stackBot[p := w];
      }
      stackTop := stackTop[p := w];
    }

    /** The pointer updates of WindCirculate with PlaceOnTop. */
    method MoveToTop(w: Window)
      requires Closed(Memory(), w) && nextSibl[w] != NULL
      requires stackTop[parent[w]] != NULL && stackTop[parent[w]] != w
      modifies `prevSibl, `nextSibl, `stackBot, `stackTop
      ensures Memory() == OnTop(Unlinked(old(Memory()), w), w, parent[w])
    {
      prevSibl := prevSibl[nextSibl[w] := prevSibl[w]];
      if prevSibl[w] != NULL {
        nextSibl := nextSibl[prevSibl[w] := nextSibl[w]];
      } else {
        stackBot := stackBot[parent[w] := nextSibl[w]];
      }
      nextSibl := nextSibl[w := NULL];
      prevSibl := prevSibl[w := stackTop[parent[w]]];
      nextSibl := nextSibl[prevSibl[w] := w];
      stackTop := stackTop[parent[w] := w];
      assert parent == parent[w := parent[w]];
    }

    /** The pointer updates of WindCirculate with PlaceOnBottom. */
    method MoveToBottom(w: Window)
      requires Closed(Memory(), w) && prevSibl[w] != NULL
      requires stackBot[parent[w]] != NULL && stackBot[parent[w]] != w
      modifies `prevSibl, `nextSibl, `stackBot, `stackTop
      ensures Memory() == OnBottom(Unlinked(old(Memory()), w), w, parent[w])
    {
      nextSibl := nextSibl[prevSibl[w] := nextSibl[w]];
      if nextSibl[w] != NULL {
        prevSibl := prevSibl[nextSibl[w] := prevSibl[w]];
      } else {
        stackTop := stackTop[parent[w] := prevSibl[w]];
      }
      prevSibl := prevSibl[w := NULL];
      nextSibl := nextSibl[w := stackBot[parent[w]]];
      prevSibl := prevSibl[nextSibl[w] := w];
      stackBot := stackBot[parent[w] := w];
      assert parent == parent[w := parent[w]];
    }

    method Raise(w: Window)
      requires Valid() && w in shape.kids && w != root && nextSibl[w] != NULL
      modifies `prevSibl, `nextSibl, `stackBot, `stackTop, `shape
      ensures Valid() && shape == Raised(old(shape), w) && shape != old(shape)
    {
      ghost var m, s, pool := Memory(), shape, drawables;
      StackEnds(m, s, w);
      MoveToTop(w);
      shape := Raised(s, w);
      assert Memory() == OnTop(Unlinked(m, w), w, m.parent[w]);
      RaiseReady(m, s, pool, w);
    }

    method Lower(w: Window)
      requires Valid() && w in shape.kids && w != root && prevSibl[w] != NULL
      modifies `prevSibl, `nextSibl, `stackBot, `stackTop, `shape
      ensures Valid() && shape == Lowered(old(shape), w) && shape != old(shape)
    {
      ghost var m, s, pool := Memory(), shape, drawables;
      StackEnds(m, s, w);
      MoveToBottom(w);
      shape := Lowered(s, w);
      assert Memory() == OnBottom(Unlinked(m, w), w, m.parent[w]);
      LowerReady(m, s, pool, w);
    }

    /** WindCirculate: relinks one child list; true when a window moved. */
    method Circulate(w: Window, place: Place) returns (notify: bool)
      requires Valid() && w in shape.kids
      modifies `prevSibl, `nextSibl, `stackBot, `stackTop, `shape
      ensures Valid()
      ensures shape == (if w == root then old(shape)
                        else if place == PlaceOnTop then Raised(old(shape), w)
                        else Lowered(old(shape), w))
      ensures notify <==> shape != old(shape)
    {
      notify := false;
      if w != root { StackEnds(Memory(), shape, w); }
      if place == PlaceOnTop {
        if nextSibl[w] != NULL {
          Raise(w);
          notify := true;
        }
      } else {
        if prevSibl[w] != NULL {
          Lower(w);
          notify := true;
        }
      }
    }

    /** A new struct whose five pointers are cleared. */
    method Allocate(w: Window)
      modifies `parent, `prevSibl, `nextSibl, `stackBot, `stackTop
      ensures Memory() == Allocated(old(Memory()), w)
    {
      parent, prevSibl, nextSibl := parent[w := NULL], prevSibl[w := NULL], nextSibl[w := NULL];
      stackBot, stackTop := stackBot[w := NULL], stackTop[w := NULL];
    }

    method AllocateOnTop(w: Window, p: Window)
      requires p in Allocated(Memory(), w).top && Allocated(Memory(), w).top[p] != w
      modifies `parent, `prevSibl, `nextSibl, `stackBot, `stackTop
      ensures Memory() == OnTop(Allocated(old(Memory()), w), w, p)
    {
      Allocate(w);
      StackOnTop(w, p);
    }

    /** XrscCreate and the link statements of RQ_CreateWindow. */
    method LinkNew(clnt: Client, wid: Window, pwnd: Window)
      requires Valid() && wid != NULL && wid !in shape.kids && pwnd in shape.kids
      modifies `parent, `prevSibl, `nextSibl, `stackBot, `stackTop, `drawables, `shape
      ensures Valid()
      ensures shape == AddChild(old(shape), wid, pwnd)
      ensures drawables == old(drawables)[wid := clnt]
    {
      ghost var m, s := Memory(), shape;
      var pool := drawables;
      CreateClosed(m, s, wid, pwnd);
      AllocateOnTop(wid, pwnd);
      drawables := pool[wid := clnt];
      shape := AddChild(s, wid, pwnd);
      CreateReady(m, s, pool, wid, pwnd, clnt);
    }

    /**
     RQ_CreateWindow: the checks, then a new window on top of its parent's stack. `memory` is
     malloc's answer; `handle` tells whether the AES has a window for a child of the root, and
     without one the new window is deleted again.
     */
    method Create(clnt: Client, wid: Window, pwnd: Window, width: int, height: int, memory: bool, handle: bool) returns (r: Status)
      requires Valid() && wid != NULL
      modifies `parent, `prevSibl, `nextSibl, `stackBot, `stackTop, `drawables, `destroyed, `shape
      ensures Valid()
      ensures r == (if wid in old(shape).kids then BadIDChoice
                    else if pwnd !in old(shape).kids then BadWindow
                    else if width <= 0 || height <= 0 then BadValue
                    else if !memory || (pwnd == root && !handle) then BadAlloc
                    else Success)
      ensures shape == if r == Success then AddChild(old(shape), wid, pwnd) else old(shape)
      ensures drawables == if r == Success then old(drawables)[wid := clnt] else old(drawables)
      ensures destroyed == old(destroyed) + if r == BadAlloc && memory then [wid] else []
    {
      if wid in drawables || wid == root {
        return BadIDChoice;
      } else if pwnd !in drawables && pwnd != root {
        return BadWindow;
      } else if width <= 0 || height <= 0 {
        return BadValue;
      } else if !memory {
        return BadAlloc;
      }
      LinkNew(clnt, wid, pwnd);
      if pwnd == root && !handle {
        Undo(wid, old(shape), old(drawables), clnt);
        return BadAlloc;
      }
      return Success;
    }

    lemma PoolBack(pool: map<Window, Client>, w: Window, clnt: Client)
      requires w !in pool
      ensures pool[w := clnt] - {w} == pool
    {
    }

    /** WindDelete of a window that was just created. */
    method Undo(wid: Window, ghost s: Shape, ghost pool: map<Window, Client>, ghost clnt: Client)
      requires WellFormed(s) && root in s.kids && wid !in s.kids && wid != NULL && wid !in pool
      requires Valid() && shape == AddChild(s, wid, root) && drawables == pool[wid := clnt]
      modifies `parent, `prevSibl, `nextSibl, `stackBot, `stackTop, `drawables, `destroyed, `shape
      ensures Valid() && shape == s && drawables == pool && destroyed == old(destroyed) + [wid]
    {
      NewIsLeaf(s, wid, root);
      destroyed := destroyed + [wid];
      Remove(wid);
      AddedPruned(s, wid, root);
      PoolBack(pool, wid, clnt);
    }

    /** _Wind_IsInferior: follows Parent pointers until the window or the end is met. */
    method IsInferior(wind: Window, inferior: Window) returns (b: bool)
      requires Valid() && inferior in shape.kids
      ensures b <==> Inferior(shape, inferior, wind)
    {
      var w := inferior;
      ghost var path := shape.path[inferior];
      ghost var i := 0;
      PathStart(shape, inferior);
      while w != NULL
        invariant 0 <= i <= |path| && forall j | 0 <= j < i :: path[j] != wind
        invariant if i == |path| then w == NULL else w == path[i] && w in shape.kids && shape.path[w] == path[i..]
        decreases |path| - i
      {
        ParentPointers(Memory(), shape, w);
        if w == wind {
          return true;
        }
        assert path[i..][1..] == path[i + 1..];
        if w != root { PathStart(shape, parent[w]); }
        w, i := parent[w], i + 1;
      }
      return false;
    }

    method Restack(w: Window, p: Window)
      requires Closed(Memory(), w) && p in Unlinked(Memory(), w).top && Unlinked(Memory(), w).top[p] != w
      modifies `parent, `prevSibl, `nextSibl, `stackBot, `stackTop
      ensures Memory() == OnTop(Unlinked(old(Memory()), w), w, p)
    {
      Unlink(w);
      StackOnTop(w, p);
    }

    /** The relinking statements of RQ_ReparentWindow. */
    method Relink(wind: Window, pwnd: Window)
      requires Valid() && wind in shape.kids && wind != root && pwnd in shape.kids
      requires !Inferior(shape, pwnd, wind) && Parent(shape, wind) != pwnd
      modifies `parent, `prevSibl, `nextSibl, `stackBot, `stackTop, `shape
      ensures Valid()
      ensures shape == Reparented(old(shape), wind, pwnd)
    {
      ghost var m, s, pool := Memory(), shape, drawables;
      ReparentClosed(m, s, wind, pwnd);
      Restack(wind, pwnd);
      shape := Reparented(s, wind, pwnd);
      ReparentReady(m, s, pool, wind, pwnd);
    }

    /** RQ_ReparentWindow: refuses to hang a window below one of its own inferiors. */
    method Reparent(wind: Window, pwnd: Window) returns (r: Status)
      requires Valid()
      modifies `parent, `prevSibl, `nextSibl, `stackBot, `stackTop, `shape
      ensures Valid()
      ensures r == (if wind !in old(shape).kids || pwnd !in old(shape).kids then BadWindow
                    else if wind != root && Parent(old(shape), wind) == pwnd then Ignored
                    else if Inferior(old(shape), pwnd, wind) then BadMatch
                    else Success)
      ensures r == Success ==> wind != root && shape == Reparented(old(shape), wind, pwnd)
      ensures r != Success ==> shape == old(shape) && Memory() == old(Memory())
    {
      if wind !in drawables && wind != root {
        return BadWindow;
      } else if pwnd !in drawables && pwnd != root {
        return BadWindow;
      }
      ParentPointers(Memory(), shape, wind);
      if parent[wind] == pwnd {
        return Ignored;
      }
      PathEnd(shape, pwnd);
      var below := IsInferior(wind, pwnd);
      if below {
        return BadMatch;
      }
      Relink(wind, pwnd);
      return Success;
    }

    /** The struct is returned to the allocator. */
    method Free(w: Window)
      modifies `parent, `prevSibl, `nextSibl, `stackBot, `stackTop
      ensures Memory() == Freed(old(Memory()), w)
    {
      parent, prevSibl, nextSibl := parent - {w}, prevSibl - {w}, nextSibl - {w};
      stackBot, stackTop := stackBot - {w}, stackTop - {w};
    }

    method Detach(w: Window)
      requires Closed(Memory(), w)
      modifies `parent, `prevSibl, `nextSibl, `stackBot, `stackTop
      ensures Memory() == Freed(Unlinked(old(Memory()), w), w)
    {
      Unlink(w);
      Free(w);
    }

    /** The end of one round of WindDelete: unlink, then XrscDelete from the owner's pool. */
    method Remove(wind: Window)
      requires Valid() && wind in shape.kids && wind != root && shape.kids[wind] == []
      modifies `parent, `prevSibl, `nextSibl, `stackBot, `stackTop, `drawables, `shape
      ensures Valid()
      ensures shape == Pruned(old(shape), wind)
      ensures drawables == old(drawables) - {wind}
    {
      ghost var m, s, pool := Memory(), shape, drawables;
      StackEnds(m, s, wind);
      Delete(wind);
      shape := Pruned(s, wind);
      FreeReady(m, s, pool, wind);
    }

    method Delete(wind: Window)
      requires Closed(Memory(), wind)
      modifies `parent, `prevSibl, `nextSibl, `stackBot, `stackTop, `drawables
      ensures Memory() == Freed(Unlinked(old(Memory()), wind), wind) && drawables == old(drawables) - {wind}
    {
      Detach(wind);
      drawables := drawables - {wind};
    }

    /** WindDelete without a client: destroys a whole subtree without a stack. */
    method Destroy(wid: Window)
      requires Valid() && wid in shape.kids && wid != root
      modifies `parent, `prevSibl, `nextSibl, `stackBot, `stackTop, `drawables, `destroyed, `shape
      ensures Valid()
      ensures shape == Pruned(old(shape), wid)
      ensures destroyed == old(destroyed) + Post(old(shape), wid)
      ensures drawables == old(drawables) - (old(shape).kids.Keys - Pruned(old(shape), wid).kids.Keys)
    {
      ghost var s0 := shape;
      var wind, pwnd, n := wid, parent[wid], 0;
      DeletingStart(shape, wid, destroyed);
      while true
        invariant Valid() && Deleting(s0, shape, wid, wind, old(destroyed), destroyed)
        invariant pwnd == parent[wind] && n == |shape.path[wind]| - |shape.path[wid]|
        invariant Shrunk(old(drawables), s0, drawables, shape)
        decreases shape.kids.Keys, Below(shape, wind)
      {
        ghost var s, m, log := shape, Memory(), destroyed;
        DeletingDown(m, s0, s, wid, wind, old(destroyed), log);
        if stackBot[wind] != NULL {
          pwnd := wind;
          wind := stackBot[wind];
          n := n + 1;
          continue;
        }
        DeletingDepth(s0, s, wid, wind, old(destroyed), log);
        destroyed := destroyed + [wind];
        var next := nextSibl[wind];
        Remove(wind);
        ShrunkStep(old(drawables), s0, s, wind);
        if n == 0 {
          DeletingLast(s0, s, wid, old(destroyed), log);
          break;
        }
        DeletingRound(m, Memory(), s0, s, wid, wind, old(destroyed), log);
        wind := next;
        if wind == NULL {
          wind := pwnd;
          pwnd := parent[pwnd];
          n := n - 1;
        }
      }
    }

    /** A request of the run: the pointers do what it does to the shape. */
    method Request(op: Op)
      requires Valid()
      modifies `parent, `prevSibl, `nextSibl, `stackBot, `stackTop, `drawables, `destroyed, `shape
      ensures Valid() && shape == Step(old(shape), op)
    {
      match op
      case Create(w, p) => Make(w, p);
      case Raise(w) => Turn(w, PlaceOnTop);
      case Lower(w) => Turn(w, PlaceOnBottom);
      case Reparent(w, p) =>
        var r := Reparent(w, p);
      case Destroy(w) =>
        if w in drawables {
          Destroy(w);
        }
    }

    method Make(w: Window, p: Window)
      requires Valid()
      modifies `parent, `prevSibl, `nextSibl, `stackBot, `stackTop, `drawables, `destroyed, `shape
      ensures Valid() && shape == Step(old(shape), Op.Create(w, p))
    {
      if w != NULL {
        var r := Create(0, w, p, 1, 1, true, true);
      }
    }

    method Turn(w: Window, place: Place)
      requires Valid()
      modifies `prevSibl, `nextSibl, `stackBot, `stackTop, `shape
      ensures Valid() && shape == Step(old(shape), if place == PlaceOnTop then Op.Raise(w) else Op.Lower(w))
    {
      if w in drawables {
        var moved := Circulate(w, place);
      }
    }

    /** After any list of requests the pointers spell out what the run makes of the tree. */
    method Play(ops: seq<Op>)
      requires Valid()
      modifies `parent, `prevSibl, `nextSibl, `stackBot, `stackTop, `drawables, `destroyed, `shape
      ensures Valid() && shape == Run(old(shape), ops)
    {
      var n: nat := 0;
      assert ops[0..] == ops;
      while n < |ops|
        invariant n <= |ops| && Valid() && Run(shape, ops[n..]) == Run(old(shape), ops)
      {
        assert ops[n..][0] == ops[n] && ops[n..][1..] == ops[n + 1..];
        Request(ops[n]);
        n := n + 1;
      }
    }
  }
}
