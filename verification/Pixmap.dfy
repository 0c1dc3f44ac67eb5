/**
 Pixmaps: counted references, a pool for structs whose id is gone but which are still held,
 and a ring of sixteen slots for the pixmaps that have an open off-screen handle.
 */
module Pixmap {
  import opened Pool

  /** A struct field that can hold a pixmap. */
  datatype Slot = Tile(gc: nat) | Stipple(gc: nat) | ClipMask(gc: nat) | Background(window: nat) | Icon(window: nat)

  /** A pixmap struct. */
  datatype Pix = Pix(id: nat, depth: nat, reffs: nat, vdi: int, tabIdx: nat)

  ghost function Holders(slots: map<Slot, Ref>, p: Ref): set<Slot> {
    set s | s in slots && slots[s] == p
  }

  ghost predicate InPool(pool: map<nat, Ref>, p: Ref, id: nat) {
    id in pool && pool[id] == p
  }

  /** How many references a pixmap ought to have. */
  ghost function References(pool: map<nat, Ref>, slots: map<Slot, Ref>, p: Ref, id: nat): nat {
    (if InPool(pool, p, id) then 1 else 0) + |Holders(slots, p)|
  }

  /**
   Every struct has exactly its references, and at least one; it is either in the pool
   or an orphan; and neither the pool nor a slot points to a freed struct.
   */
  ghost predicate Counted(pix: map<Ref, Pix>, pool: map<nat, Ref>, orphans: set<Ref>, slots: map<Slot, Ref>) {
    && 0 !in pix
    && (forall p | p in pix :: pix[p].reffs == References(pool, slots, p, pix[p].id) && pix[p].reffs > 0)
    && (forall p | p in pix :: p in orphans <==> !InPool(pool, p, pix[p].id))
    && (forall p <- orphans :: p in pix)
    && (forall id | id in pool :: pool[id] in pix && pix[pool[id]].id == id)
    && (forall s | s in slots :: slots[s] in pix)
  }

  /** A pixmap has an open handle exactly when its slot of the ring holds it. */
  ghost predicate Ringed(pix: map<Ref, Pix>, pool: map<nat, Ref>, ring: seq<Ref>) {
    && |ring| == 16
    && (forall p | p in pix && pix[p].vdi != 0 ::
          pix[p].vdi > 0 && pix[p].tabIdx < 16 && ring[pix[p].tabIdx] == p && InPool(pool, p, pix[p].id))
    && (forall k | 0 <= k < 16 && ring[k] != 0 :: ring[k] in pix && pix[ring[k]].vdi > 0 && pix[ring[k]].tabIdx == k)
  }

  ghost function Open(pix: map<Ref, Pix>): set<Ref> {
    set p | p in pix && pix[p].vdi > 0
  }

  ghost function Members(ring: seq<Ref>): set<Ref> {
    set p | p in ring
  }

  lemma {:induction false} SetOfSeq(ring: seq<Ref>)
    ensures |Members(ring)| <= |ring|
  {
    if |ring| == 0 {
      assert Members(ring) == {};
    } else {
      var rest := ring[1..];
      SetOfSeq(rest);
      assert ring == [ring[0]] + rest;
      assert Members(ring) == {ring[0]} + Members(rest);
    }
  }

  lemma Smaller(a: set<Ref>, b: set<Ref>)
    requires a <= b
    ensures |a| <= |b|
  {
    if a != {} {
      var x :| x in a;
      Smaller(a - {x}, b - {x});
    }
  }

  /** At most sixteen handles are open. */
  lemma FewOpen(pix: map<Ref, Pix>, pool: map<nat, Ref>, ring: seq<Ref>)
    requires Ringed(pix, pool, ring)
    ensures |Open(pix)| <= 16
  {
    var slots := Members(ring);
    SetOfSeq(ring);
    forall p | p in Open(pix) ensures p in slots {
      assert ring[pix[p].tabIdx] == p;
    }
    Smaller(Open(pix), slots);
  }

  /** What exists is exactly what has a name or a holder: nothing leaks and nothing dangles. */
  lemma LiveExactly(pix: map<Ref, Pix>, pool: map<nat, Ref>, orphans: set<Ref>, slots: map<Slot, Ref>)
    requires Counted(pix, pool, orphans, slots)
    ensures pix.Keys == pool.Values + slots.Values
    ensures orphans == slots.Values - pool.Values
  {
    forall p ensures p in pix <==> p in pool.Values + slots.Values {
      if p in pix && !InPool(pool, p, pix[p].id) {
        assert pix[p].reffs == References(pool, slots, p, pix[p].id);
        assert Holders(slots, p) != {};
        var s :| s in Holders(slots, p);
        assert slots[s] == p;
      }
    }
    forall p ensures p in orphans <==> p in slots.Values - pool.Values {
      if p in pix && p in pool.Values {
        var id :| id in pool && pool[id] == p;
      }
    }
  }

  lemma HoldersAdded(slots: map<Slot, Ref>, s: Slot, p: Ref)
    requires s !in slots
    ensures |Holders(slots[s := p], p)| == |Holders(slots, p)| + 1
    ensures forall q | q != p :: Holders(slots[s := p], q) == Holders(slots, q)
  {
    assert Holders(slots[s := p], p) == Holders(slots, p) + {s};
  }

  lemma HoldersDropped(slots: map<Slot, Ref>, s: Slot)
    requires s in slots
    ensures |Holders(slots - {s}, slots[s])| == |Holders(slots, slots[s])| - 1
    ensures forall q | q != slots[s] :: Holders(slots - {s}, q) == Holders(slots, q)
  {
    assert Holders(slots - {s}, slots[s]) == Holders(slots, slots[s]) - {s};
  }

  lemma ShareCounts(pix: map<Ref, Pix>, pool: map<nat, Ref>, orphans: set<Ref>, slots: map<Slot, Ref>, s: Slot, p: Ref)
    requires Counted(pix, pool, orphans, slots) && s !in slots && p in pix
    ensures Counted(pix[p := pix[p].(reffs := pix[p].reffs + 1)], pool, orphans, slots[s := p])
  {
    HoldersAdded(slots, s, p);
  }

  lemma LastHolder(pool: map<nat, Ref>, slots: map<Slot, Ref>, s: Slot, id: nat)
    requires s in slots && References(pool, slots, slots[s], id) == 1
    ensures !InPool(pool, slots[s], id)
    ensures forall t | t in slots && t != s :: slots[t] != slots[s]
  {
    var p := slots[s];
    HoldersDropped(slots, s);
    assert s in Holders(slots, p);
    assert Holders(slots - {s}, p) == {};
    assert forall t | t in slots - {s} && slots[t] == p :: t in Holders(slots - {s}, p);
  }

  /** The pixmap without one of its references; without the last it is freed. */
  function Dropped(pix: map<Ref, Pix>, p: Ref): map<Ref, Pix>
    requires p in pix && pix[p].reffs > 0
  {
    if pix[p].reffs == 1 then pix - {p} else pix[p := pix[p].(reffs := pix[p].reffs - 1)]
  }

  lemma DropLast(pix: map<Ref, Pix>, pool: map<nat, Ref>, orphans: set<Ref>, slots: map<Slot, Ref>, s: Slot)
    requires Counted(pix, pool, orphans, slots) && s in slots && pix[slots[s]].reffs == 1
    ensures slots[s] in orphans && Counted(pix - {slots[s]}, pool, orphans - {slots[s]}, slots - {s})
  {
    HoldersDropped(slots, s);
    LastHolder(pool, slots, s, pix[slots[s]].id);
  }

  lemma DropOne(pix: map<Ref, Pix>, pool: map<nat, Ref>, orphans: set<Ref>, slots: map<Slot, Ref>, s: Slot)
    requires Counted(pix, pool, orphans, slots) && s in slots && pix[slots[s]].reffs > 1
    ensures Counted(Dropped(pix, slots[s]), pool, orphans, slots - {s})
  {
    HoldersDropped(slots, s);
  }

  lemma OnlyName(slots: map<Slot, Ref>, p: Ref)
    ensures Holders(slots, p) == {} <==> p !in slots.Values
  {
    if p in slots.Values {
      var s :| s in slots && slots[s] == p;
      assert s in Holders(slots, p);
    }
    if Holders(slots, p) != {} {
      var s :| s in Holders(slots, p);
      assert slots[s] in slots.Values;
    }
  }

  lemma UnnameCounts(pix: map<Ref, Pix>, pool: map<nat, Ref>, orphans: set<Ref>, slots: map<Slot, Ref>, id: nat)
    requires Counted(pix, pool, orphans, slots) && id in pool
    ensures pool[id] in pix && pix[pool[id]].reffs > 0
    ensures Counted(Dropped(pix, pool[id]), pool - {id},
                    if pix[pool[id]].reffs == 1 then orphans else orphans + {pool[id]}, slots)
    ensures pix[pool[id]].reffs == 1 <==> pool[id] !in slots.Values
  {
    var p := pool[id];
    assert InPool(pool, p, pix[p].id);
    OnlyName(slots, p);
    forall q | q in pix && q != p ensures InPool(pool - {id}, q, pix[q].id) <==> InPool(pool, q, pix[q].id) {
    }
    if pix[p].reffs == 1 {
      UnnameLast(pix, pool, orphans, slots, id);
    } else {
      UnnameOne(pix, pool, orphans, slots, id);
    }
  }

  lemma UnnameLast(pix: map<Ref, Pix>, pool: map<nat, Ref>, orphans: set<Ref>, slots: map<Slot, Ref>, id: nat)
    requires Counted(pix, pool, orphans, slots) && id in pool && pix[pool[id]].reffs == 1
    ensures Counted(pix - {pool[id]}, pool - {id}, orphans, slots)
  {
    OnlyName(slots, pool[id]);
    assert InPool(pool, pool[id], id);
  }

  lemma UnnameOne(pix: map<Ref, Pix>, pool: map<nat, Ref>, orphans: set<Ref>, slots: map<Slot, Ref>, id: nat)
    requires Counted(pix, pool, orphans, slots) && id in pool && pix[pool[id]].reffs > 1
    ensures Counted(Dropped(pix, pool[id]), pool - {id}, orphans + {pool[id]}, slots)
  {
  }

  /** Closing the handle of p, _Pmap_VdiCls. */
  lemma CloseRing(pix: map<Ref, Pix>, pool: map<nat, Ref>, ring: seq<Ref>, p: Ref)
    requires Ringed(pix, pool, ring) && p in pix && pix[p].vdi > 0
    ensures Ringed(pix[p := pix[p].(vdi := 0)], pool, ring[pix[p].tabIdx := 0])
  {
  }

  /** Opening one in a slot that is free. */
  lemma OpenRing(pix: map<Ref, Pix>, pool: map<nat, Ref>, ring: seq<Ref>, p: Ref, k: nat, handle: int)
    requires Ringed(pix, pool, ring) && p in pix && pix[p].vdi == 0 && InPool(pool, p, pix[p].id)
    requires k < 16 && ring[k] == 0 && handle > 0 && 0 !in pix
    ensures Ringed(pix[p := pix[p].(vdi := handle, tabIdx := k)], pool, ring[k := p])
  {
  }

  /** Counts, names and freed structs do not matter to the ring while no handle is involved. */
  lemma RingStays(pix: map<Ref, Pix>, pix': map<Ref, Pix>, pool: map<nat, Ref>, pool': map<nat, Ref>, ring: seq<Ref>, p: Ref)
    requires Ringed(pix, pool, ring) && p in pix && pix[p].vdi == 0
    requires forall q | q != p :: (q in pix' <==> q in pix) && (q in pix ==> pix'[q] == pix[q])
    requires p in pix' ==> pix'[p].vdi == 0
    requires forall q | q in pix && q != p :: InPool(pool, q, pix[q].id) ==> InPool(pool', q, pix[q].id)
    ensures Ringed(pix', pool', ring)
  {
  }

  lemma CountsIgnoreHandles(pix: map<Ref, Pix>, pool: map<nat, Ref>, orphans: set<Ref>, slots: map<Slot, Ref>, p: Ref, handle: int, k: nat)
    requires Counted(pix, pool, orphans, slots) && p in pix
    ensures Counted(pix[p := pix[p].(vdi := handle, tabIdx := k)], pool, orphans, slots)
  {
  }

  lemma RingIgnoresCounts(pix: map<Ref, Pix>, pool: map<nat, Ref>, ring: seq<Ref>, p: Ref, n: nat)
    requires Ringed(pix, pool, ring) && p in pix
    ensures Ringed(pix[p := pix[p].(reffs := n)], pool, ring)
  {
  }

  datatype Status = Success | BadPixmap | BadMatch | BadValue | BadGC | BadIDChoice | BadDrawable | BadAlloc

  /** The parts of a CreateGC or ChangeGC request that matter here, in the order they are read. */
  datatype Values = Values(
    badBefore: bool,            // a component before the tile has an invalid value
    tile: Option,
    stipple: Option,
    badBetween: bool,           // one between stipple and clip-mask has
    clipMask: Option)

  datatype Option = None | Some(id: nat)

  /** Everything after the owner gave up the name id of a pixmap without open handle. */
  lemma NameGone(pix: map<Ref, Pix>, pool: map<nat, Ref>, orphans: set<Ref>, slots: map<Slot, Ref>, ring: seq<Ref>, id: nat)
    requires Counted(pix, pool, orphans, slots) && Ringed(pix, pool, ring)
    requires id in pool && pool[id] in pix && pix[pool[id]].vdi == 0
    ensures pix[pool[id]].reffs > 0
    ensures var p := pool[id];
            && Counted(Dropped(pix, p), pool - {id}, if pix[p].reffs == 1 then orphans else orphans + {p}, slots)
            && Ringed(Dropped(pix, p), pool - {id}, ring)
            && Dropped(pix, p).Keys == (if p in slots.Values then pix.Keys else pix.Keys - {p})
  {
    UnnameCounts(pix, pool, orphans, slots, id);
    RingStays(pix, Dropped(pix, pool[id]), pool, pool - {id}, ring, pool[id]);
  }

  lemma SlotShared(pix: map<Ref, Pix>, pool: map<nat, Ref>, orphans: set<Ref>, slots: map<Slot, Ref>,
                   ring: seq<Ref>, s: Slot, p: Ref)
    requires Counted(pix, pool, orphans, slots - {s}) && Ringed(pix, pool, ring) && p in pix
    ensures var pix' := pix[p := pix[p].(reffs := pix[p].reffs + 1)];
            Counted(pix', pool, orphans, slots[s := p]) && Ringed(pix', pool, ring)
  {
    assert (slots - {s})[s := p] == slots[s := p];
    ShareCounts(pix, pool, orphans, slots - {s}, s, p);
    RingIgnoresCounts(pix, pool, ring, p, pix[p].reffs + 1);
  }

  /** A pixmap that has a name and a holder survives losing that holder. */
  lemma NamedAndHeld(pix: map<Ref, Pix>, pool: map<nat, Ref>, orphans: set<Ref>, slots: map<Slot, Ref>, id: nat, s: Slot)
    requires Counted(pix, pool, orphans, slots) && id in pool && s in slots && slots[s] == pool[id]
    ensures pix[pool[id]].reffs > 1
  {
    assert s in Holders(slots, pool[id]);
    assert InPool(pool, pool[id], id);
  }

  /** So does one with two holders. */
  lemma HeldTwice(pix: map<Ref, Pix>, pool: map<nat, Ref>, orphans: set<Ref>, slots: map<Slot, Ref>, s: Slot, t: Slot)
    requires Counted(pix, pool, orphans, slots) && s in slots && t in slots && s != t && slots[s] == slots[t]
    ensures pix[slots[s]].reffs > 1
  {
    var p := slots[s];
    assert {s, t} <= Holders(slots, p);
    HoldersDropped(slots, s);
    assert t in Holders(slots - {s}, p);
  }

  /** What looking up a pixmap for a component of a graphics context says. */
  function Lookup(pix: map<Ref, Pix>, pool: map<nat, Ref>, id: nat, depth: nat): Status {
    if id !in pool || pool[id] !in pix then BadPixmap
    else if pix[pool[id]].depth != depth then BadMatch
    else Success
  }

  /** One component after another: the first that fails ends the request, the earlier ones stay. */
  function Placed(pix: map<Ref, Pix>, pool: map<nat, Ref>, slots: map<Slot, Ref>, s: Slot, v: Option, depth: nat): (r: (Status, map<Slot, Ref>))
    ensures r.0 != Success ==> r.1 == slots
    ensures r.0 == Success && v.Some? ==> v.id in pool && r.1 == slots[s := pool[v.id]]
  {
    if v.None? then (Success, slots)
    else
      var e := Lookup(pix, pool, v.id, depth);
      if e != Success then (e, slots) else (Success, slots[s := pool[v.id]])
  }

  function ClipOption(v: Option): Option {
    if v == Some(0) then None else v
  }

  function SetUp(pix: map<Ref, Pix>, pool: map<nat, Ref>, slots: map<Slot, Ref>, gc: nat, depth: nat, v: Values): (Status, map<Slot, Ref>) {
    if v.badBefore then (BadValue, slots) else
      var (e1, s1) := Placed(pix, pool, slots, Tile(gc), v.tile, depth);
      if e1 != Success then (e1, s1) else
        var (e2, s2) := Placed(pix, pool, s1, Stipple(gc), v.stipple, 1);
        if e2 != Success then (e2, s2)
        else if v.badBetween then (BadValue, s2)
        else Placed(pix, pool, s2, ClipMask(gc), ClipOption(v.clipMask), 1)
  }

  /** The field t holds after a request what s held before it, or nothing if that was so. */
  ghost predicate Holds(before: map<Slot, Ref>, s: Slot, after: map<Slot, Ref>, t: Slot) {
    (t in after <==> s in before) && (s in before ==> after[t] == before[s])
  }

  /** A component that names no pixmap, or one of that depth. */
  ghost predicate Suits(pix: map<Ref, Pix>, pool: map<nat, Ref>, v: Option, depth: nat) {
    v.Some? ==> v.id in pool && pool[v.id] in pix && pix[pool[v.id]].depth == depth
  }

  /** The field s holds what the component names, or what it held if that names nothing. */
  ghost predicate Taken(pool: map<nat, Ref>, before: map<Slot, Ref>, after: map<Slot, Ref>, s: Slot, v: Option) {
    if v.Some? then v.id in pool && s in after && after[s] == pool[v.id] else Holds(before, s, after, s)
  }

  /**
   What a request leaves in every field: those before the first component that is wrong hold what
   they name, the others are as they were, and so is every field of another graphics context.
   */
  lemma SetUpIs(pix: map<Ref, Pix>, pool: map<nat, Ref>, slots: map<Slot, Ref>, gc: nat, depth: nat, v: Values)
    ensures var (status, after) := SetUp(pix, pool, slots, gc, depth, v);
            var none := Option.None;
            var clip := if v.clipMask == Some(0) then none else v.clipMask;
            var tile, stipple := Suits(pix, pool, v.tile, depth), Suits(pix, pool, v.stipple, 1);
            && (forall s | s != Tile(gc) && s != Stipple(gc) && s != ClipMask(gc) :: Holds(slots, s, after, s))
            && (status == Success <==> !v.badBefore && tile && stipple && !v.badBetween && Suits(pix, pool, clip, 1))
            && Taken(pool, slots, after, Tile(gc), if !v.badBefore && tile then v.tile else none)
            && Taken(pool, slots, after, Stipple(gc), if !v.badBefore && tile && stipple then v.stipple else none)
            && Taken(pool, slots, after, ClipMask(gc), if status == Success then clip else none)
  {
  }

  /** Which error it is: a name that is unknown, a depth that differs, or a value that is wrong. */
  lemma SetUpError(pix: map<Ref, Pix>, pool: map<nat, Ref>, slots: map<Slot, Ref>, gc: nat, depth: nat, v: Values)
    requires forall id | id in pool :: pool[id] in pix
    ensures var status := SetUp(pix, pool, slots, gc, depth, v).0;
            var clip := if v.clipMask == Some(0) then None else v.clipMask;
            if v.badBefore then status == BadValue
            else if v.tile.Some? && v.tile.id !in pool then status == BadPixmap
            else if v.tile.Some? && pix[pool[v.tile.id]].depth != depth then status == BadMatch
            else if v.stipple.Some? && v.stipple.id !in pool then status == BadPixmap
            else if v.stipple.Some? && pix[pool[v.stipple.id]].depth != 1 then status == BadMatch
            else if v.badBetween then status == BadValue
            else if clip.Some? && clip.id !in pool then status == BadPixmap
            else if clip.Some? && pix[pool[clip.id]].depth != 1 then status == BadMatch
            else status == Success
  {
  }

  /** Depths never change. */
  ghost predicate SameDepths(pix: map<Ref, Pix>, pix': map<Ref, Pix>, pool: map<nat, Ref>) {
    forall id | id in pool :: pool[id] in pix && pool[id] in pix' && pix'[pool[id]].depth == pix[pool[id]].depth
  }

  lemma Overwritten(slots: map<Slot, Ref>, s: Slot, p: Ref)
    ensures (slots - {s})[s := p] == slots[s := p] && slots - {s} - {s} == slots - {s}
  {
  }

  lemma SameDepthsTrans(a: map<Ref, Pix>, b: map<Ref, Pix>, c: map<Ref, Pix>, pool: map<nat, Ref>)
    requires SameDepths(a, b, pool) && SameDepths(b, c, pool)
    ensures SameDepths(a, c, pool)
  {
  }

  /** Losing one holder never takes a pixmap that has a name. */
  lemma DropDepths(pix: map<Ref, Pix>, pool: map<nat, Ref>, orphans: set<Ref>, slots: map<Slot, Ref>, s: Slot)
    requires Counted(pix, pool, orphans, slots) && s in slots
    ensures SameDepths(pix, Dropped(pix, slots[s]), pool)
  {
    forall id | id in pool && pool[id] == slots[s] ensures pix[pool[id]].reffs > 1 {
      NamedAndHeld(pix, pool, orphans, slots, id, s);
    }
  }

  lemma PlacedSame(pix: map<Ref, Pix>, pix': map<Ref, Pix>, pool: map<nat, Ref>, slots: map<Slot, Ref>, s: Slot, v: Option, depth: nat)
    requires SameDepths(pix, pix', pool)
    ensures Placed(pix', pool, slots, s, v, depth) == Placed(pix, pool, slots, s, v, depth)
  {
  }

  /**
   Copying the field src to the field dst frees what dst held before it shares what src holds.
   The latter survives the first step unless both are one field that has the last reference.
   */
  lemma CopyExact(pix: map<Ref, Pix>, pool: map<nat, Ref>, orphans: set<Ref>, slots: map<Slot, Ref>, dst: Slot, src: Slot)
    requires Counted(pix, pool, orphans, slots) && dst in slots && src in slots
    ensures slots[src] in Dropped(pix, slots[dst]) <==> (src != dst || pix[slots[src]].reffs > 1)
  {
    if src != dst && slots[src] == slots[dst] {
      HeldTwice(pix, pool, orphans, slots, src, dst);
    }
  }

  /** The pixmap with one more reference. */
  function Shared(pix: map<Ref, Pix>, p: Ref): map<Ref, Pix> {
    if p in pix then pix[p := pix[p].(reffs := pix[p].reffs + 1)] else pix
  }

  /** One reference less and one more. */
  lemma DropShare(pix: map<Ref, Pix>, p: Ref)
    requires p in pix && pix[p].reffs > 1
    ensures p in Dropped(pix, p)
    ensures Shared(Dropped(pix, p), p) == pix
  {
  }

  /** The holders after the field src was copied to dst. */
  function Copied(slots: map<Slot, Ref>, dst: Slot, src: Slot): map<Slot, Ref> {
    if src in slots then slots[dst := slots[src]] else slots - {dst}
  }

  /** A clip list: x, y, width and height of every rectangle. */
  type Rectangles = seq<(int, int, int, int)>

  /** Fields and clip lists of graphics contexts exist as long as these, and none has both a clip-mask and a list. */
  ghost predicate Owned(slots: map<Slot, Ref>, gcs: map<nat, nat>, clip: map<nat, Rectangles>) {
    && (forall s | s in slots && (s.Tile? || s.Stipple? || s.ClipMask?) :: s.gc in gcs)
    && (forall gc | gc in clip :: gc in gcs && ClipMask(gc) !in slots)
  }

  lemma SetUpSame(pix: map<Ref, Pix>, pix': map<Ref, Pix>, pool: map<nat, Ref>, slots: map<Slot, Ref>, gc: nat, depth: nat, v: Values)
    requires SameDepths(pix, pix', pool)
    ensures SetUp(pix', pool, slots, gc, depth, v) == SetUp(pix, pool, slots, gc, depth, v)
  {
    var (e1, s1) := Placed(pix, pool, slots, Tile(gc), v.tile, depth);
    PlacedSame(pix, pix', pool, slots, Tile(gc), v.tile, depth);
    PlacedSame(pix, pix', pool, s1, Stipple(gc), v.stipple, 1);
    var (e2, s2) := Placed(pix, pool, s1, Stipple(gc), v.stipple, 1);
    PlacedSame(pix, pix', pool, s2, ClipMask(gc), ClipOption(v.clipMask), 1);
  }

  lemma SetUpOwned(pix: map<Ref, Pix>, pool: map<nat, Ref>, slots: map<Slot, Ref>, gcs: map<nat, nat>, clip: map<nat, Rectangles>,
                   gc: nat, depth: nat, v: Values)
    requires Owned(slots, gcs, clip) && gc in gcs && (v.clipMask.Some? ==> gc !in clip)
    ensures Owned(SetUp(pix, pool, slots, gc, depth, v).1, gcs, clip)
  {
  }

  /** The holders without those of one graphics context. */
  function Stripped(slots: map<Slot, Ref>, gc: nat): map<Slot, Ref> {
    slots - {Tile(gc)} - {Stipple(gc)} - {ClipMask(gc)}
  }

  lemma StrippedIs(slots: map<Slot, Ref>, gc: nat)
    ensures Stripped(slots, gc) == slots - {Tile(gc), Stipple(gc), ClipMask(gc)}
  {
  }

  lemma StrippedOwned(slots: map<Slot, Ref>, gcs: map<nat, nat>, clip: map<nat, Rectangles>, gc: nat)
    requires Owned(slots, gcs, clip)
    ensures Owned(Stripped(slots, gc), gcs - {gc}, clip - {gc})
    ensures gc !in gcs ==> Stripped(slots, gc) == slots && gcs - {gc} == gcs && clip - {gc} == clip
  {
  }

  datatype CopyMask = CopyMask(tile: bool, stipple: bool, clipMask: bool)

  function CopiedAll(slots: map<Slot, Ref>, dst: nat, src: nat, mask: CopyMask): map<Slot, Ref> {
    var s1 := if mask.tile then Copied(slots, Tile(dst), Tile(src)) else slots;
    var s2 := if mask.stipple then Copied(s1, Stipple(dst), Stipple(src)) else s1;
    if mask.clipMask then Copied(s2, ClipMask(dst), ClipMask(src)) else s2
  }

  /** Every field of the destination that is copied holds what the source's did, and every other field what it held. */
  lemma CopiedAllIs(slots: map<Slot, Ref>, dst: nat, src: nat, mask: CopyMask)
    ensures var after := CopiedAll(slots, dst, src, mask);
            && Holds(slots, Tile(if mask.tile then src else dst), after, Tile(dst))
            && Holds(slots, Stipple(if mask.stipple then src else dst), after, Stipple(dst))
            && Holds(slots, ClipMask(if mask.clipMask then src else dst), after, ClipMask(dst))
            && (forall s | s != Tile(dst) && s != Stipple(dst) && s != ClipMask(dst) :: Holds(slots, s, after, s))
  {
  }

  /** Something else refers to the pixmap that the field holds. */
  ghost predicate Spare(pix: map<Ref, Pix>, slots: map<Slot, Ref>, s: Slot) {
    s in slots && slots[s] in pix ==> pix[slots[s]].reffs > 1
  }

  /** For every field that is copied, source and destination differ or something else refers to the pixmap. */
  ghost predicate CopySafe(pix: map<Ref, Pix>, slots: map<Slot, Ref>, dst: nat, src: nat, mask: CopyMask) {
    src == dst ==>
      && (mask.tile ==> Spare(pix, slots, Tile(src)))
      && (mask.stipple ==> Spare(pix, slots, Stipple(src)))
      && (mask.clipMask ==> Spare(pix, slots, ClipMask(src)))
  }

  lemma CopiedSame(slots: map<Slot, Ref>, s: Slot)
    ensures Copied(slots, s, s) == slots
  {
  }

  lemma CopiedOwned(slots: map<Slot, Ref>, gcs: map<nat, nat>, clip: map<nat, Rectangles>, dst: nat, src: nat, mask: CopyMask)
    requires Owned(slots, gcs, clip) && dst in gcs
    ensures Owned(CopiedAll(slots, dst, src, mask), gcs, if mask.clipMask then clip - {dst} else clip)
  {
  }

  /** The structs once r, if there is one, has closed its handle. */
  function Closed(pix: map<Ref, Pix>, r: Ref): map<Ref, Pix> {
    if r in pix then pix[r := pix[r].(vdi := 0)] else pix
  }

  lemma OneMoreOpen(pix: map<Ref, Pix>, pool: map<nat, Ref>, ring: seq<Ref>, p: Ref, handle: int)
    requires Ringed(pix, pool, ring) && p in pix && pix[p].vdi == 0 && handle > 0
    ensures |Open(pix[p := pix[p].(vdi := handle)])| == |Open(pix)| + 1 <= 17
  {
    FewOpen(pix, pool, ring);
    assert Open(pix[p := pix[p].(vdi := handle)]) == Open(pix) + {p};
  }

  /** The ring and the structs once the slot k is free. */
  lemma FreeSlot(pix: map<Ref, Pix>, pool: map<nat, Ref>, orphans: set<Ref>, slots: map<Slot, Ref>, ring: seq<Ref>, k: nat)
    requires Counted(pix, pool, orphans, slots) && Ringed(pix, pool, ring) && k < 16
    ensures Counted(Closed(pix, ring[k]), pool, orphans, slots) && Ringed(Closed(pix, ring[k]), pool, ring[k := 0])
  {
    var q := ring[k];
    if q != 0 {
      CloseRing(pix, pool, ring, q);
      CountsIgnoreHandles(pix, pool, orphans, slots, q, 0, pix[q].tabIdx);
    } else {
      assert ring[k := 0] == ring;
    }
  }

  /** Opening a handle before the oldest is closed ends as the other order would. */
  lemma OpenFirst(pix: map<Ref, Pix>, pool: map<nat, Ref>, orphans: set<Ref>, slots: map<Slot, Ref>, ring: seq<Ref>,
                  p: Ref, k: nat, handle: int)
    requires Counted(pix, pool, orphans, slots) && Ringed(pix, pool, ring) && k < 16
    requires p in pix && pix[p].vdi == 0 && InPool(pool, p, pix[p].id) && handle > 0
    ensures ring[k] != p && (if ring[k] == 0 then 0 !in pix else ring[k] in pix && pix[ring[k]].tabIdx == k)
    ensures var new' := Closed(pix, ring[k])[p := pix[p].(vdi := handle, tabIdx := k)];
            Counted(new', pool, orphans, slots) && Ringed(new', pool, ring[k := p])
  {
    FreeSlot(pix, pool, orphans, slots, ring, k);
    var pix1, ring1 := Closed(pix, ring[k]), ring[k := 0];
    OpenRing(pix1, pool, ring1, p, k, handle);
    CountsIgnoreHandles(pix1, pool, orphans, slots, p, handle, k);
    assert ring1[k := p] == ring[k := p];
  }

  lemma CreateCounts(pix: map<Ref, Pix>, pool: map<nat, Ref>, orphans: set<Ref>, slots: map<Slot, Ref>,
                     ring: seq<Ref>, r: Ref, id: nat, depth: nat)
    requires Counted(pix, pool, orphans, slots) && Ringed(pix, pool, ring)
    requires r != 0 && r !in pix && id !in pool
    ensures Counted(pix[r := Pix(id, depth, 1, 0, 0)], pool[id := r], orphans, slots)
    ensures Ringed(pix[r := Pix(id, depth, 1, 0, 0)], pool[id := r], ring)
  {
    assert Holders(slots, r) == {};
  }

  class Pixmaps {
    var pix: map<Ref, Pix>
    var pool: map<nat, Ref>       // the drawables of all clients; their id ranges are disjoint
    var orphans: set<Ref>
    var ring: seq<Ref>
    var count: nat
    var slots: map<Slot, Ref>
    var gcs: map<nat, nat>        // the depth of every graphics context
    var clip: map<nat, Rectangles>   // the clip lists there are; an empty one disables output

    ghost predicate Valid()
      reads this
    {
      Consistent(slots)
    }

    /** The state is consistent for these holders. */
    ghost predicate Consistent(held: map<Slot, Ref>)
      reads this
    {
      && Counted(pix, pool, orphans, held) && Ringed(pix, pool, ring) && count < 16
    }

    /** PmapInit(True) */
    constructor ()
      ensures Valid() && pix == map[] && pool == map[] && slots == map[] && gcs == map[] && clip == map[]
    {
      pix, pool, orphans, slots, gcs, clip := map[], map[], {}, map[], map[], map[];
      ring, count := seq(16, _ => 0), 0;
    }

    /** _Pmap_VdiCls */
    method VdiCls(p: Ref)
      requires Valid() && p in pix && pix[p].vdi > 0
      modifies this`pix, this`ring
      ensures Valid() && pix == old(pix)[p := old(pix)[p].(vdi := 0)]
      ensures ring == old(ring)[old(pix)[p].tabIdx := 0]
    {
      CloseRing(pix, pool, ring, p);
      CountsIgnoreHandles(pix, pool, orphans, slots, p, 0, pix[p].tabIdx);
      ring := ring[pix[p].tabIdx := 0];
      pix := pix[p := pix[p].(vdi := 0)];
    }

    /**
     PmapVdi; `handle` is what opening a bitmap yields, and without a positive one the client is
     aborted, which h == 0 stands for. The new handle is opened before the oldest entry of the
     ring gives up its own, so for a moment there may be seventeen.
     */
    method Vdi(p: Ref, handle: int) returns (h: int, ghost most: nat)
      requires Valid() && p in pix && InPool(pool, p, pix[p].id)
      modifies this`pix, this`ring, this`count
      ensures Valid() && |Open(pix)| <= 16 && most <= 17
      ensures h == 0 <==> old(pix)[p].vdi == 0 && handle <= 0
      ensures h != 0 ==> p in pix && h == pix[p].vdi && h > 0
      ensures h == 0 || old(pix)[p].vdi != 0 ==> pix == old(pix) && ring == old(ring) && count == old(count)
      ensures h != 0 && old(pix)[p].vdi == 0 ==>
                && h == handle && ring == old(ring)[old(count) := p] && most == |Open(old(pix))| + 1
                && pix == Closed(old(pix), old(ring)[old(count)])[p := old(pix)[p].(vdi := handle, tabIdx := old(count))]
    {
      most := 0;
      FewOpen(pix, pool, ring);
      if pix[p].vdi == 0 {
        if handle <= 0 {
          return 0, most;
        }
        OpenFirst(pix, pool, orphans, slots, ring, p, count, handle);
        OneMoreOpen(pix, pool, ring, p, handle);
        most := TakeSlot(p, handle);
        FewOpen(pix, pool, ring);
      }
      h := pix[p].vdi;
    }

    /** Opens the handle, closes the one in the next slot of the ring and takes that slot. */
    method TakeSlot(p: Ref, handle: int) returns (ghost most: nat)
      requires p in pix && |ring| == 16 && count < 16 && ring[count] != p
      requires if ring[count] == 0 then 0 !in pix else ring[count] in pix && pix[ring[count]].tabIdx == count
      modifies this`pix, this`ring, this`count
      ensures count < 16 && most == |Open(old(pix)[p := old(pix)[p].(vdi := handle)])|
      ensures ring == old(ring)[old(count) := p]
      ensures pix == Closed(old(pix), old(ring)[old(count)])[p := old(pix)[p].(vdi := handle, tabIdx := old(count))]
    {
      pix := pix[p := pix[p].(vdi := handle)];
      most := |Open(pix)|;
      var oldest := ring[count];
      if oldest != 0 {
        ring := ring[pix[oldest].tabIdx := 0];
        pix := pix[oldest := pix[oldest].(vdi := 0)];
      }
      ring := ring[count := p];
      pix := pix[p := pix[p].(tabIdx := count)];
      count := (count + 1) % 16;
    }

    /**
     RQ_CreatePixmap; r is the address malloc returns, or 0, and `isWindow` tells that the id
     names a window. Only success changes anything.
     */
    method Create(id: nat, isWindow: bool, width: int, height: int, depth: nat, r: Ref) returns (status: Status)
      requires Valid() && r !in pix
      modifies this`pix, this`pool
      ensures Valid()
      ensures status == (if isWindow || id in old(pool) then BadIDChoice
                         else if width <= 0 || height <= 0 || depth == 0 then BadValue
                         else if r == 0 then BadAlloc else Success)
      ensures status != Success ==> pix == old(pix) && pool == old(pool)
      ensures status == Success ==> pool == old(pool)[id := r] && pix == old(pix)[r := Pix(id, depth, 1, 0, 0)]
    {
      if isWindow || id in pool {
        return BadIDChoice;
      }
      if width <= 0 || height <= 0 || depth == 0 {
        return BadValue;
      }
      if r == 0 {
        return BadAlloc;
      }
      CreateCounts(pix, pool, orphans, slots, ring, r, id, depth);
      pix := pix[r := Pix(id, depth, 1, 0, 0)];
      pool := pool[id := r];
      return Success;
    }

    /** PmapFree for the client that owns the id. */
    method FreeNamed(id: nat)
      requires Valid() && id in pool
      modifies this`pix, this`pool, this`orphans, this`ring
      ensures Valid() && pool == old(pool) - {id}
      ensures pix.Keys == if old(pool)[id] in slots.Values then old(pix).Keys else old(pix).Keys - {old(pool)[id]}
    {
      var p := pool[id];
      if pix[p].vdi > 0 {
        VdiCls(p);
      }
      DropName(id);
    }

    /** The part of PmapFree after the handle is closed. */
    method DropName(id: nat)
      requires Valid() && id in pool && pix[pool[id]].vdi == 0
      modifies this`pix, this`pool, this`orphans
      ensures Valid() && pool == old(pool) - {id}
      ensures pix.Keys == if old(pool)[id] in slots.Values then old(pix).Keys else old(pix).Keys - {old(pool)[id]}
    {
      ghost var pix0, pool0, orphans0 := pix, pool, orphans;
      Unname(id);
      NameGone(pix0, pool0, orphans0, slots, ring, id);
    }

    /** The pixmap leaves the client's pool, for the orphans or for good. */
    method Unname(id: nat)
      requires id in pool && pool[id] in pix && pix[pool[id]].reffs > 0
      modifies this`pix, this`pool, this`orphans
      ensures pix == Dropped(old(pix), old(pool)[id]) && pool == old(pool) - {id}
      ensures orphans == if old(pix)[old(pool)[id]].reffs == 1 then old(orphans) else old(orphans) + {old(pool)[id]}
    {
      var p := pool[id];
      if pix[p].reffs > 1 {
        pix := pix[p := pix[p].(reffs := pix[p].reffs - 1)];
        pool := pool - {id};
        orphans := orphans + {p};
      } else {
        pool := pool - {id};
        pix := pix - {p};
      }
    }

    /** RQ_FreePixmap */
    method FreePixmap(id: nat) returns (status: Status)
      requires Valid()
      modifies this`pix, this`pool, this`orphans, this`ring
      ensures Valid() && (status == Success <==> id in old(pool)) && (status == Success || status == BadPixmap)
      ensures pool == old(pool) - {id}
      ensures status != Success ==> pix == old(pix)
    {
      if id !in pool {
        return BadPixmap;
      }
      FreeNamed(id);
      return Success;
    }

    /**
     PmapFree without a client: the holder s gives up its pixmap. It is freed with the last
     reference, and is then never missing from the orphans.
     */
    method FreeHeld(s: Slot) returns (stale: bool)
      requires Valid() && s in slots
      modifies this`pix, this`orphans
      ensures Consistent(slots - {s}) && !stale
      ensures pix == Dropped(old(pix), slots[s])
    {
      var p := slots[s];
      stale := false;
      if pix[p].reffs == 1 {
        DropLast(pix, pool, orphans, slots, s);
        RingStays(pix, pix - {p}, pool, pool, ring, p);
        stale := p !in orphans;
        orphans := orphans - {p};
        pix := pix - {p};
      } else {
        DropOne(pix, pool, orphans, slots, s);
        RingIgnoresCounts(pix, pool, ring, p, pix[p].reffs - 1);
        pix := pix[p := pix[p].(reffs := pix[p].reffs - 1)];
      }
    }

    /** PmapShare, and the result kept in s. */
    method Share(s: Slot, p: Ref)
      requires Consistent(slots - {s}) && p in pix
      modifies this`pix, this`slots
      ensures Valid() && slots == old(slots)[s := p]
      ensures pix == old(pix)[p := old(pix)[p].(reffs := old(pix)[p].reffs + 1)]
      ensures SameDepths(old(pix), pix, pool)
    {
      SlotShared(pix, pool, orphans, slots, ring, s, p);
      pix := pix[p := pix[p].(reffs := pix[p].reffs + 1)];
      slots := slots[s := p];
    }

    /** Frees what s holds, if anything. */
    method Release(s: Slot)
      requires Valid()
      modifies this`pix, this`orphans, this`slots
      ensures Valid() && slots == old(slots) - {s} && SameDepths(old(pix), pix, pool)
    {
      if s in slots {
        DropDepths(pix, pool, orphans, slots, s);
        var _ := FreeHeld(s);
        slots := slots - {s};
      }
    }

    /** The old pixmap of s is freed, the one named id shared. */
    method Replace(s: Slot, id: nat)
      requires Valid() && id in pool
      modifies this`pix, this`orphans, this`slots
      ensures Valid() && slots == old(slots)[s := pool[id]] && SameDepths(old(pix), pix, pool)
    {
      Overwritten(slots, s, pool[id]);
      Release(s);
      ghost var pix1 := pix;
      Share(s, pool[id]);
      SameDepthsTrans(old(pix), pix1, pix, pool);
    }

    /** A component that names a pixmap. */
    method Place(s: Slot, v: Option, depth: nat) returns (status: Status)
      requires Valid()
      modifies this`pix, this`orphans, this`slots
      ensures Valid() && SameDepths(old(pix), pix, pool)
      ensures (status, slots) == Placed(old(pix), pool, old(slots), s, v, depth)
    {
      if v.None? {
        return Success;
      }
      status := Lookup(pix, pool, v.id, depth);
      if status == Success {
        Replace(s, v.id);
      }
    }

    /** The clip-mask: whoever calls has freed the old one. */
    method Enable(s: Slot, v: Option) returns (status: Status)
      requires Valid() && (v.Some? ==> s !in slots)
      modifies this`pix, this`slots
      ensures Valid() && (status, slots) == Placed(old(pix), pool, old(slots), s, v, 1)
    {
      if v.None? {
        return Success;
      }
      status := Lookup(pix, pool, v.id, 1);
      if status == Success {
        assert slots - {s} == slots;
        Share(s, pool[v.id]);
      }
    }

    /** _Gcnt_setup */
    method Setup(gc: nat, depth: nat, v: Values) returns (status: Status)
      requires Valid() && (ClipOption(v.clipMask).Some? ==> ClipMask(gc) !in slots)
      modifies this`pix, this`orphans, this`slots
      ensures Valid() && (status, slots) == SetUp(old(pix), pool, old(slots), gc, depth, v)
    {
      if v.badBefore {
        return BadValue;
      }
      ghost var pix0 := pix;
      status := PlaceFrom(Tile(gc), v.tile, depth, pix0);
      if status != Success {
        return;
      }
      status := PlaceFrom(Stipple(gc), v.stipple, 1, pix0);
      if status != Success {
        return;
      }
      if v.badBetween {
        return BadValue;
      }
      status := EnableFrom(ClipMask(gc), ClipOption(v.clipMask), pix0);
    }

    /** The same two, said of the depths at the beginning of the request. */
    method PlaceFrom(s: Slot, v: Option, depth: nat, ghost pix0: map<Ref, Pix>) returns (status: Status)
      requires Valid() && SameDepths(pix0, pix, pool)
      modifies this`pix, this`orphans, this`slots
      ensures Valid() && SameDepths(pix0, pix, pool)
      ensures (status, slots) == Placed(pix0, pool, old(slots), s, v, depth)
    {
      ghost var pix1 := pix;
      PlacedSame(pix0, pix1, pool, slots, s, v, depth);
      status := Place(s, v, depth);
      SameDepthsTrans(pix0, pix1, pix, pool);
    }

    method EnableFrom(s: Slot, v: Option, ghost pix0: map<Ref, Pix>) returns (status: Status)
      requires Valid() && SameDepths(pix0, pix, pool) && (v.Some? ==> s !in slots)
      modifies this`pix, this`slots
      ensures Valid() && (status, slots) == Placed(pix0, pool, old(slots), s, v, 1)
    {
      PlacedSame(pix0, pix, pool, slots, s, v, 1);
      status := Enable(s, v);
    }

    /** Frees what the field holds; the field itself still names it. */
    method Vacate(s: Slot)
      requires Valid()
      modifies this`pix, this`orphans
      ensures Consistent(slots - {s})
      ensures pix == if s in slots then Dropped(old(pix), slots[s]) else old(pix)
    {
      if s in slots {
        var _ := FreeHeld(s);
      } else {
        assert slots - {s} == slots;
      }
    }

    /** One component of CopyGC. */
    method CopyField(dst: Slot, src: Slot)
      requires Valid() && (src == dst && src in slots ==> pix[slots[src]].reffs > 1)
      modifies this`pix, this`orphans, this`slots
      ensures Valid() && slots == Copied(old(slots), dst, src)
      ensures src == dst ==> pix == old(pix)
    {
      if dst in slots && src in slots {
        CopyExact(pix, pool, orphans, slots, dst, src);
        if src == dst { DropShare(pix, slots[src]); }
      }
      Vacate(dst);
      Refill(dst, src);
    }

    /** The field gets what src holds, NULL included. */
    method Refill(dst: Slot, src: Slot)
      requires Consistent(slots - {dst}) && (src in slots ==> slots[src] in pix)
      modifies this`pix, this`slots
      ensures Valid() && slots == Copied(old(slots), dst, src)
      ensures pix == if src in old(slots) then Shared(old(pix), old(slots)[src]) else old(pix)
    {
      if src in slots {
        Share(dst, slots[src]);
      } else {
        slots := slots - {dst};
      }
    }

    /** Copying to itself with the last reference shares a struct that is gone. */
    method CopyToItselfFrees(s: Slot)
      requires Valid() && s in slots && pix[slots[s]].reffs == 1
      modifies this`pix, this`orphans
      ensures slots[s] !in pix
    {
      var _ := FreeHeld(s);
    }

    /** RQ_CreateGC; `depth` is that of the drawable, if it exists. */
    method CreateGC(gc: nat, depth: Option, badMask: bool, memory: bool, v: Values) returns (status: Status)
      requires Valid() && Owned(slots, gcs, clip)
      modifies this`pix, this`orphans, this`slots, this`gcs
      ensures Valid() && Owned(slots, gcs, clip)
      ensures gc in old(gcs) || depth.None? || badMask || !memory ==> slots == old(slots) && gcs == old(gcs)
      ensures gc in old(gcs) ==> status == BadIDChoice
      ensures gc !in old(gcs) && depth.None? ==> status == BadDrawable
      ensures gc !in old(gcs) && depth.Some? && badMask ==> status == BadValue
      ensures gc !in old(gcs) && depth.Some? && !badMask && !memory ==> status == BadAlloc
      ensures gc !in old(gcs) && depth.Some? && !badMask && memory ==>
                && gcs == old(gcs)[gc := depth.id]
                && (status, slots) == SetUp(old(pix), pool, old(slots), gc, depth.id, v)
    {
      if gc in gcs {
        return BadIDChoice;
      }
      if depth.None? {
        return BadDrawable;
      }
      if badMask {
        return BadValue;
      }
      if !memory {
        return BadAlloc;
      }
      assert ClipMask(gc) !in slots;
      gcs := gcs[gc := depth.id];
      SetUpOwned(pix, pool, slots, gcs, clip, gc, depth.id, v);
      status := Setup(gc, depth.id, v);
    }

    /** Frees what clips, a mask or else a list. */
    method Unclip(gc: nat)
      requires Valid() && Owned(slots, gcs, clip)
      modifies this`pix, this`orphans, this`slots, this`clip
      ensures Valid() && Owned(slots, gcs, clip) && SameDepths(old(pix), pix, pool)
      ensures slots == old(slots) - {ClipMask(gc)} && clip == old(clip) - {gc}
    {
      if ClipMask(gc) in slots {
        assert clip - {gc} == clip;
        Release(ClipMask(gc));
      } else {
        assert slots - {ClipMask(gc)} == slots;
        if gc in clip {
          clip := clip - {gc};
        }
      }
    }

    /** RQ_ChangeGC: a new clip-mask, even none, replaces the old one before anything can fail. */
    method ChangeGC(gc: nat, badMask: bool, v: Values) returns (status: Status)
      requires Valid() && Owned(slots, gcs, clip)
      modifies this`pix, this`orphans, this`slots, this`clip
      ensures Valid() && Owned(slots, gcs, clip)
      ensures gc !in gcs ==> status == BadGC && slots == old(slots) && clip == old(clip)
      ensures gc in gcs && badMask ==> status == BadValue && slots == old(slots) && clip == old(clip)
      ensures gc in gcs && !badMask ==> clip == if v.clipMask.Some? then old(clip) - {gc} else old(clip)
      ensures gc in gcs && !badMask ==>
                var freed := if v.clipMask.Some? then old(slots) - {ClipMask(gc)} else old(slots);
                (status, slots) == SetUp(old(pix), pool, freed, gc, gcs[gc], v)
    {
      if gc !in gcs {
        return BadGC;
      }
      if badMask {
        return BadValue;
      }
      ghost var pix0 := pix;
      if v.clipMask.Some? {
        Unclip(gc);
      }
      SetUpSame(pix0, pix, pool, slots, gc, gcs[gc], v);
      SetUpOwned(pix, pool, slots, gcs, clip, gc, gcs[gc], v);
      status := Setup(gc, gcs[gc], v);
    }

    /** RQ_CopyGC */
    method CopyGC(src: nat, dst: nat, badMask: bool, mask: CopyMask) returns (status: Status)
      requires Valid() && Owned(slots, gcs, clip) && CopySafe(pix, slots, dst, src, mask)
      modifies this`pix, this`orphans, this`slots, this`clip
      ensures Valid() && Owned(slots, gcs, clip)
      ensures clip == if status == Success && mask.clipMask then old(clip) - {dst} else old(clip)
      ensures status == (if src !in gcs || dst !in gcs then BadGC
                         else if gcs[src] != gcs[dst] then BadMatch
                         else if badMask then BadValue else Success)
      ensures slots == if status == Success then CopiedAll(old(slots), dst, src, mask) else old(slots)
    {
      if src !in gcs || dst !in gcs {
        return BadGC;
      }
      if gcs[src] != gcs[dst] {
        return BadMatch;
      }
      if badMask {
        return BadValue;
      }
      CopiedOwned(slots, gcs, clip, dst, src, mask);
      CopyFields(src, dst, mask);
      if mask.clipMask {
        clip := clip - {dst};
      }
      return Success;
    }

    /** The components that hold pixmaps. */
    method CopyFields(src: nat, dst: nat, mask: CopyMask)
      requires Valid() && CopySafe(pix, slots, dst, src, mask)
      modifies this`pix, this`orphans, this`slots
      ensures Valid() && slots == CopiedAll(old(slots), dst, src, mask)
    {
      if mask.tile {
        CopiedSame(slots, Tile(src));
        CopyField(Tile(dst), Tile(src));
      }
      if mask.stipple {
        CopiedSame(slots, Stipple(src));
        CopyField(Stipple(dst), Stipple(src));
      }
      if mask.clipMask {
        CopyField(ClipMask(dst), ClipMask(src));
      }
    }

    /** RQ_SetClipRectangles: the list takes the place of whatever clipped before. */
    method SetClipRectangles(gc: nat, rects: Rectangles, memory: bool) returns (status: Status)
      requires Valid() && Owned(slots, gcs, clip)
      modifies this`pix, this`orphans, this`slots, this`clip
      ensures Valid() && Owned(slots, gcs, clip)
      ensures status == (if gc !in gcs then BadGC else if rects != [] && !memory then BadAlloc else Success)
      ensures slots == if status == Success then old(slots) - {ClipMask(gc)} else old(slots)
      ensures clip == if status == Success then old(clip)[gc := rects] else old(clip)
    {
      if gc !in gcs {
        return BadGC;
      }
      if rects != [] && !memory {
        return BadAlloc;
      }
      Release(ClipMask(gc));
      clip := clip[gc := rects];
      return Success;
    }

    /** GcntDelete, called by RQ_FreeGC and when a client ends. */
    method DeleteGC(gc: nat) returns (status: Status)
      requires Valid() && Owned(slots, gcs, clip)
      modifies this`pix, this`orphans, this`slots, this`gcs, this`clip
      ensures Valid() && Owned(slots, gcs, clip)
      ensures status == if gc in old(gcs) then Success else BadGC
      ensures gcs == old(gcs) - {gc} && clip == old(clip) - {gc}
      ensures slots == old(slots) - {Tile(gc), Stipple(gc), ClipMask(gc)}
    {
      StrippedOwned(slots, gcs, clip, gc);
      StrippedIs(slots, gc);
      if gc !in gcs {
        return BadGC;
      }
      ReleaseAll(gc);
      clip := clip - {gc};
      gcs := gcs - {gc};
      return Success;
    }

    method ReleaseAll(gc: nat)
      requires Valid()
      modifies this`pix, this`orphans, this`slots
      ensures Valid() && slots == Stripped(old(slots), gc)
    {
      Release(Tile(gc));
      Release(Stipple(gc));
      Release(ClipMask(gc));
    }
  }
  /**
   A run after which a graphics context cannot be copied to itself: it has the only reference
   to a pixmap whose id was freed.
   */
  method SelfCopyExample() returns (w: Pixmaps)
    ensures fresh(w) && w.Valid() && Owned(w.slots, w.gcs, w.clip) && w.gcs == map[5 := 1] && Tile(5) in w.slots
    ensures w.slots[Tile(5)] in w.pix && w.pix[w.slots[Tile(5)]].reffs == 1
    ensures !CopySafe(w.pix, w.slots, 5, 5, CopyMask(true, false, false))
  {
    w := new Pixmaps();
    TileFromPixmap(w);
    var status := w.FreePixmap(7);
    OnlyReference(w.pix, w.pool, w.orphans, w.slots);
  }

  /** A pixmap with the id 7 and a graphics context 5 that has it as its tile. */
  method TileFromPixmap(w: Pixmaps)
    requires w.Valid() && w.pix == map[] && w.pool == map[] && w.slots == map[] && w.gcs == map[] && w.clip == map[]
    modifies w
    ensures w.Valid() && Owned(w.slots, w.gcs, w.clip)
    ensures w.pool == map[7 := 9] && w.slots == map[Tile(5) := 9] && w.gcs == map[5 := 1]
  {
    var status := w.Create(7, false, 16, 16, 1, 9);
    status := w.CreateGC(5, Some(1), false, true, Values(false, Some(7), None, false, None));
  }

  lemma OnlyReference(pix: map<Ref, Pix>, pool: map<nat, Ref>, orphans: set<Ref>, slots: map<Slot, Ref>)
    requires Counted(pix, pool, orphans, slots) && pool == map[] && slots == map[Tile(5) := 9]
    ensures 9 in pix && pix[9].reffs == 1
  {
    assert Holders(slots, 9) == {Tile(5)};
  }

  /** What CopyGC would do with it first: the pixmap is gone before it is shared. */
  method SelfCopyFrees() returns (w: Pixmaps)
    ensures Tile(5) in w.slots && w.slots[Tile(5)] !in w.pix
  {
    w := SelfCopyExample();
    w.CopyToItselfFrees(Tile(5));
  }
}
