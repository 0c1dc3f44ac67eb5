/**
 The atom table: names by id, and an index of the ids sorted by name in which AtomGet
 searches and inserts.
 */
module Atom {
  import opened AtomOrder

  const MAX_ATOM: nat := 200

  /** The entries _ATOM_Sort has. */
  const SORT: nat := MAX_ATOM - 1

  ghost predicate Ids(n: nat, ids: seq<nat>) {
    forall i | 0 <= i < |ids| :: 1 <= ids[i] <= n
  }

  ghost predicate Sorted(names: seq<Name>, ids: seq<nat>)
    requires Ids(|names|, ids)
  {
    forall i, j | 0 <= i < j < |ids| :: Before(names[ids[i] - 1], names[ids[j] - 1])
  }

  ghost predicate AllIds(n: nat, ids: seq<nat>) {
    forall id | 1 <= id <= n :: id in ids
  }

  /** The ids 1 to |names|, each once, in strictly increasing order of their names. */
  ghost predicate Index(names: seq<Name>, ids: seq<nat>) {
    |ids| == |names| && Ids(|names|, ids) && Sorted(names, ids) && AllIds(|names|, ids)
  }

  /** The first k entries of the index come before the name and the others from m on after it. */
  ghost predicate Around(names: seq<Name>, ids: seq<nat>, name: Name, k: nat, m: nat)
    requires Ids(|names|, ids)
  {
    && k <= m <= |ids|
    && (forall i | 0 <= i < k :: Before(names[ids[i] - 1], name))
    && (forall i | m <= i < |ids| :: Before(name, names[ids[i] - 1]))
  }

  /** A probe that says "after" settles everything up to it, one that says "before" the rest. */
  lemma Probe(names: seq<Name>, ids: seq<nat>, name: Name, k: nat, m: nat, p: nat)
    requires Index(names, ids) && Around(names, ids, name, k, m) && k <= p < m
    ensures Before(names[ids[p] - 1], name) ==> Around(names, ids, name, p + 1, m)
    ensures Before(name, names[ids[p] - 1]) ==> Around(names, ids, name, k, p)
  {
    if Before(names[ids[p] - 1], name) {
      forall i | 0 <= i < p ensures Before(names[ids[i] - 1], name) {
        BeforeTrans(names[ids[i] - 1], names[ids[p] - 1], name);
      }
    }
    if Before(name, names[ids[p] - 1]) {
      forall i | p < i < |ids| ensures Before(name, names[ids[i] - 1]) {
        BeforeTrans(name, names[ids[p] - 1], names[ids[i] - 1]);
      }
    }
  }

  ghost predicate Known(names: seq<Name>, name: Name) {
    exists i | 0 <= i < |names| :: Same(names[i], name)
  }

  /** When the two parts meet the name is new. */
  lemma NotKnown(names: seq<Name>, ids: seq<nat>, name: Name, k: nat)
    requires Index(names, ids) && Around(names, ids, name, k, k)
    ensures !Known(names, name)
  {
    forall i | 0 <= i < |names| ensures !Same(names[i], name) {
      assert i + 1 in ids;
      var j :| 0 <= j < |ids| && ids[j] == i + 1;
      Trichotomy(names[i], name);
    }
  }

  /** Different ids never have the same name. */
  lemma NamesDiffer(names: seq<Name>, ids: seq<nat>, a: nat, b: nat)
    requires Index(names, ids) && a < |names| && b < |names| && a != b
    ensures !Same(names[a], names[b])
  {
    assert a + 1 in ids && b + 1 in ids;
    var i :| 0 <= i < |ids| && ids[i] == a + 1;
    var j :| 0 <= j < |ids| && ids[j] == b + 1;
    Trichotomy(names[a], names[b]);
  }

  ghost function Inserted(ids: seq<nat>, k: nat, id: nat): seq<nat>
    requires k <= |ids|
  {
    ids[..k] + [id] + ids[k..]
  }

  lemma InsertedAt(ids: seq<nat>, k: nat, id: nat)
    requires k <= |ids|
    ensures |Inserted(ids, k, id)| == |ids| + 1 && Inserted(ids, k, id)[k] == id
    ensures forall i | 0 <= i < k :: Inserted(ids, k, id)[i] == ids[i]
    ensures forall i | k < i <= |ids| :: Inserted(ids, k, id)[i] == ids[i - 1]
  {
  }

  lemma InsertedOrder(names: seq<Name>, ids: seq<nat>, name: Name, k: nat, i: nat, j: nat)
    requires Index(names, ids) && Around(names, ids, name, k, k) && i < j <= |ids|
    ensures var ids' := Inserted(ids, k, |names| + 1);
            && 1 <= ids'[i] <= |names| + 1 && 1 <= ids'[j] <= |names| + 1
            && Before((names + [name])[ids'[i] - 1], (names + [name])[ids'[j] - 1])
  {
    InsertedAt(ids, k, |names| + 1);
  }

  lemma InsertedHas(ids: seq<nat>, k: nat, id: nat, x: nat)
    requires k <= |ids| && (x in ids || x == id)
    ensures x in Inserted(ids, k, id)
  {
    InsertedAt(ids, k, id);
    if x in ids {
      var i :| 0 <= i < |ids| && ids[i] == x;
      assert Inserted(ids, k, id)[if i < k then i else i + 1] == x;
    }
  }

  lemma InsertedIds(ids: seq<nat>, k: nat, n: nat)
    requires k <= |ids| && Ids(n, ids) && AllIds(n, ids)
    ensures Ids(n + 1, Inserted(ids, k, n + 1)) && AllIds(n + 1, Inserted(ids, k, n + 1))
  {
    var ids' := Inserted(ids, k, n + 1);
    InsertedAt(ids, k, n + 1);
    forall id | 1 <= id <= n + 1 ensures id in ids' {
      InsertedHas(ids, k, n + 1, id);
    }
  }

  lemma InsertIndex(names: seq<Name>, ids: seq<nat>, name: Name, k: nat)
    requires Index(names, ids) && Around(names, ids, name, k, k)
    ensures Index(names + [name], Inserted(ids, k, |names| + 1))
  {
    var names', ids' := names + [name], Inserted(ids, k, |names| + 1);
    InsertedIds(ids, k, |names|);
    forall i, j | 0 <= i < j < |ids'| ensures Before(names'[ids'[i] - 1], names'[ids'[j] - 1]) {
      InsertedOrder(names, ids, name, k, i, j);
    }
  }

  predicate InBounds(k: nat) {
    k < SORT
  }

  /** The entries an insertion at num writes when there are count atoms before it: memmove moves one more than needed. */
  predicate Written(num: nat, count: nat, k: nat) {
    num <= k <= count + 1
  }

  ghost predicate Spills(num: nat, count: nat) {
    exists k: nat :: Written(num, count, k) && !InBounds(k)
  }

  /** An insertion stays inside the index exactly when there are fewer than 198 atoms before it. */
  lemma SpillExact(num: nat, count: nat)
    requires num <= count
    ensures Spills(num, count) <==> count >= MAX_ATOM - 2
  {
    assert count >= MAX_ATOM - 2 ==> Written(num, count, count + 1) && !InBounds(count + 1);
  }

  /** The test against MAX_ATOM lets two insertions through that do not. */
  lemma SpillsUnnoticed(num: nat, count: nat)
    requires num <= count < MAX_ATOM
    ensures Spills(num, count) <==> count == 198 || count == 199
  {
    SpillExact(num, count);
  }

  class Atoms {
    const predefined: seq<Name>
    const order: seq<nat>
    var names: seq<Name>          // ATOM_Table[1..ATOM_Count]
    const sort: array<nat>        // _ATOM_Sort, by id, and the two words behind it

    ghost predicate Valid()
      reads this, sort
    {
      && sort.Length == SORT + 2 && |names| <= MAX_ATOM
      && Index(names, sort[..|names|]) && (forall n <- names :: |n| < 32768)
      && Index(predefined, order) && predefined <= names
    }

    /** AtomInit: the predefined atoms in their given order. */
    constructor (predefined: seq<Name>, order: seq<nat>)
      requires Index(predefined, order) && |predefined| <= SORT && forall n <- predefined :: |n| < 32768
      ensures Valid() && names == predefined && this.predefined == predefined && fresh(sort)
    {
      this.predefined, this.order, names := predefined, order, predefined;
      sort := new nat[SORT + 2](i => if 0 <= i < |order| then order[i] else 0);
      new;
      assert sort[..|names|] == order;
    }

    /** AtomInit at a reset: only the predefined atoms stay, with their ids. */
    method Reset()
      requires Valid()
      modifies this, sort
      ensures Valid() && names == predefined
    {
      names := predefined;
      var i: nat := 0;
      while i < |predefined|
        invariant i <= |predefined| && names == predefined
        invariant sort[..i] == order[..i]
      {
        sort[i] := order[i];
        i := i + 1;
      }
      assert order[..i] == order;
    }

    /** The search of AtomGet: the id of the name, or the place where it belongs. */
    method Search(name: Name) returns (id: nat, num: nat)
      requires Valid() && |name| < 32768
      ensures id != 0 ==> id <= |names| && Same(names[id - 1], name)
      ensures id == 0 ==> Around(names, sort[..|names|], name, num, num)
    {
      ghost var ids := sort[..|names|];
      var beg, end, dir := 0, |names| - 1, 0;
      num := 0;
      while end >= beg
        invariant 0 <= beg <= end + 1 <= |names| && num <= |names|
        invariant Around(names, ids, name, beg, end + 1)
        invariant beg == end + 1 ==> beg == if dir > 0 then num + 1 else num
      {
        num := (end + beg) / 2;
        var stored := names[sort[num] - 1];
        assert ids[num] == sort[num];
        dir := Dir(name, stored);
        DirExact(name, stored);
        Probe(names, ids, name, beg, end + 1, num);
        if dir > 0 {
          beg := num + 1;
        } else if dir < 0 {
          end := num - 1;
        } else {
          return sort[num], num;
        }
      }
      if dir > 0 {
        num := num + 1;
      }
      id := 0;
    }

    /**
     AtomGet; `memory` says whether malloc succeeds. `spills` tells that words behind the index
     were written.
     */
    method Get(name: Name, onlyIfExists: bool, memory: bool) returns (id: nat, ghost spills: bool)
      requires Valid() && |name| < 32768
      modifies this, sort
      ensures Valid() && old(names) <= names
      ensures Known(old(names), name) ==> 0 < id <= |names| && Same(names[id - 1], name) && names == old(names)
      ensures !Known(old(names), name) && (onlyIfExists || old(|names|) >= MAX_ATOM || !memory) ==> id == 0 && names == old(names)
      ensures !Known(old(names), name) && !onlyIfExists && old(|names|) < MAX_ATOM && memory ==>
                names == old(names) + [name] && id == |names|
      ensures spills <==> names != old(names) && old(|names|) >= MAX_ATOM - 2
    {
      spills := false;
      var num: nat;
      id, num := Search(name);
      if id != 0 {
        return;
      }
      NotKnown(names, sort[..|names|], name, num);
      if onlyIfExists || |names| >= MAX_ATOM || !memory {
        return 0, false;
      }
      spills := Spills(num, |names|);
      SpillExact(num, |names|);
      Add(name, num);
      return |names|, spills;
    }

    /** The rest of AtomGet: the new atom gets the next id, and its place in the index. */
    method Add(name: Name, num: nat)
      requires Valid() && |name| < 32768 && |names| < MAX_ATOM
      requires Around(names, sort[..|names|], name, num, num)
      modifies this, sort
      ensures Valid() && names == old(names) + [name]
    {
      InsertIndex(names, sort[..|names|], name, num);
      names := names + [name];
      Insert(num, |names|);
    }

    /** The last lines of AtomGet. */
    method Insert(num: nat, id: nat)
      requires num < id < sort.Length
      modifies sort
      ensures sort[..id] == Inserted(old(sort[..id - 1]), num, id)
      ensures forall k | 0 <= k < sort.Length && !Written(num, id - 1, k) :: sort[k] == old(sort[k])
    {
      forall i | num < i <= id {
        sort[i] := sort[i - 1];
      }
      sort[num] := id;
    }

    /** Two names get one atom exactly when the server cannot tell them apart. */
    method GetTwo(a: Name, b: Name) returns (x: nat, y: nat)
      requires Valid() && |a| < 32768 && |b| < 32768
      modifies this, sort
      ensures Valid() && (x != 0 && y != 0 ==> (x == y <==> Same(a, b)))
      ensures old(|names|) < MAX_ATOM - 1 ==> x != 0 && y != 0
    {
      ghost var spills;
      x, spills := Get(a, false, true);
      ghost var known := if x == 0 then [] else names[x - 1];
      y, spills := Get(b, false, true);
      if x != 0 && y != 0 {
        assert names[x - 1] == known;
        if x != y {
          NamesDiffer(names, sort[..|names|], x - 1, y - 1);
        }
      }
    }
  }

  /** Names of different lengths are interned until there are count atoms. */
  method Fill(atoms: Atoms, count: nat)
    requires atoms.Valid() && atoms.names == [] && count <= MAX_ATOM
    modifies atoms, atoms.sort
    ensures atoms.Valid() && |atoms.names| == count && forall i | 0 <= i < count :: |atoms.names[i]| == i + 1
  {
    var n: nat := 0;
    while n < count
      invariant n <= count && atoms.Valid() && |atoms.names| == n
      invariant forall i | 0 <= i < n :: |atoms.names[i]| == i + 1
    {
      var id, spills := InternNext(atoms, n);
      n := n + 1;
    }
  }

  method InternNext(atoms: Atoms, n: nat) returns (id: nat, ghost spills: bool)
    requires atoms.Valid() && |atoms.names| == n < MAX_ATOM && forall i | 0 <= i < n :: |atoms.names[i]| == i + 1
    modifies atoms, atoms.sort
    ensures atoms.Valid() && |atoms.names| == n + 1 == id && forall i | 0 <= i <= n :: |atoms.names[i]| == i + 1
    ensures spills <==> n >= MAX_ATOM - 2
  {
    var name: Name := seq(n + 1, _ => 65);
    assert !Known(atoms.names, name);
    id, spills := atoms.Get(name, false, true);
  }

  /** A client that interns 198 names, and then one more: it gets its atom, and words behind the index are written. */
  method SpillExample() returns (atoms: Atoms, id: nat, ghost spills: bool)
    ensures atoms.Valid() && |atoms.names| == 199 && id == 199 && spills
  {
    atoms := new Atoms([], []);
    Fill(atoms, MAX_ATOM - 2);
    id, spills := InternNext(atoms, MAX_ATOM - 2);
  }
}
