/**
 RotateProperties: the structs named in a list exchange their names. Every property moves
 delta places along the list; everything else stays.
 */
module Rotate {
  import opened Basics
  import opened Modular
  import opened Pool

  /** The replies, and a division by zero. */
  datatype Status = Success | BadAtom | BadMatch | Trap

  /** C's remainder of a signed by an unsigned 16-bit number: it takes the sign of the dividend. */
  function Remainder(a: int, n: nat): int
    requires n > 0
  {
    if a >= 0 then a % n else -((-a) % n)
  }

  /** delta as the server stores it, in an unsigned 16-bit variable. */
  function Delta(positions: int, n: nat): (d: nat)
    requires 0 < n < 65536
    ensures d < 65536
  {
    Remainder(positions, n) % 65536
  }

  /** Where entry i goes. */
  function Target(i: nat, d: nat, n: nat): (j: nat)
    requires n > 0
    ensures j < n
  {
    (i + d) % n
  }

  lemma DeltaForward(positions: nat, n: nat)
    requires 0 < n < 65536
    ensures (Delta(positions, n) - positions) % n == 0
  {
    var k: int := positions / n;
    assert positions == n * k + positions % n;
    assert n * (-k) == -(n * k);
    DivModUnique(-(n * k), n, -k, 0);
  }

  lemma DeltaBackward(q: int, n: nat)
    requires 0 < n < 65536 && q > 0
    ensures (-q) % n == 0 <==> q % n == 0
    ensures (Delta(-q, n) + q) % n == if q % n == 0 then 0 else 65536 % n
  {
    var k: int, r: int := q / n, q % n;
    assert q == n * k + r;
    assert n * (-k) == -(n * k) && n * (-k - 1) == -(n * k) - n;
    if r == 0 {
      DivModUnique(-q, n, -k, 0);
      DivModUnique(q, n, k, 0);
    } else {
      DivModUnique(-q, n, -k - 1, n - r);
      ModShift(65536, n, k);
    }
  }

  /**
   The protocol moves entry i to place (i + positions) mod n. The server does that for every
   count that is not negative, and for a negative one exactly when 65536 or the count is
   divisible by n.
   */
  lemma DeltaExact(positions: int, n: nat, i: nat)
    requires 0 < n < 65536 && i < n
    ensures (Target(i, Delta(positions, n), n) == (i + positions) % n)
            <==> (positions >= 0 || 65536 % n == 0 || positions % n == 0)
  {
    var d := Delta(positions, n);
    ModEqual(i + d, i + positions, n);
    assert i + d - (i + positions) == d - positions;
    if positions >= 0 {
      DeltaForward(positions, n);
    } else {
      DeltaBackward(-positions, n);
    }
  }

  /** Three names and a count of -1: the first entry stays instead of going to the last place. */
  lemma DeltaExample()
    ensures Delta(-1, 3) == 65535 && Target(0, Delta(-1, 3), 3) == 0 && (0 - 1) % 3 == 2
  {
    assert Remainder(-1, 3) == -1;
  }

  /** Every name is a known atom with a property, and none comes twice. */
  ghost predicate Acceptable(m: map<nat, Ref>, names: seq<nat>, atoms: nat) {
    (forall a <- names :: 0 < a <= atoms && a in m) && Distinct(names)
  }

  lemma DistinctMore(names: seq<nat>, k: nat)
    requires k + 1 == |names|
    ensures Distinct(names) <==> Distinct(names[..k]) && names[k] !in names[..k]
  {
    var front := names[..k];
    assert forall i | 0 <= i < k :: front[i] == names[i];
    if Distinct(front) && names[k] !in front {
      forall i, j | 0 <= i < j < |names| ensures names[i] != names[j] {
        assert names[i] == front[i] && front[i] in front;
        assert j < k ==> names[j] == front[j];
      }
    }
  }

  lemma AcceptOne(m: map<nat, Ref>, names: seq<nat>, atoms: nat)
    requires |names| > 0
    ensures var k := |names| - 1;
            Acceptable(m, names, atoms) <==>
              (Acceptable(m, names[..k], atoms)
               && 0 < names[k] <= atoms && names[k] in m && names[k] !in names[..k])
  {
    var k := |names| - 1;
    DistinctMore(names, k);
    assert names == names[..k] + [names[k]];
    assert forall a :: a in names <==> a in names[..k] || a == names[k];
  }

  /** What is wrong with the first name that cannot be accepted. */
  ghost function FirstError(m: map<nat, Ref>, names: seq<nat>, atoms: nat): (e: Status)
    ensures e == Success <==> Acceptable(m, names, atoms)
    ensures e != Trap
    decreases |names|
  {
    if |names| == 0 then Success else
      var k := |names| - 1;
      var e := FirstError(m, names[..k], atoms);
      AcceptOne(m, names, atoms);
      if e != Success then e
      else if !(0 < names[k] <= atoms) then BadAtom
      else if names[k] !in m || names[k] in names[..k] then BadMatch
      else Success
  }

  lemma {:induction false} FirstStays(m: map<nat, Ref>, names: seq<nat>, atoms: nat, k: nat)
    requires k <= |names| && FirstError(m, names[..k], atoms) != Success
    ensures FirstError(m, names, atoms) == FirstError(m, names[..k], atoms)
    decreases |names|
  {
    if k < |names| {
      assert names[..|names| - 1][..k] == names[..k];
      FirstStays(m, names[..|names| - 1], atoms, k);
    } else {
      assert names[..k] == names;
    }
  }

  /** The verdict on name i after the names before it have been accepted. */
  lemma FirstAt(m: map<nat, Ref>, names: seq<nat>, atoms: nat, i: nat)
    requires i < |names| && Acceptable(m, names[..i], atoms)
    ensures !(0 < names[i] <= atoms) ==> FirstError(m, names, atoms) == BadAtom
    ensures 0 < names[i] <= atoms && (names[i] !in m || names[i] in names[..i]) ==>
              FirstError(m, names, atoms) == BadMatch
    ensures 0 < names[i] <= atoms && names[i] in m && names[i] !in names[..i] ==>
              Acceptable(m, names[..i + 1], atoms)
  {
    assert names[..i + 1][..i] == names[..i];
    if FirstError(m, names[..i + 1], atoms) != Success {
      FirstStays(m, names, atoms, i + 1);
    }
  }

  /** The value of name i is afterwards found under name (i + d) mod n; nothing else changes. */
  ghost predicate Rotated(m: map<nat, Ref>, m': map<nat, Ref>, names: seq<nat>, d: nat)
    requires |names| > 0 && forall a <- names :: a in m
  {
    && m'.Keys == m.Keys
    && (forall a | a in m && a !in names :: m'[a] == m[a])
    && (forall i | 0 <= i < |names| ::
          names[Target(i, d, |names|)] in m' && m'[names[Target(i, d, |names|)]] == m[names[i]])
  }

  /** The entry that comes to place j. */
  function Source(j: nat, d: nat, n: nat): (i: nat)
    requires n > 0
    ensures i < n
  {
    (j - d) % n
  }

  /** Going forth and back ends where it began. */
  lemma BackAgain(i: nat, d: int, n: nat)
    requires i < n
    ensures ((i + d) % n - d) % n == i
  {
    var k := (i + d) / n;
    assert i + d == n * k + (i + d) % n;
    assert n * (-k) == -(n * k);
    ModShift(i, n, -k);
    DivModUnique(i, n, 0, i);
  }

  lemma SourceTarget(i: nat, d: nat, n: nat)
    requires i < n
    ensures Source(Target(i, d, n), d, n) == i && Target(Source(i, d, n), d, n) == i
  {
    BackAgain(i, d, n);
    var back: int := 0 - d;
    BackAgain(i, back, n);
  }

  /** The name that the struct for place j had. */
  ghost function Old(names: seq<nat>, d: nat): (r: seq<nat>)
    ensures |r| == |names| && forall j | 0 <= j < |r| :: r[j] == names[Source(j, d, |names|)]
  {
    seq(|names|, j requires 0 <= j < |names| => names[Source(j, d, |names|)])
  }

  lemma OldAt(names: seq<nat>, d: nat, i: nat)
    requires i < |names|
    ensures Old(names, d)[Target(i, d, |names|)] == names[i] && names[i] in Old(names, d)
  {
    SourceTarget(i, d, |names|);
  }

  lemma OldApart(names: seq<nat>, d: nat, i: nat, j: nat)
    requires Distinct(names) && i < j < |names|
    ensures Old(names, d)[i] != Old(names, d)[j]
  {
    SourceTarget(i, d, |names|);
    SourceTarget(j, d, |names|);
  }

  lemma OldNames(names: seq<nat>, d: nat)
    ensures forall a :: a in Old(names, d) <==> a in names
    ensures Distinct(names) ==> Distinct(Old(names, d))
  {
    forall a | a in names ensures a in Old(names, d) {
      var i :| 0 <= i < |names| && names[i] == a;
      OldAt(names, d, i);
    }
    if Distinct(names) {
      forall i, j | 0 <= i < j < |names| ensures Old(names, d)[i] != Old(names, d)[j] {
        OldApart(names, d, i, j);
      }
    }
  }

  /** The structs to move: prop[j] is the one that has the name was[j]. */
  ghost predicate Found(m: map<nat, Ref>, was: seq<nat>, prop: seq<Ref>) {
    && |was| == |prop| && Distinct(was) && Distinct(prop)
    && forall j | 0 <= j < |was| :: was[j] in m && prop[j] == m[was[j]]
  }

  /** The first k structs are out of the pool and have their new names. */
  ghost predicate Taken(m0: map<nat, Ref>, m: map<nat, Ref>, ident: map<Ref, nat>,
                        was: seq<nat>, names: seq<nat>, prop: seq<Ref>, k: nat) {
    && |was| == |prop| == |names| && k <= |was|
    && m == (map a | a in m0 && a !in was[..k] :: m0[a])
    && (forall j | 0 <= j < |prop| ::
          prop[j] != 0 && prop[j] in ident && ident[prop[j]] == if j < k then names[j] else was[j])
  }

  /** The first k structs are back. */
  ghost predicate Back(m0: map<nat, Ref>, m: map<nat, Ref>, names: seq<nat>, prop: seq<Ref>, k: nat) {
    && |prop| == |names| && k <= |names|
    && (forall j | 0 <= j < k :: names[j] in m && m[names[j]] == prop[j])
    && (forall j | k <= j < |names| :: names[j] !in m)
    && (forall a | a !in names :: (a in m <==> a in m0) && (a in m ==> m[a] == m0[a]))
  }

  /** One more struct taken out and renamed. */
  lemma TakeOne(m0: map<nat, Ref>, m: map<nat, Ref>, ident: map<Ref, nat>,
                was: seq<nat>, names: seq<nat>, prop: seq<Ref>, k: nat)
    requires Found(m0, was, prop) && Taken(m0, m, ident, was, names, prop, k) && k < |prop|
    ensures ident[prop[k]] == was[k] && was[k] in m && m[was[k]] == prop[k]
    ensures Taken(m0, m - {was[k]}, ident[prop[k] := names[k]], was, names, prop, k + 1)
  {
    assert was[k] !in was[..k];
    assert was[..k + 1] == was[..k] + [was[k]];
    var m', ident' := m - {was[k]}, ident[prop[k] := names[k]];
    assert m' == map a | a in m0 && a !in was[..k + 1] :: m0[a];
    forall j | 0 <= j < |prop| ensures ident'[prop[j]] == if j <= k then names[j] else was[j] {
      if j != k { assert ident[prop[j]] == if j < k then names[j] else was[j]; }
    }
  }

  lemma BackOne(m0: map<nat, Ref>, m: map<nat, Ref>, names: seq<nat>, prop: seq<Ref>, k: nat)
    requires Distinct(names) && Back(m0, m, names, prop, k) && k < |prop|
    ensures Back(m0, m[names[k] := prop[k]], names, prop, k + 1)
  {
  }

  /** With all structs out, none is back. */
  lemma TurnAround(m0: map<nat, Ref>, m: map<nat, Ref>, ident: map<Ref, nat>, names: seq<nat>, d: nat, prop: seq<Ref>)
    requires Taken(m0, m, ident, Old(names, d), names, prop, |names|)
    ensures Back(m0, m, names, prop, 0)
  {
    var was := Old(names, d);
    assert was[..|names|] == was;
    OldNames(names, d);
  }

  lemma BackAt(m0: map<nat, Ref>, m: map<nat, Ref>, names: seq<nat>, d: nat, prop: seq<Ref>, i: nat)
    requires i < |names| && names[i] in m0
    requires Found(m0, Old(names, d), prop) && Back(m0, m, names, prop, |names|)
    ensures var t := Target(i, d, |names|); names[t] in m && m[names[t]] == m0[names[i]]
  {
    OldAt(names, d, i);
  }

  lemma SameNames(m0: map<nat, Ref>, m: map<nat, Ref>, names: seq<nat>, prop: seq<Ref>)
    requires (forall a <- names :: a in m0) && Back(m0, m, names, prop, |names|)
    ensures m.Keys == m0.Keys
  {
    forall a ensures a in m.Keys <==> a in m0.Keys {
      if a in names {
        var i :| 0 <= i < |names| && names[i] == a;
      }
    }
  }

  lemma AllBack(m0: map<nat, Ref>, m: map<nat, Ref>, names: seq<nat>, d: nat, prop: seq<Ref>)
    requires |names| > 0 && (forall a <- names :: a in m0)
    requires Found(m0, Old(names, d), prop) && Back(m0, m, names, prop, |names|)
    ensures Rotated(m0, m, names, d)
  {
    SameNames(m0, m, names, prop);
    forall i | 0 <= i < |names|
      ensures var t := Target(i, d, |names|); names[t] in m && m[names[t]] == m0[names[i]]
    {
      BackAt(m0, m, names, d, prop, i);
    }
  }

  lemma NoTurn(m: map<nat, Ref>, names: seq<nat>)
    requires |names| > 0 && forall a <- names :: a in m
    ensures Rotated(m, m, names, 0)
  {
    forall i | 0 <= i < |names| ensures Target(i, 0, |names|) == i {
      DivModUnique(i, |names|, 0, i);
    }
  }

  /** The structs found for the first k names, each at the place it goes to. */
  ghost predicate Collected(m: map<nat, Ref>, names: seq<nat>, d: nat, prop: seq<Ref>, k: nat) {
    && |prop| == |names| && k <= |names|
    && forall i | 0 <= i < k :: names[i] in m && prop[Target(i, d, |names|)] == m[names[i]]
  }

  lemma CollectOne(m: map<nat, Ref>, names: seq<nat>, d: nat, prop: seq<Ref>, k: nat)
    requires Collected(m, names, d, prop, k) && k < |names| && names[k] in m
    ensures Collected(m, names, d, prop[Target(k, d, |names|) := m[names[k]]], k + 1)
  {
    var n := |names|;
    forall i | 0 <= i < k ensures Target(i, d, n) != Target(k, d, n) {
      SourceTarget(i, d, n);
      SourceTarget(k, d, n);
    }
  }

  lemma MapEntry(items: seq<seq<Ref>>, ident: map<Ref, nat>, m: map<nat, Ref>, id: nat)
    requires Refines(items, ident, m) && id in m
    ensures m[id] != 0 && m[id] in ident && ident[m[id]] == id
  {
    assert m[id] in items[id % |items|];
    assert ChainOk(items[id % |items|], id % |items|, |items|, ident, m);
  }

  lemma CollectedAll(items: seq<seq<Ref>>, ident: map<Ref, nat>, m: map<nat, Ref>, names: seq<nat>, d: nat, prop: seq<Ref>)
    requires Refines(items, ident, m) && Distinct(names) && Collected(m, names, d, prop, |names|)
    ensures Found(m, Old(names, d), prop) && Taken(m, m, ident, Old(names, d), names, prop, 0)
  {
    var was, n := Old(names, d), |names|;
    OldNames(names, d);
    forall j | 0 <= j < n
      ensures was[j] in m && prop[j] == m[was[j]]
      ensures prop[j] != 0 && prop[j] in ident && ident[prop[j]] == was[j]
    {
      SourceTarget(j, d, n);
      MapEntry(items, ident, m, was[j]);
    }
    assert m == map a | a in m && a !in was[..0] :: m[a];
  }

  class Properties {
    const pool: Pool
    var ident: map<Ref, nat>

    ghost predicate Valid()
      reads this, pool
    {
      pool.Valid(ident)
    }

    constructor (size: nat)
      requires size > 0
      ensures Valid() && fresh(pool) && pool.m == map[]
    {
      pool := new Pool(size);
      ident := map[];
    }

    /** The structs of the named properties, each at the place it moves to; or the first error. */
    method Collect(names: seq<nat>, d: nat, atoms: nat) returns (status: Status, prop: seq<Ref>)
      requires Valid()
      ensures status == Success <==> Acceptable(pool.m, names, atoms)
      ensures status == Success ==> Collected(pool.m, names, d, prop, |names|)
      ensures status == FirstError(pool.m, names, atoms)
    {
      prop := seq(|names|, _ => 0);
      var i: nat := 0;
      while i < |names|
        invariant i <= |names| && Acceptable(pool.m, names[..i], atoms)
        invariant Collected(pool.m, names, d, prop, i)
      {
        FirstAt(pool.m, names, atoms, i);
        if !(0 < names[i] <= atoms) {
          return BadAtom, prop;
        }
        var r := pool.Search(ident, names[i]);
        if r == 0 {
          return BadMatch, prop;
        }
        CollectOne(pool.m, names, d, prop, i);
        prop := prop[Target(i, d, |names|) := r];
        var j: nat := 0;
        while j < i
          invariant j <= i && names[i] !in names[..j]
        {
          if names[j] == names[i] {
            return BadMatch, prop;
          }
          j := j + 1;
        }
        i := i + 1;
      }
      assert names[..i] == names;
      return Success, prop;
    }

    /** Takes a struct out of the pool and gives it another name. */
    method Rename(r: Ref, id: nat)
      requires Valid() && r in ident && ident[r] in pool.m && pool.m[ident[r]] == r
      modifies this, pool
      ensures Valid() && pool.m == old(pool.m) - {old(ident)[r]} && ident == old(ident)[r := id]
    {
      var _ := pool.Remove(ident, r);
      RenameRefines(pool.items, ident, pool.m, r, id);
      ident := ident[r := id];
    }

    method TakeOut(names: seq<nat>, ghost was: seq<nat>, prop: seq<Ref>)
      requires Valid() && Found(pool.m, was, prop) && Taken(pool.m, pool.m, ident, was, names, prop, 0)
      modifies this, pool
      ensures Valid() && Taken(old(pool.m), pool.m, ident, was, names, prop, |names|)
    {
      ghost var m0 := pool.m;
      var i: nat := 0;
      while i < |names|
        invariant Valid() && Taken(m0, pool.m, ident, was, names, prop, i)
      {
        TakeOne(m0, pool.m, ident, was, names, prop, i);
        Rename(prop[i], names[i]);
        i := i + 1;
      }
    }

    method PutBack(names: seq<nat>, prop: seq<Ref>, ghost m0: map<nat, Ref>)
      requires Valid() && Back(m0, pool.m, names, prop, 0) && Distinct(names)
      requires forall j | 0 <= j < |prop| :: prop[j] != 0 && prop[j] in ident && ident[prop[j]] == names[j]
      modifies pool
      ensures Valid() && Back(m0, pool.m, names, prop, |names|)
    {
      var i: nat := 0;
      while i < |names|
        invariant Valid() && Back(m0, pool.m, names, prop, i)
      {
        BackOne(m0, pool.m, names, prop, i);
        pool.Insert(ident, prop[i]);
        i := i + 1;
      }
    }

    /** RQ_RotateProperties on the properties of the window: delta is computed before the list is looked at. */
    method Rotate(names: seq<nat>, positions: int, atoms: nat) returns (status: Status)
      requires Valid() && |names| < 65536
      modifies this, pool
      ensures Valid() && (status == Trap <==> names == [])
      ensures names != [] ==> status == FirstError(old(pool.m), names, atoms)
      ensures status != Success ==> pool.m == old(pool.m) && ident == old(ident)
      ensures status == Success ==>
                names != [] && Acceptable(old(pool.m), names, atoms)
                && Rotated(old(pool.m), pool.m, names, Delta(positions, |names|))
    {
      if |names| == 0 {
        return Trap;
      }
      var d := Delta(positions, |names|);
      var prop: seq<Ref>;
      status, prop := Collect(names, d, atoms);
      if status == Success {
        if d == 0 {
          NoTurn(pool.m, names);
        } else {
          ghost var m0, was := pool.m, Old(names, d);
          CollectedAll(pool.items, ident, m0, names, d, prop);
          TakeOut(names, was, prop);
          TurnAround(m0, pool.m, ident, names, d, prop);
          PutBack(names, prop, m0);
          AllBack(m0, pool.m, names, d, prop);
        }
      }
    }
  }
}
