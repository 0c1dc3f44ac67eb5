/**
 Resource pools: hash tables of chained structs that carry their own id. A pool refines a
 map from ids to structs, as long as no id is entered twice.
 */
module Pool {
  import opened Basics

  /** The address of a resource struct; 0 is NULL. */
  type Ref = nat

  /** Every struct of a chain is in the bucket its id selects, and is what the map has for it. */
  ghost predicate ChainOk(chain: seq<Ref>, b: nat, n: nat, ident: map<Ref, nat>, m: map<nat, Ref>)
    requires n > 0
  {
    && Distinct(chain)
    && forall r <- chain :: r != 0 && r in ident && ident[r] % n == b && ident[r] in m && m[ident[r]] == r
  }

  /** The pool holds exactly the structs of the map. */
  ghost predicate Refines(items: seq<seq<Ref>>, ident: map<Ref, nat>, m: map<nat, Ref>) {
    && |items| > 0
    && (forall b {:trigger items[b]} | 0 <= b < |items| :: ChainOk(items[b], b, |items|, ident, m))
    && (forall id {:trigger m[id]} | id in m :: m[id] in ident && ident[m[id]] == id && m[id] in items[id % |items|])
  }

  /** A removed struct keeps its id but is in no chain. */
  ghost function Removed(items: seq<seq<Ref>>, b: nat, i: nat): seq<seq<Ref>>
    requires b < |items| && i < |items[b]|
  {
    items[b := items[b][..i] + items[b][i + 1..]]
  }

  lemma InsertRefines(items: seq<seq<Ref>>, ident: map<Ref, nat>, m: map<nat, Ref>, r: Ref)
    requires Refines(items, ident, m) && r != 0 && r in ident && ident[r] !in m
    ensures var b := ident[r] % |items|; Refines(items[b := [r] + items[b]], ident, m[ident[r] := r])
  {
    var n, id := |items|, ident[r];
    var b := id % n;
    var items', m' := items[b := [r] + items[b]], m[id := r];
    forall c | 0 <= c < n ensures ChainOk(items'[c], c, n, ident, m') {
      assert ChainOk(items[c], c, n, ident, m);
    }
    forall i | i in m' ensures m'[i] in ident && ident[m'[i]] == i && m'[i] in items'[i % n] {
      if i != id { assert m[i] in items[i % n]; }
    }
  }

  /** An id that is already in the pool is entered behind the map's back: then the pool holds more than the map. */
  lemma InsertExact(items: seq<seq<Ref>>, ident: map<Ref, nat>, m: map<nat, Ref>, r: Ref)
    requires Refines(items, ident, m) && r != 0 && r in ident
    ensures var b := ident[r] % |items|; Refines(items[b := [r] + items[b]], ident, m[ident[r] := r]) <==> ident[r] !in m
  {
    var n, id := |items|, ident[r];
    var b := id % n;
    if id !in m {
      InsertRefines(items, ident, m, r);
    } else {
      var chain, items' := [r] + items[b], items[b := [r] + items[b]];
      var i :| 0 <= i < |items[b]| && items[b][i] == m[id];
      assert chain[0] == r && chain[i + 1] == m[id] && chain[i + 1] in chain;
      assert !ChainOk(chain, b, n, ident, m[id := r]);
      assert items'[b] == chain;
    }
  }

  lemma RemoveRefines(items: seq<seq<Ref>>, ident: map<Ref, nat>, m: map<nat, Ref>, b: nat, i: nat)
    requires Refines(items, ident, m) && b < |items| && i < |items[b]|
    ensures items[b][i] in ident && ident[items[b][i]] in m
    ensures Refines(Removed(items, b, i), ident, m - {ident[items[b][i]]})
  {
    var n, chain := |items|, items[b];
    var r := chain[i];
    assert ChainOk(chain, b, n, ident, m) && r in chain;
    var items', m', rest := Removed(items, b, i), m - {ident[r]}, chain[..i] + chain[i + 1..];
    assert forall x <- rest :: x in chain;
    forall c | 0 <= c < n ensures ChainOk(items'[c], c, n, ident, m') {
      assert ChainOk(items[c], c, n, ident, m);
      if c == b { RestOfChain(chain, i, r); }
    }
    forall id | id in m' ensures m'[id] in ident && ident[m'[id]] == id && m'[id] in items'[id % n] {
      assert m[id] in items[id % n];
      if id % n == b { RestOfChain(chain, i, m[id]); }
    }
  }

  lemma RestOfChain(chain: seq<Ref>, i: nat, x: Ref)
    requires i < |chain| && Distinct(chain)
    ensures var rest := chain[..i] + chain[i + 1..];
            Distinct(rest) && (x in rest <==> x in chain && x != chain[i])
  {
    var rest := chain[..i] + chain[i + 1..];
    if x in chain && x != chain[i] {
      var j :| 0 <= j < |chain| && chain[j] == x;
      assert rest[if j < i then j else j - 1] == x;
    }
  }

  /** The id of a struct outside the pool may change. */
  lemma RenameRefines(items: seq<seq<Ref>>, ident: map<Ref, nat>, m: map<nat, Ref>, r: Ref, id: nat)
    requires Refines(items, ident, m) && r in ident
    requires !(ident[r] in m && m[ident[r]] == r)
    ensures Refines(items, ident[r := id], m)
  {
    var n, ident' := |items|, ident[r := id];
    forall b | 0 <= b < n ensures ChainOk(items[b], b, n, ident', m) {
      assert ChainOk(items[b], b, n, ident, m);
    }
    forall i | i in m ensures m[i] in ident' && ident'[m[i]] == i && m[i] in items[i % n] {
      assert m[i] in items[i % n];
    }
  }

  class Pool {
    var items: seq<seq<Ref>>
    ghost var m: map<nat, Ref>

    ghost predicate Valid(ident: map<Ref, nat>)
      reads this
    {
      Refines(items, ident, m)
    }

    /** _xrsc_pool_init for 2^bits buckets. */
    constructor (size: nat)
      requires size > 0
      ensures items == seq(size, _ => []) && m == map[] && Valid(map[])
    {
      items := seq(size, _ => []);
      m := map[];
    }

    /** _xrsc_insert */
    method Insert(ident: map<Ref, nat>, r: Ref)
      requires Valid(ident) && r != 0 && r in ident && ident[r] !in m
      modifies this
      ensures Valid(ident) && m == old(m)[ident[r] := r] && |items| == old(|items|)
    {
      InsertRefines(items, ident, m, r);
      var b := ident[r] % |items|;
      items := items[b := [r] + items[b]];
      m := m[ident[r] := r];
    }

    /** _xrsc_search */
    method Search(ident: map<Ref, nat>, id: nat) returns (r: Ref)
      requires Valid(ident)
      ensures r != 0 <==> id in m
      ensures id in m ==> r == m[id]
    {
      var b := id % |items|;
      var chain, i := items[b], 0;
      assert ChainOk(chain, b, |items|, ident, m);
      assert id in m ==> m[id] in chain;
      while i < |chain|
        invariant 0 <= i <= |chain|
        invariant forall j | 0 <= j < i :: ident[chain[j]] != id
      {
        assert chain[i] in chain;
        if ident[chain[i]] == id {
          return chain[i];
        }
        i := i + 1;
      }
      return 0;
    }

    /** _xrsc_remove: true when the struct was in the pool. */
    method Remove(ident: map<Ref, nat>, r: Ref) returns (ok: bool)
      requires Valid(ident) && r in ident
      modifies this
      ensures Valid(ident) && |items| == old(|items|)
      ensures ok <==> ident[r] in old(m) && old(m)[ident[r]] == r
      ensures m == if ok then old(m) - {ident[r]} else old(m)
    {
      var b := ident[r] % |items|;
      var chain, i := items[b], 0;
      assert ident[r] in m ==> m[ident[r]] in chain;
      while i < |chain|
        invariant 0 <= i <= |chain| && items == old(items) && m == old(m)
        invariant forall j | 0 <= j < i :: chain[j] != r
      {
        if chain[i] == r {
          assert ChainOk(chain, b, |items|, ident, m) && r in chain;
          RemoveRefines(items, ident, m, b, i);
          items := items[b := chain[..i] + chain[i + 1..]];
          m := m - {ident[r]};
          return true;
        }
        i := i + 1;
      }
      return false;
    }
  }
}
