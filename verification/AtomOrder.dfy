/**
 How atom names compare. Names are counted byte strings that the server stores with a NUL
 behind them and compares with strncmp, which stops at the first NUL, and then by length.
 */
module AtomOrder {
  import opened Bytes

  type Name = seq<Byte>

  /** strncmp(name, stored, |name|); a NUL follows the stored name. */
  function StrNCmp(name: Name, stored: Name): int {
    if name == [] then 0
    else
      var c, d := name[0] as int, if stored == [] then 0 else stored[0] as int;
      if c != d then c - d else if c == 0 then 0 else StrNCmp(name[1..], stored[1..])
  }

  /** Assignment of an int to a short. */
  function Narrow(x: int): int {
    (x + 32768) % 65536 - 32768
  }

  /** The `dir` of AtomGet: which way to go from a stored name. */
  function Dir(name: Name, stored: Name): int {
    var c := StrNCmp(name, stored);
    if c != 0 then c else Narrow(|name| - |stored|)
  }

  /** The part strncmp sees. */
  function Cut(name: Name): (r: Name)
    ensures |r| <= |name| && r == name[..|r|]
  {
    if name == [] || name[0] == 0 then [] else [name[0]] + Cut(name[1..])
  }

  /** Lexicographic order: negative, zero or positive. */
  function Compare(x: Name, y: Name): int {
    if x == [] then (if y == [] then 0 else -1)
    else if y == [] then 1
    else if x[0] != y[0] then x[0] as int - y[0] as int
    else Compare(x[1..], y[1..])
  }

  lemma {:induction false} CompareEqual(x: Name, y: Name)
    ensures Compare(x, y) == 0 <==> x == y
  {
    if x != [] && y != [] && x[0] == y[0] {
      CompareEqual(x[1..], y[1..]);
      assert x == [x[0]] + x[1..] && y == [y[0]] + y[1..];
    }
  }

  lemma {:induction false} CompareSwap(x: Name, y: Name)
    ensures Compare(x, y) < 0 <==> Compare(y, x) > 0
  {
    if x != [] && y != [] { CompareSwap(x[1..], y[1..]); }
  }

  lemma {:induction false} CompareTrans(x: Name, y: Name, z: Name)
    requires Compare(x, y) < 0 && Compare(y, z) < 0
    ensures Compare(x, z) < 0
  {
    if x != [] && x[0] == y[0] && y[0] == z[0] { CompareTrans(x[1..], y[1..], z[1..]); }
  }

  /** The order of the index: by what strncmp sees, then by length. */
  predicate Before(a: Name, b: Name) {
    var c := Compare(Cut(a), Cut(b));
    c < 0 || (c == 0 && |a| < |b|)
  }

  /** Names the server cannot tell apart. */
  predicate Same(a: Name, b: Name) {
    Cut(a) == Cut(b) && |a| == |b|
  }

  predicate Plain(a: Name) {
    0 !in a
  }

  lemma {:induction false} CutPlain(a: Name)
    requires Plain(a)
    ensures Cut(a) == a
  {
    if a != [] { CutPlain(a[1..]); }
  }

  /** Without NUL bytes only equal names are the same. */
  lemma SamePlain(a: Name, b: Name)
    requires Plain(a) && Plain(b)
    ensures Same(a, b) <==> a == b
  {
    CutPlain(a);
    CutPlain(b);
  }

  /** Two different names that share one atom. */
  lemma SameExample()
    ensures Same([65, 0, 66], [65, 0, 67])
  {
    assert Cut([65, 0, 66]) == [65] + Cut([0, 66]);
    assert Cut([65, 0, 67]) == [65] + Cut([0, 67]);
  }

  lemma BeforeTrans(a: Name, b: Name, c: Name)
    requires Before(a, b) && Before(b, c)
    ensures Before(a, c)
  {
    var x, y, z := Cut(a), Cut(b), Cut(c);
    CompareEqual(x, y);
    CompareEqual(y, z);
    if Compare(x, y) < 0 && Compare(y, z) < 0 { CompareTrans(x, y, z); }
  }

  /** Exactly one of before, same and after. */
  lemma Trichotomy(a: Name, b: Name)
    ensures Same(a, b) ==> !Before(a, b) && !Before(b, a)
    ensures Before(a, b) ==> !Before(b, a)
    ensures Same(a, b) || Before(a, b) || Before(b, a)
  {
    CompareEqual(Cut(a), Cut(b));
    CompareEqual(Cut(b), Cut(a));
    CompareSwap(Cut(a), Cut(b));
    CompareSwap(Cut(b), Cut(a));
  }

  /** When strncmp finds no difference the names are alike up to a NUL, or the stored one goes on. */
  lemma {:induction false} StrNCmpExact(name: Name, stored: Name)
    ensures StrNCmp(name, stored) < 0 ==> Compare(Cut(name), Cut(stored)) < 0
    ensures StrNCmp(name, stored) > 0 ==> Compare(Cut(name), Cut(stored)) > 0
    ensures StrNCmp(name, stored) == 0 ==>
              Cut(name) == Cut(stored) || (Compare(Cut(name), Cut(stored)) < 0 && |name| < |stored|)
  {
    if name != [] && stored != [] && name[0] == stored[0] != 0 {
      StrNCmpExact(name[1..], stored[1..]);
      assert Cut(name) == [name[0]] + Cut(name[1..]) && Cut(stored) == [stored[0]] + Cut(stored[1..]);
      assert Cut(name)[1..] == Cut(name[1..]) && Cut(stored)[1..] == Cut(stored[1..]);
    }
  }

  /** The verdict tells on which side of the stored name the other belongs. */
  predicate Right(dir: int, name: Name, stored: Name) {
    && (dir < 0 <==> Before(name, stored))
    && (dir > 0 <==> Before(stored, name))
    && (dir == 0 <==> Same(name, stored))
  }

  lemma NarrowSign(x: int)
    requires -65536 < x < 65536
    ensures -32768 <= x < 32768 ==> Narrow(x) == x
    ensures x >= 32768 ==> Narrow(x) < 0
    ensures x < -32768 ==> Narrow(x) > 0
  {
  }

  /**
   For names of the lengths the protocol allows, the verdict is right exactly when strncmp
   decides or the difference of the lengths fits in 16 bits.
   */
  lemma DirExact(name: Name, stored: Name)
    requires |name| < 65536 && |stored| < 65536
    ensures Right(Dir(name, stored), name, stored)
            <==> (StrNCmp(name, stored) != 0 || -32768 <= |name| - |stored| < 32768)
  {
    StrNCmpExact(name, stored);
    Trichotomy(name, stored);
    CompareEqual(Cut(name), Cut(stored));
    CompareEqual(Cut(stored), Cut(name));
    CompareSwap(Cut(name), Cut(stored));
    CompareSwap(Cut(stored), Cut(name));
    NarrowSign(|name| - |stored|);
  }

  /** A name of one byte and a stored one of 40000 that begins with it: the search goes the wrong way. */
  lemma DirExample()
    ensures var name, stored := [65], seq(40000, _ => 65);
            Dir(name, stored) > 0 && Before(name, stored)
  {
    var name: Name, stored: Name := [65], seq(40000, _ => 65);
    assert StrNCmp(name, stored) == StrNCmp(name[1..], stored[1..]) == 0;
    NarrowSign(|name| - |stored|);
    assert Cut(name) == [65] + Cut(name[1..]) && Cut(stored) == [65] + Cut(stored[1..]);
    assert Cut(stored[1..]) != [] by { assert stored[1..][0] == 65; }
    assert Cut(name)[1..] == [] && Cut(stored)[1..] == Cut(stored[1..]);
  }
}
