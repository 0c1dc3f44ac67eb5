/**
 Selections: every atom may name an owner, a client with one of the windows, and every
 window counts the atoms that name it.
 */
module Selection {
  type Client = nat    // 0 is NULL
  type Window = nat    // 0 is NULL

  datatype Status = Success | BadAtom | BadWindow

  /** A SelectionClear event. */
  datatype Lost = Lost(owner: Client, window: Window, atom: nat)

  /** How many atoms name the window. */
  ghost function Naming(wind: seq<Window>, w: Window): nat {
    multiset(wind)[w]
  }

  /** Owner and window are set together, both live, and every window counts its atoms. */
  ghost predicate Tied(owner: seq<Client>, wind: seq<Window>, n: map<Window, nat>, clients: set<Client>) {
    && |owner| == |wind| && 0 !in clients && 0 !in n
    && (forall i | 0 <= i < |owner| :: owner[i] == 0 <==> wind[i] == 0)
    && (forall i | 0 <= i < |owner| && owner[i] != 0 :: owner[i] in clients && wind[i] in n)
    && (forall w | w in n :: n[w] == Naming(wind, w))
  }

  /** One atom loses its owner. */
  lemma LoseOne(owner: seq<Client>, wind: seq<Window>, n: map<Window, nat>, clients: set<Client>, i: nat)
    requires Tied(owner, wind, n, clients) && i < |owner| && owner[i] != 0
    ensures wind[i] in n && n[wind[i]] > 0
    ensures Tied(owner[i := 0], wind[i := 0], n[wind[i] := n[wind[i]] - 1], clients)
  {
    var w, wind' := wind[i], wind[i := 0];
    assert wind[i] in multiset(wind);
    assert multiset(wind') == multiset(wind) - multiset{w} + multiset{0};
  }

  /** An atom without owner gets one. */
  lemma GainOne(owner: seq<Client>, wind: seq<Window>, n: map<Window, nat>, clients: set<Client>, i: nat, c: Client, w: Window)
    requires Tied(owner, wind, n, clients) && i < |owner| && owner[i] == 0 && c in clients && w in n
    ensures Tied(owner[i := c], wind[i := w], n[w := n[w] + 1], clients)
  {
    var wind' := wind[i := w];
    assert multiset(wind') == multiset(wind) - multiset{0} + multiset{w};
  }

  /** A count of zero means that no atom names the window. */
  lemma NoneNamed(wind: seq<Window>, w: Window)
    ensures Naming(wind, w) == 0 <==> w !in wind
  {
    assert w in wind <==> w in multiset(wind);
  }

  /** A seq without the entries that belong to `gone`. */
  ghost function Struck(s: seq<nat>, key: seq<nat>, gone: nat): (r: seq<nat>)
    requires |s| == |key|
    ensures |r| == |s| && forall i | 0 <= i < |s| :: r[i] == if key[i] == gone then 0 else s[i]
  {
    seq(|s|, i requires 0 <= i < |s| => if key[i] == gone then 0 else s[i])
  }

  /** The same with only the first k entries considered. */
  ghost predicate Partly(s0: seq<nat>, s: seq<nat>, key: seq<nat>, gone: nat, k: nat) {
    && k <= |s| == |s0| == |key|
    && forall i | 0 <= i < |s| :: s[i] == if i < k && key[i] == gone then 0 else s0[i]
  }

  lemma PartlyStep(s0: seq<nat>, s: seq<nat>, key: seq<nat>, gone: nat, k: nat)
    requires Partly(s0, s, key, gone, k) && k < |s|
    ensures Partly(s0, if key[k] == gone then s[k := 0] else s, key, gone, k + 1)
    ensures s[k] == s0[k]
  {
  }

  /** No entry from k on belongs to `gone`. */
  ghost predicate NoMore(key: seq<nat>, gone: nat, k: nat) {
    forall i | k <= i < |key| :: key[i] != gone
  }

  lemma PartlyDone(s0: seq<nat>, s: seq<nat>, key: seq<nat>, gone: nat, k: nat)
    requires Partly(s0, s, key, gone, k) && NoMore(key, gone, k)
    ensures s == Struck(s0, key, gone)
  {
  }

  /** Stopping at a count of zero leaves nothing out. */
  lemma NoneLeft(wind0: seq<Window>, wind: seq<Window>, w: Window, k: nat)
    requires Partly(wind0, wind, wind0, w, k) && Naming(wind, w) == 0
    ensures NoMore(wind0, w, k)
  {
    NoneNamed(wind, w);
    assert forall i | k <= i < |wind| :: wind[i] == wind0[i] && wind[i] in wind;
  }

  /** The events of the first k atoms that name the window. */
  ghost function Losses(owner: seq<Client>, wind: seq<Window>, w: Window, k: nat): (r: seq<Lost>)
    requires k <= |owner| == |wind|
  {
    if k == 0 then [] else
      Losses(owner, wind, w, k - 1) + if wind[k - 1] == w then [Lost(owner[k - 1], w, k - 1)] else []
  }

  /** Sent were the events of the first k atoms. */
  ghost predicate Told(sent0: seq<Lost>, sent: seq<Lost>, owner: seq<Client>, wind: seq<Window>, w: Window, k: nat) {
    k <= |owner| == |wind| && sent == sent0 + Losses(owner, wind, w, k)
  }

  /** When no atom from k on names the window these are all. */
  lemma {:induction false} AllLosses(owner: seq<Client>, wind: seq<Window>, w: Window, k: nat, m: nat)
    requires k <= m <= |owner| == |wind| && NoMore(wind, w, k)
    ensures Losses(owner, wind, w, m) == Losses(owner, wind, w, k)
  {
    if k < m { AllLosses(owner, wind, w, k, m - 1); }
  }

  lemma Cleared(owner0: seq<Client>, owner: seq<Client>, wind0: seq<Window>, wind: seq<Window>, w: Window, k: nat)
    requires Partly(owner0, owner, wind0, w, k) && Partly(wind0, wind, wind0, w, k) && NoMore(wind0, w, k) && w != 0
    ensures owner == Struck(owner0, wind0, w) && wind == Struck(wind0, wind0, w) && Naming(wind, w) == 0
    ensures Losses(owner0, wind0, w, |owner|) == Losses(owner0, wind0, w, k)
  {
    PartlyDone(owner0, owner, wind0, w, k);
    PartlyDone(wind0, wind, wind0, w, k);
    NoneNamed(wind, w);
    AllLosses(owner0, wind0, w, k, |owner|);
  }

  lemma LossStep(owner: seq<Client>, wind: seq<Window>, w: Window, k: nat, sent: seq<Lost>)
    requires k < |owner| == |wind|
    ensures wind[k] == w ==>
              sent + Losses(owner, wind, w, k) + [Lost(owner[k], w, k)] == sent + Losses(owner, wind, w, k + 1)
    ensures wind[k] != w ==> Losses(owner, wind, w, k) == Losses(owner, wind, w, k + 1)
  {
  }

  /** No time goes back. */
  ghost predicate Later(time: seq<nat>, time': seq<nat>) {
    |time| == |time'| && forall i | 0 <= i < |time| :: time[i] <= time'[i]
  }

  lemma Overwrite(s: seq<nat>, i: nat, x: nat, y: nat)
    requires i < |s|
    ensures s[i := x][i := y] == s[i := y] && (s[i] == y ==> s[i := y] == s)
  {
  }

  class Selections {
    var owner: seq<Client>        // SelOwner of ATOM_Table[0..ATOM_Count + 1]
    var wind: seq<Window>         // SelWind
    var time: seq<nat>            // SelTime
    var nSelections: map<Window, nat>   // of every window there is
    var clients: set<Client>
    var now: nat                  // MAIN_TimeStamp
    var sent: seq<Lost>

    ghost predicate Valid()
      reads this
    {
      && |owner| == |time| > 0
      && Tied(owner, wind, nSelections, clients)
      && forall i | 0 <= i < |time| :: time[i] <= now
    }

    constructor (atoms: nat)
      ensures Valid() && nSelections == map[] && clients == {}
    {
      owner, wind, time := seq(atoms + 1, _ => 0), seq(atoms + 1, _ => 0), seq(atoms + 1, _ => 0);
      nSelections, clients, now, sent := map[], {}, 0, [];
    }

    /** Atom i loses its owner. */
    method Lose(i: nat)
      requires Valid() && i < |owner| && owner[i] != 0
      modifies this`owner, this`wind, this`nSelections
      ensures Valid() && nSelections.Keys == old(nSelections).Keys
      ensures owner == old(owner)[i := 0] && wind == old(wind)[i := 0]
    {
      LoseOne(owner, wind, nSelections, clients, i);
      nSelections := nSelections[wind[i] := nSelections[wind[i]] - 1];
      wind := wind[i := 0];
      owner := owner[i := 0];
    }

    /** SlctRemove */
    method Remove(c: Client)
      requires Valid() && c != 0
      modifies this`owner, this`wind, this`nSelections
      ensures Valid() && nSelections.Keys == old(nSelections).Keys
      ensures owner == Struck(old(owner), old(owner), c) && wind == Struck(old(wind), old(owner), c)
    {
      var i: nat := 0;
      ghost var owner0, wind0 := owner, wind;
      while i < |owner|
        invariant Valid() && nSelections.Keys == old(nSelections).Keys
        invariant Partly(owner0, owner, owner0, c, i) && Partly(wind0, wind, owner0, c, i)
      {
        PartlyStep(owner0, owner, owner0, c, i);
        PartlyStep(wind0, wind, owner0, c, i);
        if owner[i] == c {
          Lose(i);
        }
        i := i + 1;
      }
      PartlyDone(owner0, owner, owner0, c, i);
      PartlyDone(wind0, wind, owner0, c, i);
    }

    /** The owner of atom i is told that the selection is lost. */
    method Tell(i: nat, w: Window)
      requires Valid() && i < |owner| && w != 0 && wind[i] == w
      modifies this`owner, this`wind, this`nSelections, this`sent
      ensures Valid() && nSelections.Keys == old(nSelections).Keys
      ensures owner == old(owner)[i := 0] && wind == old(wind)[i := 0]
      ensures sent == old(sent) + [Lost(old(owner)[i], w, i)]
    {
      sent := sent + [Lost(owner[i], w, i)];
      Lose(i);
    }

    /** One round of the loop of SlctClear. */
    method ClearAt(i: nat, w: Window, ghost owner0: seq<Client>, ghost wind0: seq<Window>, ghost sent0: seq<Lost>)
      returns (hit: bool)
      requires Valid() && i < |owner| && w != 0
      requires Partly(owner0, owner, wind0, w, i) && Partly(wind0, wind, wind0, w, i)
      requires Told(sent0, sent, owner0, wind0, w, i)
      modifies this`owner, this`wind, this`nSelections, this`sent
      ensures Valid() && nSelections.Keys == old(nSelections).Keys && i < |owner|
      ensures Partly(owner0, owner, wind0, w, i + 1) && Partly(wind0, wind, wind0, w, i + 1)
      ensures Told(sent0, sent, owner0, wind0, w, i + 1)
    {
      PartlyStep(owner0, owner, wind0, w, i);
      PartlyStep(wind0, wind, wind0, w, i);
      LossStep(owner0, wind0, w, i, sent0);
      hit := wind[i] == w;
      if hit {
        Tell(i, w);
      }
    }

    /** The loop of SlctClear: it may stop at a count of zero, since then nothing is left. */
    method ClearAll(w: Window, ghost owner0: seq<Client>, ghost wind0: seq<Window>, ghost sent0: seq<Lost>)
      returns (i: nat)
      requires Valid() && w in nSelections && owner == owner0 && wind == wind0 && sent == sent0
      modifies this`owner, this`wind, this`nSelections, this`sent
      ensures Valid() && nSelections.Keys == old(nSelections).Keys
      ensures Partly(owner0, owner, wind0, w, i) && Partly(wind0, wind, wind0, w, i) && NoMore(wind0, w, i)
      ensures Told(sent0, sent, owner0, wind0, w, i)
    {
      i := 0;
      while i < |owner|
        invariant Valid() && nSelections.Keys == old(nSelections).Keys
        invariant Partly(owner0, owner, wind0, w, i) && Partly(wind0, wind, wind0, w, i)
        invariant Told(sent0, sent, owner0, wind0, w, i)
      {
        var hit := ClearAt(i, w, owner0, wind0, sent0);
        i := i + 1;
        if hit && nSelections[w] == 0 {
          NoneLeft(wind0, wind, w, i);
          return;
        }
      }
    }

    /** SlctClear */
    method Clear(w: Window)
      requires Valid() && w in nSelections
      modifies this`owner, this`wind, this`nSelections, this`sent
      ensures Valid() && nSelections.Keys == old(nSelections).Keys && nSelections[w] == 0
      ensures owner == Struck(old(owner), old(wind), w) && wind == Struck(old(wind), old(wind), w)
      ensures sent == old(sent) + Losses(old(owner), old(wind), w, |owner|)
    {
      ghost var owner0, wind0 := owner, wind;
      var i := ClearAll(w, owner0, wind0, sent);
      Cleared(owner0, owner, wind0, wind, w, i);
    }

    /** Atom i passes from its owner, if any, to c with the window w, or to nobody. */
    method Pass(i: nat, c: Client, w: Window)
      requires Valid() && i < |owner| && c in clients && (w == 0 || w in nSelections)
      modifies this`owner, this`wind, this`nSelections
      ensures Valid() && nSelections.Keys == old(nSelections).Keys
      ensures owner == old(owner)[i := if w == 0 then 0 else c] && wind == old(wind)[i := w]
    {
      Overwrite(owner, i, 0, if w == 0 then 0 else c);
      Overwrite(wind, i, 0, w);
      if owner[i] != 0 {
        Lose(i);
      }
      if w != 0 {
        Gain(i, c, w);
      }
    }

    /**
     RQ_SetSelectionOwner of client c; window 0 is None and time 0 is CurrentTime. Nothing happens
     for a time before the last change or in the future, and a previous owner other than the new
     one is told.
     */
    method SetOwner(c: Client, atom: nat, window: Window, when: nat) returns (status: Status, done: bool)
      requires Valid() && c in clients
      modifies this`owner, this`wind, this`time, this`nSelections, this`sent
      ensures Valid() && nSelections.Keys == old(nSelections).Keys
      ensures status == (if !(0 < atom < old(|owner|)) then BadAtom
                         else if window != 0 && window !in old(nSelections) then BadWindow else Success)
      ensures done <==> status == Success && old(time)[atom] <= (if when == 0 then now else when) <= now
      ensures !done ==> owner == old(owner) && wind == old(wind) && time == old(time) && sent == old(sent)
      ensures done ==>
                && owner == old(owner)[atom := if window == 0 then 0 else c]
                && wind == old(wind)[atom := window]
                && time == old(time)[atom := if when == 0 then now else when]
                && sent == old(sent) + if old(owner)[atom] == 0 || old(owner)[atom] == c then []
                                       else [Lost(old(owner)[atom], old(wind)[atom], atom)]
      ensures Later(old(time), time)
    {
      done := false;
      if !(0 < atom < |owner|) {
        return BadAtom, done;
      }
      if window != 0 && window !in nSelections {
        return BadWindow, done;
      }
      status := Success;
      var t := if when == 0 then now else when;
      if !(t < time[atom] || t > now) {
        if owner[atom] != 0 && owner[atom] != c {
          sent := sent + [Lost(owner[atom], wind[atom], atom)];
        }
        Pass(atom, c, window);
        time := time[atom := t];
        done := true;
      }
    }

    method Gain(i: nat, c: Client, w: Window)
      requires Valid() && i < |owner| && owner[i] == 0 && c in clients && w in nSelections
      modifies this`owner, this`wind, this`nSelections
      ensures Valid() && nSelections.Keys == old(nSelections).Keys
      ensures owner == old(owner)[i := c] && wind == old(wind)[i := w]
    {
      GainOne(owner, wind, nSelections, clients, i, c, w);
      wind := wind[i := w];
      owner := owner[i := c];
      nSelections := nSelections[w := nSelections[w] + 1];
    }

    /** AtomGet gives a new atom no owner and no time. */
    method Intern()
      requires Valid()
      modifies this`owner, this`wind, this`time
      ensures Valid() && owner == old(owner) + [0] && wind == old(wind) + [0] && time == old(time) + [0]
    {
      owner, wind, time := owner + [0], wind + [0], time + [0];
    }

    /** CreateWindow starts with a count of zero. */
    method WindowCreated(w: Window)
      requires Valid() && w != 0 && w !in nSelections
      modifies this`nSelections
      ensures Valid() && nSelections == old(nSelections)[w := 0]
    {
      assert w !in wind;
      NoneNamed(wind, w);
      nSelections := nSelections[w := 0];
    }

    method ClientConnected(c: Client)
      requires Valid() && c != 0
      modifies this`clients
      ensures Valid() && clients == old(clients) + {c}
    {
      clients := clients + {c};
    }

    method Tick(later: nat)
      requires Valid() && later >= now
      modifies this`now
      ensures Valid() && now == later
    {
      now := later;
    }

    /** The end of a client. */
    method ClientGone(c: Client)
      requires Valid() && c in clients
      modifies this`owner, this`wind, this`nSelections, this`clients
      ensures Valid() && clients == old(clients) - {c} && time == old(time)
      ensures owner == Struck(old(owner), old(owner), c) && wind == Struck(old(wind), old(owner), c)
    {
      Remove(c);
      clients := clients - {c};
    }

    /** WindDelete: the selections of a window go before its struct is freed. */
    method WindowGone(w: Window)
      requires Valid() && w in nSelections
      modifies this`owner, this`wind, this`nSelections, this`sent
      ensures Valid() && nSelections.Keys == old(nSelections).Keys - {w}
      ensures owner == Struck(old(owner), old(wind), w) && wind == Struck(old(wind), old(wind), w)
      ensures sent == old(sent) + Losses(old(owner), old(wind), w, |owner|)
    {
      if nSelections[w] != 0 {
        Clear(w);
      } else {
        NoneNamed(wind, w);
        assert forall i | 0 <= i < |wind| :: wind[i] in wind;
        AllLosses(owner, wind, w, 0, |wind|);
      }
      NoneNamed(wind, w);
      Forget(owner, wind, nSelections, clients, w);
      nSelections := nSelections - {w};
    }
  }

  lemma Forget(owner: seq<Client>, wind: seq<Window>, n: map<Window, nat>, clients: set<Client>, w: Window)
    requires Tied(owner, wind, n, clients) && w in n && n[w] == 0
    ensures Tied(owner, wind, n - {w}, clients)
  {
    NoneNamed(wind, w);
    assert forall i | 0 <= i < |wind| :: wind[i] in wind;
  }
}
