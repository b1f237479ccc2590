/** Poll handles of processes that wait for a generation to end (src/llm.c:239-319).  The
    handles given to the table and the handles destroyed are counted by ghost multisets. */
module PollWaiters {

  const MAX_POLL_WAITERS: nat := 16

  datatype Gen = Gen(ino: nat, generating: bool, waiters: seq<nat>)

  ghost function Held(gens: seq<Gen>): multiset<nat> {
    if gens == [] then multiset{} else multiset(gens[0].waiters) + Held(gens[1..])
  }

  lemma {:induction false} HeldUpdate(gens: seq<Gen>, i: nat, g: Gen)
    requires i < |gens|
    ensures Held(gens[i := g]) + multiset(gens[i].waiters) == Held(gens) + multiset(g.waiters)
  {
    var gens' := gens[i := g];
    if i == 0 {
      var a, b, r := multiset(g.waiters), multiset(gens[0].waiters), Held(gens[1..]);
      assert gens'[1..] == gens[1..] && gens'[0] == g;
      assert Held(gens') == a + r && Held(gens) == b + r;
      assert a + r + b == b + r + a;
    } else {
      assert gens'[1..] == gens[1..][i - 1 := g];
      HeldUpdate(gens[1..], i - 1, g);
      var a, b, w := multiset(g.waiters), multiset(gens[i].waiters), multiset(gens[0].waiters);
      var r, r' := Held(gens[1..]), Held(gens'[1..]);
      assert Held(gens') == w + r' && Held(gens) == w + r;
      assert w + r' + b == w + (r' + b) && w + r + a == w + (r + a);
    }
  }

  lemma Cancel(a: multiset<nat>, b: multiset<nat>, w: multiset<nat>)
    requires a + w == b + w
    ensures a == b
  {
    forall x: nat
      ensures a[x] == b[x]
    {
      assert (a + w)[x] == (b + w)[x];
    }
  }

  /** Handles leave the table as they are destroyed. */
  lemma HeldCleared(gens: seq<Gen>, i: nat, g: Gen, given: multiset<nat>, destroyed: multiset<nat>)
    requires i < |gens| && g.waiters == [] && given == destroyed + Held(gens)
    ensures given == destroyed + multiset(gens[i].waiters) + Held(gens[i := g])
  {
    HeldUpdate(gens, i, g);
    var w, h' := multiset(gens[i].waiters), Held(gens[i := g]);
    assert multiset(g.waiters) == multiset{};
    assert destroyed + w + h' == destroyed + (h' + w);
  }

  lemma HeldKept(gens: seq<Gen>, i: nat, g: Gen)
    requires i < |gens| && g.waiters == gens[i].waiters
    ensures Held(gens[i := g]) == Held(gens)
  {
    HeldUpdate(gens, i, g);
    Cancel(Held(gens[i := g]), Held(gens), multiset(g.waiters));
  }

  lemma HeldMore(gens: seq<Gen>, i: nat, ph: nat)
    requires i < |gens|
    ensures Held(gens[i := gens[i].(waiters := gens[i].waiters + [ph])]) == Held(gens) + multiset{ph}
  {
    var w := multiset(gens[i].waiters);
    var g := gens[i].(waiters := gens[i].waiters + [ph]);
    HeldUpdate(gens, i, g);
    assert multiset(g.waiters) == w + multiset{ph};
    assert Held(gens) + (w + multiset{ph}) == Held(gens) + multiset{ph} + w;
    Cancel(Held(gens[i := g]), Held(gens) + multiset{ph}, w);
  }

  lemma {:induction false} HeldAppend(gens: seq<Gen>, g: Gen)
    ensures Held(gens + [g]) == Held(gens) + multiset(g.waiters)
  {
    if gens == [] {
      assert gens + [g] == [g] && [g][1..] == [];
    } else {
      assert (gens + [g])[1..] == gens[1..] + [g];
      HeldAppend(gens[1..], g);
    }
  }

  /** The record of an inode, if it has one. */
  predicate Active(gens: seq<Gen>, ino: nat) { exists i :: 0 <= i < |gens| && gens[i].ino == ino && gens[i].generating }

  /** The handles the table holds for an inode. */
  function WaitersOf(gens: seq<Gen>, ino: nat): seq<nat> {
    if gens == [] then []
    else if gens[0].ino == ino then gens[0].waiters
    else WaitersOf(gens[1..], ino)
  }

  lemma {:induction false} WaitersAt(gens: seq<Gen>, ino: nat, k: nat)
    requires k <= |gens| && (k < |gens| ==> gens[k].ino == ino)
    requires forall i :: 0 <= i < |gens| && i != k ==> gens[i].ino != ino
    ensures WaitersOf(gens, ino) == if k < |gens| then gens[k].waiters else []
  {
    if gens != [] && gens[0].ino != ino { WaitersAt(gens[1..], ino, k - 1); }
  }

  /** Replacing or adding the record of one inode leaves the handles of the others. */
  lemma {:induction false} OtherWaiters(gs: seq<Gen>, gs': seq<Gen>, k: nat, ino: nat, j: nat)
    requires k < |gs'| && |gs| <= |gs'| <= |gs| + 1 && gs'[k].ino == ino && (k < |gs| ==> gs[k].ino == ino)
    requires |gs'| == |gs| + 1 ==> k == |gs|
    requires forall i :: 0 <= i < |gs| && i != k ==> gs'[i] == gs[i]
    requires j != ino
    ensures WaitersOf(gs', j) == WaitersOf(gs, j)
  {
    if k > 0 {
      assert gs'[0] == gs[0];
      OtherWaiters(gs[1..], gs'[1..], k - 1, ino, j);
    } else if gs != [] {
      assert gs'[1..] == gs[1..];
    } else {
      assert gs'[1..] == [];
    }
  }

  lemma OthersKept(gs: seq<Gen>, gs': seq<Gen>, k: nat, ino: nat)
    requires k < |gs'| && |gs| <= |gs'| <= |gs| + 1 && gs'[k].ino == ino && (k < |gs| ==> gs[k].ino == ino)
    requires |gs'| == |gs| + 1 ==> k == |gs|
    requires forall i :: 0 <= i < |gs| && i != k ==> gs'[i] == gs[i]
    ensures forall j: nat :: j != ino ==> WaitersOf(gs', j) == WaitersOf(gs, j)
  {
    forall j: nat | j != ino
      ensures WaitersOf(gs', j) == WaitersOf(gs, j)
    {
      OtherWaiters(gs, gs', k, ino, j);
    }
  }

  class Waiters {
    var gens: seq<Gen>
    ghost var given: multiset<nat>
    ghost var destroyed: multiset<nat>
    ghost var notified: multiset<nat>

    /** Every handle given to the table is either held by it or has been destroyed, as often
        as it was given; only destroyed handles were notified. */
    ghost predicate Valid()
      reads this
    {
      && (forall i, j :: 0 <= i < j < |gens| ==> gens[i].ino != gens[j].ino)
      && (forall i :: 0 <= i < |gens| ==> |gens[i].waiters| <= MAX_POLL_WAITERS)
      && given == destroyed + Held(gens)
      && notified <= destroyed
    }

    constructor ()
      ensures Valid() && gens == [] && given == multiset{}
    {
      gens, given, destroyed, notified := [], multiset{}, multiset{}, multiset{};
    }

    /** gen_state_find. */
    method Find(ino: nat) returns (k: nat)
      requires Valid()
      ensures k <= |gens| && (k < |gens| ==> gens[k].ino == ino)
      ensures k == |gens| ==> forall i :: 0 <= i < |gens| ==> gens[i].ino != ino
    {
      k := 0;
      while k < |gens| && gens[k].ino != ino
        invariant 0 <= k <= |gens|
        invariant forall i :: 0 <= i < k ==> gens[i].ino != ino
      {
        k := k + 1;
      }
    }

    /** llm_gen_start. */
    method Start(ino: nat)
      requires Valid()
      modifies this
      ensures Valid() && Active(gens, ino)
      ensures given == old(given) && destroyed == old(destroyed) && notified == old(notified)
      ensures forall j: nat :: j != ino ==> (Active(gens, j) <==> old(Active(gens, j)))
      ensures forall j: nat :: WaitersOf(gens, j) == old(WaitersOf(gens, j))
    {
      hide Held, Active, WaitersOf;
      var k := Find(ino);
      ghost var gs := gens;
      if k == |gens| {
        HeldAppend(gens, Gen(ino, true, []));
        assert multiset(Gen(ino, true, []).waiters) == multiset{};
        gens := gens + [Gen(ino, true, [])];
      } else {
        HeldKept(gens, k, gens[k].(generating := true));
        gens := gens[k := gens[k].(generating := true)];
      }
      IsActiveAt(gens, k);
      OthersActive(gs, gens, k, ino);
      OthersKept(gs, gens, k, ino);
      WaitersAt(gs, ino, k);
      WaitersAt(gens, ino, k);
    }

    /** The loop of llm_gen_finish over the waiters of one record. */
    method NotifyAll(ws: seq<nat>)
      modifies `destroyed, `notified
      ensures destroyed == old(destroyed) + multiset(ws) && notified == old(notified) + multiset(ws)
    {
      var i := 0;
      while i < |ws|
        invariant 0 <= i <= |ws|
        invariant destroyed == old(destroyed) + multiset(ws[..i])
        invariant notified == old(notified) + multiset(ws[..i])
      {
        assert ws[..i + 1] == ws[..i] + [ws[i]];
        notified := notified + multiset{ws[i]};
        destroyed := destroyed + multiset{ws[i]};
        i := i + 1;
      }
      assert ws[..i] == ws;
    }

    /** llm_gen_finish: every waiter is notified, then destroyed. */
    method Finish(ino: nat)
      requires Valid()
      modifies this
      ensures Valid() && !Active(gens, ino) && given == old(given)
      ensures WaitersOf(gens, ino) == []
      ensures destroyed == old(destroyed) + multiset(WaitersOf(old(gens), ino))
      ensures notified == old(notified) + multiset(WaitersOf(old(gens), ino))
      ensures forall j: nat :: j != ino ==> (Active(gens, j) <==> old(Active(gens, j)))
      ensures forall j: nat :: j != ino ==> WaitersOf(gens, j) == old(WaitersOf(gens, j))
    {
      hide Held, WaitersOf;
      var k := Find(ino);
      ghost var gs := gens;
      WaitersAt(gs, ino, k);
      if k < |gens| {
        hide Active;
        HeldCleared(gens, k, Gen(ino, false, []), given, destroyed);
        NotifyAll(gens[k].waiters);
        gens := gens[k := Gen(ino, false, [])];
        OthersActive(gs, gens, k, ino);
        NotActive(gens, k);
        OthersKept(gs, gens, k, ino);
        WaitersAt(gens, ino, k);
      }
    }

    /** llm_gen_is_active. */
    method IsActive(ino: nat) returns (active: bool)
      requires Valid()
      ensures active <==> Active(gens, ino)
    {
      var k := Find(ino);
      active := k < |gens| && gens[k].generating;
    }

    /** llm_gen_add_waiter: a handle that finds no record or a full one is destroyed at once. */
    method AddWaiter(ino: nat, ph: nat)
      requires Valid()
      modifies this
      ensures Valid() && given == old(given) + multiset{ph} && notified == old(notified)
      ensures destroyed == if HasRoom(old(gens), ino) then old(destroyed) else old(destroyed) + multiset{ph}
      ensures WaitersOf(gens, ino) == WaitersOf(old(gens), ino) + if HasRoom(old(gens), ino) then [ph] else []
      ensures forall j: nat :: j != ino ==> WaitersOf(gens, j) == old(WaitersOf(gens, j))
      ensures forall j: nat :: Active(gens, j) <==> old(Active(gens, j))
    {
      hide Held, WaitersOf, Active, HasRoom;
      var k := Find(ino);
      RoomAt(gens, ino, k);
      OneGiven(given, destroyed, Held(gens), notified, ph);
      if k < |gens| && |gens[k].waiters| < MAX_POLL_WAITERS {
        OneMore(gens, k, ph);
        gens := gens[k := gens[k].(waiters := gens[k].waiters + [ph])];
      } else {
        destroyed := destroyed + multiset{ph};
      }
      given := given + multiset{ph};
    }

    /** llm_gen_destroy: afterwards every handle ever given has been destroyed, exactly as
        often as it was given. */
    method DestroyAll()
      requires Valid()
      modifies this
      ensures Valid() && gens == [] && given == old(given) && destroyed == given
    {
      hide Held;
      while gens != []
        invariant Valid() && given == old(given)
        decreases |gens|
      {
        HeldHead(gens);
        Release(gens[0].waiters);
        gens := gens[1..];
      }
      assert Held(gens) == multiset{} by { HeldNone(); }
    }

    method Release(ws: seq<nat>)
      modifies `destroyed
      ensures destroyed == old(destroyed) + multiset(ws)
    {
      var i := 0;
      while i < |ws|
        invariant 0 <= i <= |ws|
        invariant destroyed == old(destroyed) + multiset(ws[..i])
      {
        assert ws[..i + 1] == ws[..i] + [ws[i]];
        destroyed := destroyed + multiset{ws[i]};
        i := i + 1;
      }
      assert ws[..i] == ws;
    }
  }

  predicate HasRoom(gens: seq<Gen>, ino: nat) {
    exists i :: 0 <= i < |gens| && gens[i].ino == ino && |gens[i].waiters| < MAX_POLL_WAITERS
  }

  lemma RoomAt(gens: seq<Gen>, ino: nat, k: nat)
    requires k <= |gens| && (k < |gens| ==> gens[k].ino == ino)
    requires forall i :: 0 <= i < |gens| && i != k ==> gens[i].ino != ino
    ensures HasRoom(gens, ino) <==> k < |gens| && |gens[k].waiters| < MAX_POLL_WAITERS
  {
  }

  /** One more handle in the record of an inode. */
  lemma OneMore(gens: seq<Gen>, k: nat, ph: nat)
    requires k < |gens| && forall i :: 0 <= i < |gens| && i != k ==> gens[i].ino != gens[k].ino
    ensures var gens', ino := gens[k := gens[k].(waiters := gens[k].waiters + [ph])], gens[k].ino;
      && Held(gens') == Held(gens) + multiset{ph}
      && WaitersOf(gens', ino) == WaitersOf(gens, ino) + [ph]
      && (forall j: nat :: j != ino ==> WaitersOf(gens', j) == WaitersOf(gens, j))
      && (forall j: nat :: Active(gens', j) <==> Active(gens, j))
  {
    hide Held, WaitersOf;
    var gens', ino := gens[k := gens[k].(waiters := gens[k].waiters + [ph])], gens[k].ino;
    HeldMore(gens, k, ph);
    WaitersAt(gens, ino, k);
    WaitersAt(gens', ino, k);
    OthersKept(gens, gens', k, ino);
    OthersActive(gens, gens', k, ino);
    assert gens'[k].generating == gens[k].generating;
  }

  lemma OneGiven(given: multiset<nat>, destroyed: multiset<nat>, held: multiset<nat>, notified: multiset<nat>, ph: nat)
    requires given == destroyed + held && notified <= destroyed
    ensures given + multiset{ph} == destroyed + (held + multiset{ph}) == destroyed + multiset{ph} + held
    ensures notified <= destroyed + multiset{ph}
  {
  }

  lemma HeldHead(gens: seq<Gen>)
    requires gens != []
    ensures Held(gens) == multiset(gens[0].waiters) + Held(gens[1..])
  {
  }

  lemma HeldNone()
    ensures Held([]) == multiset{}
  {
  }

  lemma IsActiveAt(gens: seq<Gen>, k: nat)
    requires k < |gens| && gens[k].generating
    ensures Active(gens, gens[k].ino)
  {
  }

  lemma NotActive(gens: seq<Gen>, k: nat)
    requires k < |gens| && !gens[k].generating
    requires forall i :: 0 <= i < |gens| && i != k ==> gens[i].ino != gens[k].ino
    ensures !Active(gens, gens[k].ino)
  {
  }

  lemma OthersActive(gs: seq<Gen>, gs': seq<Gen>, k: nat, ino: nat)
    requires k < |gs'| && |gs| <= |gs'| <= |gs| + 1 && gs'[k].ino == ino && (k < |gs| ==> gs[k].ino == ino)
    requires |gs'| == |gs| + 1 ==> k == |gs|
    requires forall i :: 0 <= i < |gs| && i != k ==> gs'[i] == gs[i]
    ensures forall j: nat :: j != ino ==> (Active(gs', j) <==> Active(gs, j))
  {
    forall j: nat | j != ino
      ensures Active(gs', j) <==> Active(gs, j)
    {
      if Active(gs', j) {
        var i :| 0 <= i < |gs'| && gs'[i].ino == j && gs'[i].generating;
        assert gs[i] == gs'[i];
      }
      if Active(gs, j) {
        var i :| 0 <= i < |gs| && gs[i].ino == j && gs[i].generating;
        assert gs'[i] == gs[i];
      }
    }
  }
}
