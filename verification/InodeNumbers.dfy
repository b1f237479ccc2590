/** The persisted inode counter under concurrent creations (src/inode.c:11-18, src/super.c:44-48).

    inode_alloc takes a number under alloc_lock, but super_save copies the counter and writes the
    copy without a lock, so an older copy can be written last.  A mount takes the stored counter
    for the next number: it must be above every record in the store. */
module InodeNumbers {
  import opened InodeCache

  /** What a crash at this moment needs: no stored record has a number still to be given out. */
  predicate Durable(s: State) { forall i :: i in s.records ==> i < s.saved }

  /** The cache and the counter a mount finds after a crash. */
  function Remounted(s: State): State {
    State(map[], {}, multiset{}, {}, s.records, s.records, s.saved, s.saved, 0, map[])
  }

  /** The mounted state satisfies what every run starts from exactly when the counter is durable. */
  lemma RemountedExact(s: State)
    ensures Init(Remounted(s)) <==> Durable(s)
  {
  }

  /** A number that is taken and has no record yet. */
  predicate InFlight(pc: Pc) { pc.Taken? || pc.Saving? || pc.Allocated? }

  /** Numbers given out, and copies of the counter, are never above the counter itself. */
  ghost predicate Ledger(s: State) {
    && (forall i :: i in s.records ==> i < s.nextIno)
    && (forall t :: t in s.pcs && s.pcs[t].Saving? ==> s.pcs[t].ino < s.pcs[t].next <= s.nextIno)
  }

  lemma LedgerStays(s: State, a: Action)
    requires Inv(s) && Ledger(s) && Enabled(s, a)
    ensures Ledger(Do(s, a))
  {
    hide Inv, Enabled, Do, Below;
    var s' := Do(s, a);
    StepBelow(s, a);
    CounterGrows(s, a);
    forall i | i in s'.records ensures i < s'.nextIno {
      RecordFrom(s, a, i);
    }
    forall t | t in s'.pcs && s'.pcs[t].Saving? ensures s'.pcs[t].ino < s'.pcs[t].next <= s'.nextIno {
      SavingFrom(s, a, t);
    }
  }

  lemma CounterGrows(s: State, a: Action)
    requires Enabled(s, a)
    ensures s.nextIno <= Do(s, a).nextIno
  {
  }

  /** The number a step writes a record or copies the counter for is below the counter. */
  predicate Below(s: State, a: Action)
    requires a.SyncWrite? ==> a.q in s.heap
    requires a.CounterRead? || a.CreateSave? ==> a.t in s.pcs && InFlight(s.pcs[a.t])
  {
    match a
    case SyncWrite(q) => s.heap[q].ino < s.nextIno
    case CounterRead(t) => s.pcs[t].ino < s.nextIno
    case CreateSave(t) => s.pcs[t].ino < s.nextIno
    case _ => true
  }

  lemma StepBelow(s: State, a: Action)
    requires Inv(s) && Enabled(s, a)
    ensures Below(s, a)
  {
    if a.SyncWrite? {
      HeldPublished(s, a.q);
    }
  }

  /** A record is an old one, or of a number below the counter. */
  lemma RecordFrom(s: State, a: Action, i: nat)
    requires Enabled(s, a) && Below(s, a) && i in Do(s, a).records
    ensures i in s.records || i < s.nextIno
  {
  }

  /** A copy of the counter is an old one, or was just made. */
  lemma SavingFrom(s: State, a: Action, t: Tid)
    requires Enabled(s, a) && Below(s, a) && t in Do(s, a).pcs && Do(s, a).pcs[t].Saving?
    ensures (t in s.pcs && Do(s, a).pcs[t] == s.pcs[t]) || Do(s, a).pcs[t].ino < Do(s, a).pcs[t].next == s.nextIno
  {
  }

  lemma HeldPublished(s: State, q: Ptr)
    requires Inv(s) && q in s.held
    ensures q in s.heap && s.heap[q].ino < s.nextIno
  {
  }

  /** The stored counter is above every record and every number about to get one, and so is each
      copy of the counter that is still to be written. */
  ghost predicate Settled(s: State) {
    && Durable(s)
    && (forall t :: t in s.pcs && s.pcs[t].Allocated? ==> s.pcs[t].ino < s.saved)
    && (forall t, i :: t in s.pcs && s.pcs[t].Saving? && i in s.records ==> i < s.pcs[t].next)
    && (forall t, u :: t in s.pcs && s.pcs[t].Saving? && u in s.pcs && InFlight(s.pcs[u]) ==> s.pcs[u].ino < s.pcs[t].next)
  }

  /** No copy of the counter waits to be written. */
  ghost predicate NobodySaving(s: State) { forall t :: t in s.pcs ==> !s.pcs[t].Saving? }

  predicate Allocates(a: Action) { a.CreateAlloc? || a.CounterRead? || a.CounterWrite? || a.CreateSave? }

  /** Apart from what allocation does, a step makes no record and leaves the counter. */
  lemma OtherRecords(s: State, a: Action)
    requires Enabled(s, a) && Clean(s) && !a.MarkDirty? && !Allocates(a)
    ensures Do(s, a).saved == s.saved && Do(s, a).records <= s.records
  {
  }

  /** Nor does it give out a number. */
  lemma OtherNumbers(s: State, a: Action, u: Tid)
    requires Enabled(s, a) && !Allocates(a) && u in Do(s, a).pcs && InFlight(Do(s, a).pcs[u])
    ensures u in s.pcs && s.pcs[u] == Do(s, a).pcs[u]
  {
  }

  lemma SettledStays(s: State, a: Action)
    requires Inv(s) && Ledger(s) && Clean(s) && Settled(s) && Enabled(s, a) && !a.MarkDirty?
    requires a.CreateAlloc? ==> NobodySaving(s)
    ensures Settled(Do(s, a))
  {
    hide Safe, Private, SameCreation;
    if !Allocates(a) {
      OtherRecords(s, a);
      forall u | u in Do(s, a).pcs && InFlight(Do(s, a).pcs[u])
        ensures u in s.pcs && s.pcs[u] == Do(s, a).pcs[u]
      {
        OtherNumbers(s, a, u);
      }
      hide Do;
    }
  }

  // ---- when the numbers in flight can do no harm ----

  /** Nobody takes another number, and nobody sets the dirty flag. */
  predicate Quiet(run: seq<Action>) {
    forall i :: 0 <= i < |run| ==> !run[i].CreateAlloc? && !run[i].MarkDirty?
  }

  lemma {:induction false} SettledRun(s: State, run: seq<Action>)
    requires Inv(s) && Ledger(s) && Clean(s) && Settled(s) && CanRun(s, run) && Quiet(run)
    ensures Settled(After(s, run))
    decreases |run|
  {
    hide Settled, Ledger, Inv, Do;
    if run != [] {
      StepInv(s, run[0]);
      LedgerStays(s, run[0]);
      CleanStays(s, run[0]);
      SettledStays(s, run[0]);
      assert forall i :: 0 <= i < |run[1..]| ==> run[1..][i] == run[i + 1];
      SettledRun(Do(s, run[0]), run[1..]);
    }
  }

  /** Thread u gets its record, by its own steps alone. */
  lemma Commit(s: State, u: Tid) returns (run: seq<Action>)
    requires u in s.pcs && InFlight(s.pcs[u])
    ensures Quiet(run) && CanRun(s, run) && s.pcs[u].ino in After(s, run).records
    ensures forall t :: t in s.pcs && t != u ==> t in After(s, run).pcs && After(s, run).pcs[t] == s.pcs[t]
  {
    run := [];
    if s.pcs[u].Taken? {
      run := Extend(s, run, CounterRead(u));
    }
    if !s.pcs[u].Allocated? {
      run := Extend(s, run, CounterWrite(u));
    }
    run := Extend(s, run, CreateSave(u));
  }

  /** A copy that is not above a record, when it is written. */
  lemma StaleWrite(s: State, t: Tid, i: nat)
    requires t in s.pcs && s.pcs[t].Saving? && i in s.records && i >= s.pcs[t].next
    ensures Enabled(s, CounterWrite(t)) && !Durable(Do(s, CounterWrite(t)))
  {
    assert i in Do(s, CounterWrite(t)).records;
  }

  lemma Unsettled(s: State) returns (run: seq<Action>)
    requires Ledger(s) && !Settled(s)
    ensures Quiet(run) && CanRun(s, run) && !Durable(After(s, run))
  {
    if !Durable(s) {
      run := [];
    } else if t :| t in s.pcs && s.pcs[t].Allocated? && s.pcs[t].ino >= s.saved {
      run := Extend(s, [], CreateSave(t));
      assert s.pcs[t].ino in After(s, run).records;
    } else if t, i :| t in s.pcs && s.pcs[t].Saving? && i in s.records && i >= s.pcs[t].next {
      StaleWrite(s, t, i);
      run := Extend(s, [], CounterWrite(t));
    } else {
      var t, u :| t in s.pcs && s.pcs[t].Saving? && u in s.pcs && InFlight(s.pcs[u]) && s.pcs[u].ino >= s.pcs[t].next;
      var first := Commit(s, u);
      StaleWrite(After(s, first), t, s.pcs[u].ino);
      run := Extend(s, first, CounterWrite(t));
    }
  }

  /** However the creations under way go on, the counter stays above every record exactly when
      neither the stored counter nor a copy still to be written is behind a record or behind
      another thread's number. */
  lemma CounterExact(s: State)
    requires Inv(s) && Ledger(s) && Clean(s)
    ensures (forall run :: CanRun(s, run) && Quiet(run) ==> Durable(After(s, run))) <==> Settled(s)
  {
    hide Inv, Ledger, Do;
    if Settled(s) {
      forall run | CanRun(s, run) && Quiet(run) ensures Durable(After(s, run)) {
        SettledRun(s, run);
      }
    } else {
      var run := Unsettled(s);
      assert CanRun(s, run) && Quiet(run) && !Durable(After(s, run));
    }
  }

  // ---- whole runs ----

  /** Every state that runs without MarkDirty reach meets the conditions of CounterExact. */
  lemma Reached(s: State, run: seq<Action>)
    requires Init(s) && CanRun(s, run) && Unmarked(run)
    ensures Inv(After(s, run)) && Ledger(After(s, run)) && Clean(After(s, run))
  {
    InitInv(s);
    ReachedFrom(s, run);
  }

  lemma {:induction false} ReachedFrom(s: State, run: seq<Action>)
    requires Inv(s) && Ledger(s) && Clean(s) && CanRun(s, run) && Unmarked(run)
    ensures Inv(After(s, run)) && Ledger(After(s, run)) && Clean(After(s, run))
    decreases |run|
  {
    hide Ledger, Inv, Do;
    if run != [] {
      StepInv(s, run[0]);
      LedgerStays(s, run[0]);
      CleanStays(s, run[0]);
      assert forall i :: 0 <= i < |run[1..]| ==> run[1..][i] == run[i + 1];
      ReachedFrom(Do(s, run[0]), run[1..]);
    }
  }

  /** Every number is taken while no copy of the counter waits to be written. */
  ghost predicate Serial(s: State, run: seq<Action>)
    requires CanRun(s, run)
    decreases |run|
  {
    run == [] || ((run[0].CreateAlloc? ==> NobodySaving(s)) && Serial(Do(s, run[0]), run[1..]))
  }

  lemma {:induction false} SerialRun(s: State, run: seq<Action>)
    requires Inv(s) && Ledger(s) && Clean(s) && Settled(s) && CanRun(s, run) && Unmarked(run) && Serial(s, run)
    ensures Settled(After(s, run))
    decreases |run|
  {
    hide Settled, Ledger, Inv, Do, NobodySaving;
    if run != [] {
      StepInv(s, run[0]);
      LedgerStays(s, run[0]);
      CleanStays(s, run[0]);
      SettledStays(s, run[0]);
      assert forall i :: 0 <= i < |run[1..]| ==> run[1..][i] == run[i + 1];
      SerialRun(Do(s, run[0]), run[1..]);
    }
  }

  /** Were super_save inside alloc_lock, a crash at any moment of any run could be mounted
      without using a number twice. */
  lemma SerialDurable(s: State, run: seq<Action>)
    requires Init(s) && CanRun(s, run) && Unmarked(run) && Serial(s, run)
    ensures Durable(After(s, run)) && Init(Remounted(After(s, run)))
  {
    InitInv(s);
    SerialRun(s, run);
  }

  /** As it is, two creations are enough: the first copies the counter, the second takes the next
      number, saves the counter and its record, then the first writes its copy.  After a crash
      the next mount gives that number out again. */
  lemma NumberReused(s: State)
    requires s == State(map[], {}, multiset{}, {}, {1}, {1}, 2, 2, 0, map[])
    ensures Init(s)
    ensures exists run :: CanRun(s, run) && Unmarked(run) && Remounted(After(s, run)).nextIno in After(s, run).records
  {
    var run := Extend(s, [], CreateAlloc(0));
    run := Extend(s, run, CounterRead(0));
    run := Extend(s, run, CreateAlloc(1));
    run := Extend(s, run, CounterRead(1));
    run := Extend(s, run, CounterWrite(1));
    run := Extend(s, run, CreateSave(1));
    assert 3 in After(s, run).records && After(s, run).pcs[0] == Saving(2, 3);
    run := Extend(s, run, CounterWrite(0));
    assert After(s, run).saved == 3 && 3 in After(s, run).records;
  }
}
