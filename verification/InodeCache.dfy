/** The inode cache as a concurrent protocol (src/inode.c:48-256).

    Each action is what one thread does under one hold of icache_lock or alloc_lock, or in
    one access to the store; between two actions any other thread may run.  The table is a
    set of entries, as a uthash table can hold two entries of one key: that it never does is
    a theorem.  A handle is a pointer returned by inode_get, inode_create or taken by
    inode_sync_all and not yet given to inode_put; handles may change threads. */
module InodeCache {

  type Ptr = nat
  type Tid = nat

  datatype CacheEntry = CacheEntry(ino: nat, refcount: nat, deleted: bool)

  /** Where a thread is inside an operation, and the entry only it can reach. */
  datatype Pc =
    | GetMissed(ino: nat)             // inode_get: not found in the cache
    | GetLoaded(ino: nat, p: Ptr)     // inode_get: record loaded into a private entry
    | PutFreeing(p: Ptr)              // inode_put: entry unlinked, about to be freed
    | DelFreeing(ino: nat, p: Ptr)    // inode_delete: entry unlinked, about to be freed
    | DelStore(ino: nat)              // inode_delete: about to delete the record
    | Taken(ino: nat)                 // inode_alloc: number taken, counter not saved
    | Saving(ino: nat, next: nat)     // super_save: counter copied, about to be written
    | Allocated(ino: nat)             // inode_create: counter saved
    | Created(ino: nat, p: Ptr)       // inode_create: record saved

  datatype State = State(
    heap: map<Ptr, CacheEntry>,   // allocated entries; a pointer outside was freed or never given out
    table: set<Ptr>,              // entries linked into the hash table
    held: multiset<Ptr>,          // outstanding handles
    dirty: set<Ptr>,              // entries with the dirty flag
    records: set<nat>,            // inode records in the store
    published: set<nat>,          // numbers whose creation has returned
    nextIno: nat,
    saved: nat,                   // the counter in the stored superblock
    nextPtr: Ptr,
    pcs: map<Tid, Pc>)            // threads inside an operation

  datatype Action =
    | GetLookup(t: Tid, ino: nat)     // first critical section of inode_get
    | GetLoad(t: Tid)                 // kv_get of the record
    | GetInsert(t: Tid)               // second critical section of inode_get
    | Put(t: Tid, q: Ptr)             // critical section of inode_put
    | Free(t: Tid)                    // free after inode_put or inode_delete unlinked
    | CreateAlloc(t: Tid)             // inode_alloc, under alloc_lock
    | CounterRead(t: Tid)             // super_save copies the counter, without a lock
    | CounterWrite(t: Tid)            // kv_put of the copy
    | CreateSave(t: Tid)              // inode_save of the new record
    | CreateInsert(t: Tid)            // critical section of inode_create
    | DeleteMark(t: Tid, ino: nat)    // critical section of inode_delete
    | DeleteRecord(t: Tid)            // kv_delete of the record
    | SyncCollect(ps: set<Ptr>)       // inode_sync_all takes a reference on dirty entries
    | MarkDirty(q: Ptr)               // inode_mark_dirty, by a holder of a handle
    | SyncWrite(q: Ptr)               // inode_sync of a dirty entry, by a holder of a handle

  /** The entries HASH_FIND can return for ino. */
  function Found(s: State, ino: nat): set<Ptr> {
    set p | p in s.table && p in s.heap && s.heap[p].ino == ino
  }

  ghost function Find(s: State, ino: nat): Ptr
    requires Found(s, ino) != {}
  {
    var p :| p in Found(s, ino); p
  }

  ghost predicate Enabled(s: State, a: Action) {
    match a
    case GetLookup(t, ino) => t !in s.pcs && ino in s.published
    case GetLoad(t) => t in s.pcs && s.pcs[t].GetMissed?
    case GetInsert(t) => t in s.pcs && s.pcs[t].GetLoaded? && s.pcs[t].p in s.heap
    case Put(t, q) => t !in s.pcs && q in s.held && q in s.heap
    case Free(t) => t in s.pcs && (s.pcs[t].PutFreeing? || s.pcs[t].DelFreeing?)
    case CreateAlloc(t) => t !in s.pcs
    case CounterRead(t) => t in s.pcs && s.pcs[t].Taken?
    case CounterWrite(t) => t in s.pcs && s.pcs[t].Saving?
    case CreateSave(t) => t in s.pcs && s.pcs[t].Allocated?
    case CreateInsert(t) => t in s.pcs && s.pcs[t].Created?
    case DeleteMark(t, ino) => t !in s.pcs && ino in s.published
    case DeleteRecord(t) => t in s.pcs && s.pcs[t].DelStore?
    case SyncCollect(ps) => ps <= s.table * s.dirty && forall p :: p in ps ==> p in s.heap && !s.heap[p].deleted
    case MarkDirty(q) => q in s.held && q in s.heap
    case SyncWrite(q) => q in s.held && q in s.heap && q in s.dirty
  }

  function Bump(heap: map<Ptr, CacheEntry>, p: Ptr): map<Ptr, CacheEntry>
    requires p in heap
  {
    heap[p := heap[p].(refcount := heap[p].refcount + 1)]
  }

  /** A hit on a live entry returns a handle, on a deleted one nothing; a miss goes to the store. */
  ghost function DoGetLookup(s: State, t: Tid, ino: nat): State
    requires Enabled(s, GetLookup(t, ino))
  {
    if Found(s, ino) == {} then s.(pcs := s.pcs[t := GetMissed(ino)])
    else
      var p := Find(s, ino);
      if s.heap[p].deleted then s
      else s.(heap := Bump(s.heap, p), held := s.held + multiset{p})
  }

  /** A record found in the store fills a new private entry. */
  ghost function DoGetLoad(s: State, t: Tid): State
    requires Enabled(s, GetLoad(t))
  {
    var ino := s.pcs[t].ino;
    if ino in s.records then
      s.(heap := s.heap[s.nextPtr := CacheEntry(ino, 1, false)], nextPtr := s.nextPtr + 1,
         dirty := s.dirty - {s.nextPtr}, pcs := s.pcs[t := GetLoaded(ino, s.nextPtr)])
    else s.(pcs := s.pcs - {t})
  }

  /** The double check: another thread may have cached or deleted the inode meanwhile. */
  ghost function DoGetInsert(s: State, t: Tid): State
    requires Enabled(s, GetInsert(t))
  {
    var p := s.pcs[t].p;
    if Found(s, s.pcs[t].ino) == {} then
      s.(table := s.table + {p}, held := s.held + multiset{p}, pcs := s.pcs - {t})
    else
      var q := Find(s, s.pcs[t].ino);
      if s.heap[q].deleted then s.(heap := s.heap - {p}, pcs := s.pcs - {t})
      else s.(heap := Bump(s.heap, q) - {p}, held := s.held + multiset{q}, pcs := s.pcs - {t})
  }

  /** The last reference to a deleted entry unlinks it. */
  ghost function DoPut(s: State, t: Tid, q: Ptr): State
    requires Enabled(s, Put(t, q))
  {
    var n := if s.heap[q].refcount > 0 then s.heap[q].refcount - 1 else 0;
    var s' := s.(heap := s.heap[q := s.heap[q].(refcount := n)], held := s.held - multiset{q});
    if n == 0 && s.heap[q].deleted then s'.(table := s.table - {q}, pcs := s.pcs[t := PutFreeing(q)]) else s'
  }

  /** Freeing an unlinked entry. */
  ghost function DoFree(s: State, t: Tid): State
    requires Enabled(s, Free(t))
  {
    var s' := s.(heap := s.heap - {s.pcs[t].p});
    if s.pcs[t].DelFreeing? then s'.(pcs := s.pcs[t := DelStore(s.pcs[t].ino)]) else s'.(pcs := s.pcs - {t})
  }

  /** Taking a number. */
  ghost function DoCreateAlloc(s: State, t: Tid): State
    requires Enabled(s, CreateAlloc(t))
  {
    s.(nextIno := s.nextIno + 1, pcs := s.pcs[t := Taken(s.nextIno)])
  }

  /** The copy another thread's allocation may already have outdated. */
  ghost function DoCounterRead(s: State, t: Tid): State
    requires Enabled(s, CounterRead(t))
  {
    s.(pcs := s.pcs[t := Saving(s.pcs[t].ino, s.nextIno)])
  }

  /** The copy becomes the stored counter, whatever is stored by then. */
  ghost function DoCounterWrite(s: State, t: Tid): State
    requires Enabled(s, CounterWrite(t))
  {
    s.(saved := s.pcs[t].next, pcs := s.pcs[t := Allocated(s.pcs[t].ino)])
  }

  /** Saving the record of the new inode. */
  ghost function DoCreateSave(s: State, t: Tid): State
    requires Enabled(s, CreateSave(t))
  {
    var ino := s.pcs[t].ino;
    s.(heap := s.heap[s.nextPtr := CacheEntry(ino, 1, false)], nextPtr := s.nextPtr + 1,
       dirty := s.dirty - {s.nextPtr}, records := s.records + {ino}, pcs := s.pcs[t := Created(ino, s.nextPtr)])
  }

  /** HASH_ADD without a check, then the creation returns. */
  ghost function DoCreateInsert(s: State, t: Tid): State
    requires Enabled(s, CreateInsert(t))
  {
    var p := s.pcs[t].p;
    s.(table := s.table + {p}, held := s.held + multiset{p}, published := s.published + {s.pcs[t].ino},
       pcs := s.pcs - {t})
  }

  /** Marks the entry deleted; an entry nobody holds is unlinked at once. */
  ghost function DoDeleteMark(s: State, t: Tid, ino: nat): State
    requires Enabled(s, DeleteMark(t, ino))
  {
    if Found(s, ino) == {} then s.(pcs := s.pcs[t := DelStore(ino)])
    else
      var p := Find(s, ino);
      var s' := s.(heap := s.heap[p := s.heap[p].(deleted := true)]);
      if s.heap[p].refcount == 0 then s'.(table := s.table - {p}, pcs := s.pcs[t := DelFreeing(ino, p)])
      else s'.(pcs := s.pcs[t := DelStore(ino)])
  }

  /** Deleting the record. */
  ghost function DoDeleteRecord(s: State, t: Tid): State
    requires Enabled(s, DeleteRecord(t))
  {
    s.(records := s.records - {s.pcs[t].ino}, pcs := s.pcs - {t})
  }

  /** References for the write-back of dirty entries. */
  ghost function DoSyncCollect(s: State, ps: set<Ptr>): State
    requires Enabled(s, SyncCollect(ps))
  {
    s.(heap := map p | p in s.heap :: if p in ps then s.heap[p].(refcount := s.heap[p].refcount + 1) else s.heap[p],
       held := s.held + multiset(ps))
  }

  ghost function DoMarkDirty(s: State, q: Ptr): State
    requires Enabled(s, MarkDirty(q))
  {
    s.(dirty := s.dirty + {q})
  }

  /** The record is written again and the flag cleared.  A holder that lost the flag between the
      test and the write could have set it again, so the two are one step. */
  ghost function DoSyncWrite(s: State, q: Ptr): State
    requires Enabled(s, SyncWrite(q))
  {
    s.(records := s.records + {s.heap[q].ino}, dirty := s.dirty - {q})
  }

  ghost function Do(s: State, a: Action): State
    requires Enabled(s, a)
  {
    match a
    case GetLookup(t, ino) => DoGetLookup(s, t, ino)
    case GetLoad(t) => DoGetLoad(s, t)
    case GetInsert(t) => DoGetInsert(s, t)
    case Put(t, q) => DoPut(s, t, q)
    case Free(t) => DoFree(s, t)
    case CreateAlloc(t) => DoCreateAlloc(s, t)
    case CounterRead(t) => DoCounterRead(s, t)
    case CounterWrite(t) => DoCounterWrite(s, t)
    case CreateSave(t) => DoCreateSave(s, t)
    case CreateInsert(t) => DoCreateInsert(s, t)
    case DeleteMark(t, ino) => DoDeleteMark(s, t, ino)
    case DeleteRecord(t) => DoDeleteRecord(s, t)
    case SyncCollect(ps) => DoSyncCollect(s, ps)
    case MarkDirty(q) => DoMarkDirty(s, q)
    case SyncWrite(q) => DoSyncWrite(s, q)
  }

  // ---- safety ----

  /** The entry private to a thread. */
  predicate HasPrivate(pc: Pc) { pc.GetLoaded? || pc.PutFreeing? || pc.DelFreeing? || pc.Created? }

  predicate Creating(pc: Pc) { pc.Taken? || pc.Saving? || pc.Allocated? || pc.Created? }

  predicate SamePrivate(a: Pc, b: Pc) { HasPrivate(a) && HasPrivate(b) && a.p == b.p }

  predicate SameCreation(a: Pc, b: Pc) { Creating(a) && Creating(b) && a.ino == b.ino }

  /** What the callers rely on. */
  ghost predicate Safe(s: State) {
    // no handle points to a freed entry, and every handle's entry is in the table
    && (forall p :: p in s.held ==> p in s.table)
    && (forall p :: p in s.table ==> p in s.heap)
    // a cached entry's count is the number of its outstanding handles
    && (forall p :: p in s.table ==> s.heap[p].refcount == s.held[p])
    // at most one cached entry per inode
    && (forall p, q :: p in s.table && q in s.table && s.heap[p].ino == s.heap[q].ino ==> p == q)
    // a deleted entry stays only while somebody holds it
    && (forall p :: p in s.table && s.heap[p].deleted ==> s.heap[p].refcount > 0)
  }

  ghost predicate Private(s: State) {
    && (forall t :: t in s.pcs && HasPrivate(s.pcs[t]) ==>
          s.pcs[t].p in s.heap && s.pcs[t].p !in s.table)
    && (forall t, u :: t in s.pcs && u in s.pcs && SamePrivate(s.pcs[t], s.pcs[u]) ==> t == u)
    && (forall t :: t in s.pcs && (s.pcs[t].GetLoaded? || s.pcs[t].Created?) ==>
          s.heap[s.pcs[t].p] == CacheEntry(s.pcs[t].ino, 1, false))
    && (forall p :: p in s.heap ==> p < s.nextPtr)
  }

  ghost predicate Numbers(s: State) {
    && (forall i :: i in s.published ==> i < s.nextIno)
    && (forall p :: p in s.table && p in s.heap ==> s.heap[p].ino in s.published)
    && (forall t :: t in s.pcs && !Creating(s.pcs[t]) && !s.pcs[t].PutFreeing? ==> s.pcs[t].ino in s.published)
    && (forall t :: t in s.pcs && Creating(s.pcs[t]) ==> s.pcs[t].ino !in s.published && s.pcs[t].ino < s.nextIno)
    && (forall t, u :: t in s.pcs && u in s.pcs && SameCreation(s.pcs[t], s.pcs[u]) ==> t == u)
  }

  ghost predicate Inv(s: State) { Safe(s) && Private(s) && Numbers(s) }

  /** The cache right after mounting: empty, over the records in the store. */
  ghost predicate Init(s: State) {
    && s.heap == map[] && s.table == {} && s.held == multiset{} && s.dirty == {} && s.pcs == map[]
    && s.published == s.records && (forall i :: i in s.records ==> i < s.nextIno) && s.saved == s.nextIno
  }

  lemma InitInv(s: State)
    requires Init(s)
    ensures Inv(s)
  {
  }

  lemma StepInv(s: State, a: Action)
    requires Inv(s) && Enabled(s, a)
    ensures Inv(Do(s, a))
  {
    match a
    case GetLookup(t, ino) => GetLookupInv(s, t, ino);
    case GetLoad(t) => GetLoadInv(s, t);
    case GetInsert(t) => GetInsertInv(s, t);
    case Put(t, q) => PutInv(s, t, q);
    case Free(t) => FreeInv(s, t);
    case CreateAlloc(t) => CreateAllocInv(s, t);
    case CounterRead(t) => CounterReadInv(s, t);
    case CounterWrite(t) => CounterWriteInv(s, t);
    case CreateSave(t) => CreateSaveInv(s, t);
    case CreateInsert(t) => CreateInsertInv(s, t);
    case DeleteMark(t, ino) => DeleteMarkInv(s, t, ino);
    case DeleteRecord(t) => DeleteRecordInv(s, t);
    case SyncCollect(ps) => SyncCollectInv(s, ps);
    case MarkDirty(q) => SameCacheInv(s, DoMarkDirty(s, q));
    case SyncWrite(q) => SameCacheInv(s, DoSyncWrite(s, q));
  }

  /** One more reference to a cached entry, matched by one more handle. */
  lemma BumpSafe(s: State, q: Ptr)
    requires Safe(s) && q in s.table
    ensures Safe(s.(heap := Bump(s.heap, q), held := s.held + multiset{q}))
  {
  }

  /** Safety does not see threads, nor entries outside the table. */
  lemma OutsideSafe(s: State, s': State)
    requires Safe(s) && s'.table == s.table && s'.held == s.held
    requires forall p :: p in s.table ==> p in s'.heap && s'.heap[p] == s.heap[p]
    ensures Safe(s')
  {
  }

  /** Linking a private entry of an inode that has none, as its first handle is given out. */
  lemma InsertSafe(s: State, p: Ptr, s': State)
    requires Safe(s) && p in s.heap && p !in s.table && s.heap[p].refcount == 1 && !s.heap[p].deleted
    requires Found(s, s.heap[p].ino) == {}
    requires s'.heap == s.heap && s'.table == s.table + {p} && s'.held == s.held + multiset{p}
    ensures Safe(s')
  {
    forall q | q in s.table ensures s.heap[q].ino != s.heap[p].ino {
      assert q !in Found(s, s.heap[p].ino);
    }
    assert p !in s.held;
  }

  /** What a step of thread t must respect for the others' private entries to stay theirs. */
  ghost predicate OthersKeep(s: State, s': State, t: Tid) {
    && (forall u :: u != t ==> (u in s'.pcs <==> u in s.pcs) && (u in s.pcs ==> s'.pcs[u] == s.pcs[u]))
    && (forall u :: u in s.pcs && u != t && HasPrivate(s.pcs[u]) ==>
          s.pcs[u].p in s.heap && s.pcs[u].p in s'.heap && s'.heap[s.pcs[u].p] == s.heap[s.pcs[u].p] && s.pcs[u].p !in s'.table)
  }

  lemma PrivateStep(s: State, s': State, t: Tid)
    requires Private(s) && OthersKeep(s, s', t)
    requires forall p :: p in s'.heap ==> p < s'.nextPtr
    requires t in s'.pcs && HasPrivate(s'.pcs[t]) ==>
      && s'.pcs[t].p in s'.heap && s'.pcs[t].p !in s'.table
      && (s'.pcs[t].GetLoaded? || s'.pcs[t].Created? ==> s'.heap[s'.pcs[t].p] == CacheEntry(s'.pcs[t].ino, 1, false))
      && (forall u :: u in s.pcs && u != t ==> !SamePrivate(s.pcs[u], s'.pcs[t]))
    ensures Private(s')
  {
  }

  lemma NumbersStep(s: State, s': State, t: Tid)
    requires Numbers(s) && s.published <= s'.published && s.nextIno <= s'.nextIno
    requires forall u :: u != t ==> (u in s'.pcs <==> u in s.pcs) && (u in s.pcs ==> s'.pcs[u] == s.pcs[u])
    requires forall i :: i in s'.published && i !in s.published ==>
      i < s'.nextIno && forall u :: u in s.pcs && u != t && Creating(s.pcs[u]) ==> s.pcs[u].ino != i
    requires forall p :: p in s'.table && p in s'.heap ==> s'.heap[p].ino in s'.published
    requires t in s'.pcs && !Creating(s'.pcs[t]) && !s'.pcs[t].PutFreeing? ==> s'.pcs[t].ino in s'.published
    requires t in s'.pcs && Creating(s'.pcs[t]) ==>
      && s'.pcs[t].ino !in s'.published && s'.pcs[t].ino < s'.nextIno
      && (forall u :: u in s.pcs && u != t ==> !SameCreation(s.pcs[u], s'.pcs[t]))
    ensures Numbers(s')
  {
  }

  /** The private entry of a thread that loaded or made one. */
  lemma PrivateEntry(s: State, t: Tid)
    requires Private(s) && t in s.pcs && HasPrivate(s.pcs[t])
    ensures s.pcs[t].p in s.heap && s.pcs[t].p !in s.table
    ensures s.pcs[t].GetLoaded? || s.pcs[t].Created? ==> s.heap[s.pcs[t].p] == CacheEntry(s.pcs[t].ino, 1, false)
  {
  }

  lemma FreshPtr(s: State)
    requires Safe(s) && Private(s)
    ensures s.nextPtr !in s.heap && s.nextPtr !in s.table
  {
  }

  /** Entries in the table are nobody's own. */
  lemma PrivateApart(s: State, q: Ptr)
    requires Private(s) && q in s.table
    ensures forall u :: u in s.pcs && HasPrivate(s.pcs[u]) ==> s.pcs[u].p in s.heap && s.pcs[u].p != q
  {
  }

  lemma GetLookupSafe(s: State, t: Tid, ino: nat)
    requires Inv(s) && Enabled(s, GetLookup(t, ino))
    ensures Safe(DoGetLookup(s, t, ino))
  {
    hide Numbers, Private;
    if Found(s, ino) == {} {
      OutsideSafe(s, DoGetLookup(s, t, ino));
    } else if !s.heap[Find(s, ino)].deleted {
      BumpSafe(s, Find(s, ino));
    }
  }

  lemma GetLookupPrivate(s: State, t: Tid, ino: nat)
    requires Inv(s) && Enabled(s, GetLookup(t, ino))
    ensures Private(DoGetLookup(s, t, ino))
  {
    hide Numbers, Safe, SamePrivate;
    PrivateStep(s, DoGetLookup(s, t, ino), t);
  }

  lemma GetLookupNumbers(s: State, t: Tid, ino: nat)
    requires Inv(s) && Enabled(s, GetLookup(t, ino))
    ensures Numbers(DoGetLookup(s, t, ino))
  {
    hide SamePrivate, Safe, Private, SameCreation;
    NumbersStep(s, DoGetLookup(s, t, ino), t);
  }

  lemma GetLookupInv(s: State, t: Tid, ino: nat)
    requires Inv(s) && Enabled(s, GetLookup(t, ino))
    ensures Inv(DoGetLookup(s, t, ino))
  {
    GetLookupSafe(s, t, ino);
    GetLookupPrivate(s, t, ino);
    GetLookupNumbers(s, t, ino);
  }

  lemma GetLoadSafe(s: State, t: Tid)
    requires Inv(s) && Enabled(s, GetLoad(t))
    ensures Safe(DoGetLoad(s, t))
  {
    hide Numbers, SamePrivate;
    OutsideSafe(s, DoGetLoad(s, t));
  }

  lemma GetLoadPrivate(s: State, t: Tid)
    requires Inv(s) && Enabled(s, GetLoad(t))
    ensures Private(DoGetLoad(s, t))
  {
    hide Numbers, Safe;
    FreshPtr(s);
    PrivateStep(s, DoGetLoad(s, t), t);
  }

  lemma GetLoadNumbers(s: State, t: Tid)
    requires Inv(s) && Enabled(s, GetLoad(t))
    ensures Numbers(DoGetLoad(s, t))
  {
    hide SamePrivate;
    NumbersStep(s, DoGetLoad(s, t), t);
  }

  lemma GetLoadInv(s: State, t: Tid)
    requires Inv(s) && Enabled(s, GetLoad(t))
    ensures Inv(DoGetLoad(s, t))
  {
    GetLoadSafe(s, t);
    GetLoadPrivate(s, t);
    GetLoadNumbers(s, t);
  }

  lemma GetInsertSafe(s: State, t: Tid)
    requires Inv(s) && Enabled(s, GetInsert(t))
    ensures Safe(DoGetInsert(s, t))
  {
    hide Numbers;
    var p := s.pcs[t].p;
    if Found(s, s.pcs[t].ino) != {} {
      var q := Find(s, s.pcs[t].ino);
      if s.heap[q].deleted {
        OutsideSafe(s, DoGetInsert(s, t));
      } else {
        BumpSafe(s, q);
        OutsideSafe(s.(heap := Bump(s.heap, q), held := s.held + multiset{q}), DoGetInsert(s, t));
      }
    } else {
      InsertSafe(s, p, DoGetInsert(s, t));
    }
  }

  lemma GetInsertPrivate(s: State, t: Tid)
    requires Inv(s) && Enabled(s, GetInsert(t))
    ensures Private(DoGetInsert(s, t))
  {
    hide Numbers, Safe;
    PrivateStep(s, DoGetInsert(s, t), t);
  }

  lemma GetInsertNumbers(s: State, t: Tid)
    requires Inv(s) && Enabled(s, GetInsert(t))
    ensures Numbers(DoGetInsert(s, t))
  {
    PrivateEntry(s, t);
    hide SamePrivate, Safe, Private, SameCreation;
    NumbersStep(s, DoGetInsert(s, t), t);
  }

  lemma GetInsertInv(s: State, t: Tid)
    requires Inv(s) && Enabled(s, GetInsert(t))
    ensures Inv(DoGetInsert(s, t))
  {
    GetInsertSafe(s, t);
    GetInsertPrivate(s, t);
    GetInsertNumbers(s, t);
  }

  lemma ReleaseCount(s: State, q: Ptr)
    requires Safe(s) && q in s.held
    ensures q in s.table && s.heap[q].refcount > 0
    ensures (s.held - multiset{q})[q] == s.heap[q].refcount - 1
    ensures forall p :: p != q ==> (s.held - multiset{q})[p] == s.held[p]
  {
  }

  /** One handle less on an entry that stays. */
  lemma ReleaseSafe(s: State, q: Ptr, s': State)
    requires Safe(s) && q in s.table && s'.table == s.table && s'.heap.Keys == s.heap.Keys
    requires forall p :: p in s.heap && p != q ==> s'.heap[p] == s.heap[p]
    requires s'.heap[q] == s.heap[q].(refcount := s'.heap[q].refcount)
    requires s'.held[q] == s'.heap[q].refcount && forall p :: p != q ==> s'.held[p] == s.held[p]
    requires s.heap[q].deleted ==> s'.heap[q].refcount > 0
    ensures Safe(s')
  {
    assert forall p :: p in s'.held ==> s'.held[p] > 0;
  }

  /** The last handle on a deleted entry takes it out of the table. */
  lemma RetireSafe(s: State, q: Ptr, s': State)
    requires Safe(s) && q in s.table && s'.table == s.table - {q} && s'.heap.Keys == s.heap.Keys
    requires forall p :: p in s.heap && p != q ==> s'.heap[p] == s.heap[p]
    requires s'.held[q] == 0 && forall p :: p != q ==> s'.held[p] == s.held[p]
    ensures Safe(s')
  {
  }

  lemma PutSafe(s: State, t: Tid, q: Ptr)
    requires Inv(s) && Enabled(s, Put(t, q))
    ensures Safe(DoPut(s, t, q))
  {
    hide Numbers, Private, Safe;
    var s' := DoPut(s, t, q);
    ReleaseCount(s, q);
    if q in s'.table {
      ReleaseSafe(s, q, s');
    } else {
      RetireSafe(s, q, s');
    }
  }

  lemma PutPrivate(s: State, t: Tid, q: Ptr)
    requires Inv(s) && Enabled(s, Put(t, q))
    ensures Private(DoPut(s, t, q))
  {
    PrivateApart(s, q);
    hide Numbers, Safe;
    PrivateStep(s, DoPut(s, t, q), t);
  }

  lemma PutNumbers(s: State, t: Tid, q: Ptr)
    requires Inv(s) && Enabled(s, Put(t, q))
    ensures Numbers(DoPut(s, t, q))
  {
    hide SamePrivate, Private, SameCreation;
    NumbersStep(s, DoPut(s, t, q), t);
  }

  lemma PutInv(s: State, t: Tid, q: Ptr)
    requires Inv(s) && Enabled(s, Put(t, q))
    ensures Inv(DoPut(s, t, q))
  {
    PutSafe(s, t, q);
    PutPrivate(s, t, q);
    PutNumbers(s, t, q);
  }

  lemma FreeSafe(s: State, t: Tid)
    requires Inv(s) && Enabled(s, Free(t))
    ensures Safe(DoFree(s, t))
  {
    PrivateEntry(s, t);
    hide Numbers, Private;
    OutsideSafe(s, DoFree(s, t));
  }

  lemma FreePrivate(s: State, t: Tid)
    requires Inv(s) && Enabled(s, Free(t))
    ensures Private(DoFree(s, t))
  {
    hide Numbers, Safe;
    PrivateStep(s, DoFree(s, t), t);
  }

  lemma FreeNumbers(s: State, t: Tid)
    requires Inv(s) && Enabled(s, Free(t))
    ensures Numbers(DoFree(s, t))
  {
    hide SamePrivate, Private, Safe, SameCreation;
    NumbersStep(s, DoFree(s, t), t);
  }

  lemma FreeInv(s: State, t: Tid)
    requires Inv(s) && Enabled(s, Free(t))
    ensures Inv(DoFree(s, t))
  {
    FreeSafe(s, t);
    FreePrivate(s, t);
    FreeNumbers(s, t);
  }

  lemma CreateAllocSafe(s: State, t: Tid)
    requires Inv(s) && Enabled(s, CreateAlloc(t))
    ensures Safe(DoCreateAlloc(s, t))
  {
    hide Numbers;
  }

  lemma CreateAllocPrivate(s: State, t: Tid)
    requires Inv(s) && Enabled(s, CreateAlloc(t))
    ensures Private(DoCreateAlloc(s, t))
  {
    hide Numbers, Safe;
  }

  lemma CreateAllocNumbers(s: State, t: Tid)
    requires Inv(s) && Enabled(s, CreateAlloc(t))
    ensures Numbers(DoCreateAlloc(s, t))
  {
    hide SamePrivate, Private, Safe;
  }

  lemma CreateAllocInv(s: State, t: Tid)
    requires Inv(s) && Enabled(s, CreateAlloc(t))
    ensures Inv(DoCreateAlloc(s, t))
  {
    CreateAllocSafe(s, t);
    CreateAllocPrivate(s, t);
    CreateAllocNumbers(s, t);
  }

  /** Neither threads nor cached entries change. */
  lemma SameCacheInv(s: State, s': State)
    requires Inv(s) && s' == s.(records := s'.records, dirty := s'.dirty)
    ensures Inv(s')
  {
  }

  /** Moving on inside inode_alloc. */
  lemma AllocStepInv(s: State, t: Tid, s': State)
    requires Inv(s) && t in s.pcs && Creating(s.pcs[t]) && !HasPrivate(s.pcs[t])
    requires t in s'.pcs && Creating(s'.pcs[t]) && !HasPrivate(s'.pcs[t]) && s'.pcs[t].ino == s.pcs[t].ino
    requires s' == s.(saved := s'.saved, pcs := s.pcs[t := s'.pcs[t]])
    ensures Inv(s')
  {
    assert Safe(s') by { hide Private, Numbers; OutsideSafe(s, s'); }
    assert Private(s') by { hide Safe, Numbers; PrivateStep(s, s', t); }
    assert Numbers(s') by { hide Safe, Private; NumbersStep(s, s', t); }
  }

  lemma CounterReadInv(s: State, t: Tid)
    requires Inv(s) && Enabled(s, CounterRead(t))
    ensures Inv(DoCounterRead(s, t))
  {
    hide Inv;
    AllocStepInv(s, t, DoCounterRead(s, t));
  }

  lemma CounterWriteInv(s: State, t: Tid)
    requires Inv(s) && Enabled(s, CounterWrite(t))
    ensures Inv(DoCounterWrite(s, t))
  {
    hide Inv;
    AllocStepInv(s, t, DoCounterWrite(s, t));
  }

  lemma CreateSaveSafe(s: State, t: Tid)
    requires Inv(s) && Enabled(s, CreateSave(t))
    ensures Safe(DoCreateSave(s, t))
  {
    hide Numbers;
  }

  lemma CreateSavePrivate(s: State, t: Tid)
    requires Inv(s) && Enabled(s, CreateSave(t))
    ensures Private(DoCreateSave(s, t))
  {
    hide Numbers, Safe;
    FreshPtr(s);
  }

  lemma CreateSaveNumbers(s: State, t: Tid)
    requires Inv(s) && Enabled(s, CreateSave(t))
    ensures Numbers(DoCreateSave(s, t))
  {
    hide SamePrivate, Private, Safe;
    FreshPtr(s);
    NumbersStep(s, DoCreateSave(s, t), t);
  }

  lemma CreateSaveInv(s: State, t: Tid)
    requires Inv(s) && Enabled(s, CreateSave(t))
    ensures Inv(DoCreateSave(s, t))
  {
    CreateSaveSafe(s, t);
    CreateSavePrivate(s, t);
    CreateSaveNumbers(s, t);
  }

  lemma CreateInsertSafe(s: State, t: Tid)
    requires Inv(s) && Enabled(s, CreateInsert(t))
    ensures Safe(DoCreateInsert(s, t))
  {
    var p := s.pcs[t].p;
    assert Found(s, s.heap[p].ino) == {};
    hide Numbers;
    InsertSafe(s, p, DoCreateInsert(s, t));
  }

  lemma CreateInsertPrivate(s: State, t: Tid)
    requires Inv(s) && Enabled(s, CreateInsert(t))
    ensures Private(DoCreateInsert(s, t))
  {
    hide Numbers, Safe;
  }

  lemma CreateInsertNumbers(s: State, t: Tid)
    requires Inv(s) && Enabled(s, CreateInsert(t))
    ensures Numbers(DoCreateInsert(s, t))
  {
    PrivateEntry(s, t);
    hide SamePrivate, Private, Safe;
  }

  lemma CreateInsertInv(s: State, t: Tid)
    requires Inv(s) && Enabled(s, CreateInsert(t))
    ensures Inv(DoCreateInsert(s, t))
  {
    CreateInsertSafe(s, t);
    CreateInsertPrivate(s, t);
    CreateInsertNumbers(s, t);
  }

  lemma DeleteMarkSafe(s: State, t: Tid, ino: nat)
    requires Inv(s) && Enabled(s, DeleteMark(t, ino))
    ensures Safe(DoDeleteMark(s, t, ino))
  {
    hide Numbers, Private;
    if Found(s, ino) == {} {
      OutsideSafe(s, DoDeleteMark(s, t, ino));
    }
  }

  lemma DeleteMarkPrivate(s: State, t: Tid, ino: nat)
    requires Inv(s) && Enabled(s, DeleteMark(t, ino))
    ensures Private(DoDeleteMark(s, t, ino))
  {
    hide Numbers, Safe;
    PrivateStep(s, DoDeleteMark(s, t, ino), t);
  }

  lemma DeleteMarkNumbers(s: State, t: Tid, ino: nat)
    requires Inv(s) && Enabled(s, DeleteMark(t, ino))
    ensures Numbers(DoDeleteMark(s, t, ino))
  {
    hide SamePrivate, Private, Safe, SameCreation;
    var s' := DoDeleteMark(s, t, ino);
    assert s'.published == s.published && s'.nextIno == s.nextIno && s'.table <= s.table;
    assert forall p :: p in s.heap && p in s'.heap ==> s'.heap[p].ino == s.heap[p].ino;
    NumbersStep(s, s', t);
  }

  lemma DeleteMarkInv(s: State, t: Tid, ino: nat)
    requires Inv(s) && Enabled(s, DeleteMark(t, ino))
    ensures Inv(DoDeleteMark(s, t, ino))
  {
    DeleteMarkSafe(s, t, ino);
    DeleteMarkPrivate(s, t, ino);
    DeleteMarkNumbers(s, t, ino);
  }

  lemma DeleteRecordSafe(s: State, t: Tid)
    requires Inv(s) && Enabled(s, DeleteRecord(t))
    ensures Safe(DoDeleteRecord(s, t))
  {
    hide Numbers;
  }

  lemma DeleteRecordPrivate(s: State, t: Tid)
    requires Inv(s) && Enabled(s, DeleteRecord(t))
    ensures Private(DoDeleteRecord(s, t))
  {
    hide Numbers;
  }

  lemma DeleteRecordNumbers(s: State, t: Tid)
    requires Inv(s) && Enabled(s, DeleteRecord(t))
    ensures Numbers(DoDeleteRecord(s, t))
  {
    hide SamePrivate;
  }

  lemma DeleteRecordInv(s: State, t: Tid)
    requires Inv(s) && Enabled(s, DeleteRecord(t))
    ensures Inv(DoDeleteRecord(s, t))
  {
    DeleteRecordSafe(s, t);
    DeleteRecordPrivate(s, t);
    DeleteRecordNumbers(s, t);
  }

  lemma SyncCollectSafe(s: State, ps: set<Ptr>)
    requires Inv(s) && Enabled(s, SyncCollect(ps))
    ensures Safe(DoSyncCollect(s, ps))
  {
    hide Numbers;
  }

  lemma SyncCollectPrivate(s: State, ps: set<Ptr>)
    requires Inv(s) && Enabled(s, SyncCollect(ps))
    ensures Private(DoSyncCollect(s, ps))
  {
    hide Numbers;
  }

  lemma SyncCollectNumbers(s: State, ps: set<Ptr>)
    requires Inv(s) && Enabled(s, SyncCollect(ps))
    ensures Numbers(DoSyncCollect(s, ps))
  {
    hide SamePrivate;
  }

  lemma SyncCollectInv(s: State, ps: set<Ptr>)
    requires Inv(s) && Enabled(s, SyncCollect(ps))
    ensures Inv(DoSyncCollect(s, ps))
  {
    SyncCollectSafe(s, ps);
    SyncCollectPrivate(s, ps);
    SyncCollectNumbers(s, ps);
  }

  // ---- runs ----

  ghost predicate CanRun(s: State, run: seq<Action>)
    decreases |run|
  {
    run == [] || (Enabled(s, run[0]) && CanRun(Do(s, run[0]), run[1..]))
  }

  ghost function After(s: State, run: seq<Action>): State
    requires CanRun(s, run)
    decreases |run|
  {
    if run == [] then s else After(Do(s, run[0]), run[1..])
  }

  lemma {:induction false} RunInv(s: State, run: seq<Action>)
    requires Inv(s) && CanRun(s, run)
    ensures Inv(After(s, run))
    decreases |run|
  {
    if run != [] {
      StepInv(s, run[0]);
      RunInv(Do(s, run[0]), run[1..]);
    }
  }

  /** In every interleaving: counts are the outstanding handles, at most one cached entry per
      inode, deleted entries in the table are held, and no handle points to a freed entry. */
  lemma CacheSafe(s: State, run: seq<Action>)
    requires Init(s) && CanRun(s, run)
    ensures Safe(After(s, run))
  {
    InitInv(s);
    RunInv(s, run);
  }

  // ---- what a deletion promises ----

  /** inode_get would return a handle on the cached entry of ino. */
  ghost predicate Servable(s: State, ino: nat) {
    exists p :: p in s.table && p in s.heap && s.heap[p].ino == ino && !s.heap[p].deleted
  }

  ghost predicate LoadInFlight(s: State, ino: nat) {
    exists t :: t in s.pcs && s.pcs[t].GetLoaded? && s.pcs[t].ino == ino
  }

  /** No record, no cached entry, and no thread about to cache an old copy. */
  ghost predicate Gone(s: State, ino: nat) {
    ino in s.published && ino !in s.records && Found(s, ino) == {} && !LoadInFlight(s, ino)
  }

  /** An entry of ino that can be served after a step could be served before, or was an old
      copy in flight, or is the creation of ino. */
  lemma ServedBefore(s: State, a: Action, ino: nat, p: Ptr)
    requires Safe(s) && Private(s) && Enabled(s, a)
    requires p in Do(s, a).table && p in Do(s, a).heap && Do(s, a).heap[p].ino == ino && !Do(s, a).heap[p].deleted
    ensures Servable(s, ino) || LoadInFlight(s, ino) || (a.CreateInsert? && s.pcs[a.t].ino == ino)
  {
    hide SamePrivate;
    if p in s.table {
      ServedEntryBefore(s, a, p);
    } else if a.GetInsert? {
      assert s.pcs[a.t].ino == ino;
    }
  }

  lemma ServedEntryBefore(s: State, a: Action, p: Ptr)
    requires Enabled(s, a) && p in s.table && p in s.heap && p != s.nextPtr
    requires (a.GetInsert? || a.Free?) ==> s.pcs[a.t].p != p
    requires p in Do(s, a).heap && !Do(s, a).heap[p].deleted
    ensures s.heap[p].ino == Do(s, a).heap[p].ino && !s.heap[p].deleted
  {
    match a
    case GetLookup(t, ino) => assert Found(s, ino) != {} ==> Find(s, ino) in Found(s, ino);
    case GetInsert(t) =>
    case DeleteMark(t, ino) => assert Found(s, ino) != {} ==> Find(s, ino) in Found(s, ino);
    case _ =>
  }

  lemma LoadsBefore(s: State, a: Action, ino: nat, t: Tid)
    requires Enabled(s, a)
    requires t in Do(s, a).pcs && Do(s, a).pcs[t] .GetLoaded? && Do(s, a).pcs[t].ino == ino
    ensures LoadInFlight(s, ino) || ino in s.records
  {
    if t in s.pcs && s.pcs[t].GetLoaded? {
      assert s.pcs[t].ino == ino;
    }
  }

  lemma GoneStays(s: State, a: Action, ino: nat)
    requires Inv(s) && Gone(s, ino) && Enabled(s, a)
    ensures Gone(Do(s, a), ino)
  {
    hide Do;
    var s' := Do(s, a);
    NoneCached(s, ino);
    GonePublished(s, a, ino);
    if Found(s', ino) != {} {
      var p :| p in Found(s', ino);
      CachedBefore(s, a, ino, p);
    }
    if LoadInFlight(s', ino) {
      var t :| t in s'.pcs && s'.pcs[t].GetLoaded? && s'.pcs[t].ino == ino;
      LoadsBefore(s, a, ino, t);
    }
  }

  lemma NoneCached(s: State, ino: nat)
    requires Safe(s)
    ensures Found(s, ino) == {} ==> forall p :: p in s.held ==> p in s.heap && s.heap[p].ino != ino
  {
    forall p | p in s.held && p in s.heap && s.heap[p].ino == ino ensures p in Found(s, ino) {}
  }

  /** An entry of ino in the table after a step was there before, or was a copy in flight, or is
      the creation of ino. */
  lemma CachedBefore(s: State, a: Action, ino: nat, p: Ptr)
    requires Safe(s) && Private(s) && Enabled(s, a) && p in Found(Do(s, a), ino)
    ensures p in Found(s, ino) || LoadInFlight(s, ino) || (a.CreateInsert? && s.pcs[a.t].ino == ino)
  {
    hide SamePrivate;
    if p in s.table {
      SameNumber(s, a, p);
    } else if a.GetInsert? {
      assert s.pcs[a.t].ino == ino;
    }
  }

  lemma SameNumber(s: State, a: Action, p: Ptr)
    requires Enabled(s, a) && p in s.table && p in s.heap && p != s.nextPtr && p in Do(s, a).heap
    ensures s.heap[p].ino == Do(s, a).heap[p].ino
  {
  }

  lemma GonePublished(s: State, a: Action, ino: nat)
    requires Numbers(s) && Enabled(s, a) && ino in s.published && ino !in s.records
    requires a.SyncWrite? ==> s.heap[a.q].ino != ino
    ensures ino in Do(s, a).published && ino !in Do(s, a).records
  {
  }

  lemma {:induction false} GoneForever(s: State, run: seq<Action>, ino: nat)
    requires Inv(s) && Gone(s, ino) && CanRun(s, run)
    ensures Gone(After(s, run), ino)
    decreases |run|
  {
    if run != [] {
      StepInv(s, run[0]);
      GoneStays(s, run[0], ino);
      GoneForever(Do(s, run[0]), run[1..], ino);
    }
  }

  // ---- runs in which nobody sets the dirty flag ----

  /** inode_mark_dirty has no caller in the repository, so its runs are of this kind. */
  predicate Unmarked(run: seq<Action>) { forall i :: 0 <= i < |run| ==> !run[i].MarkDirty? }

  predicate Clean(s: State) { s.dirty == {} }

  /** No record, no live entry, and no thread about to cache an old copy; a deleted entry may
      still be held. */
  ghost predicate GoneUnlessMarked(s: State, ino: nat) {
    ino in s.published && ino !in s.records && !Servable(s, ino) && !LoadInFlight(s, ino)
  }

  lemma UnmarkedStays(s: State, a: Action, ino: nat)
    requires Inv(s) && Clean(s) && GoneUnlessMarked(s, ino) && Enabled(s, a) && !a.MarkDirty?
    ensures GoneUnlessMarked(Do(s, a), ino)
  {
    hide Do;
    var s' := Do(s, a);
    GonePublished(s, a, ino);
    if Servable(s', ino) {
      var p :| p in s'.table && p in s'.heap && s'.heap[p].ino == ino && !s'.heap[p].deleted;
      ServedBefore(s, a, ino, p);
    }
    if LoadInFlight(s', ino) {
      var t :| t in s'.pcs && s'.pcs[t].GetLoaded? && s'.pcs[t].ino == ino;
      LoadsBefore(s, a, ino, t);
    }
  }

  lemma CleanStays(s: State, a: Action)
    requires Clean(s) && Enabled(s, a) && !a.MarkDirty?
    ensures Clean(Do(s, a)) && !a.SyncWrite?
  {
  }

  lemma {:induction false} UnmarkedForever(s: State, run: seq<Action>, ino: nat)
    requires Inv(s) && Clean(s) && GoneUnlessMarked(s, ino) && CanRun(s, run) && Unmarked(run)
    ensures GoneUnlessMarked(After(s, run), ino)
    decreases |run|
  {
    if run != [] {
      StepInv(s, run[0]);
      CleanStays(s, run[0]);
      UnmarkedStays(s, run[0], ino);
      assert Unmarked(run[1..]) by { assert forall i :: 0 <= i < |run[1..]| ==> run[1..][i] == run[i + 1]; }
      UnmarkedForever(Do(s, run[0]), run[1..], ino);
    }
  }

  // ---- the other direction: when a deleted inode can come back ----

  lemma {:induction false} RunConcat(s: State, a: seq<Action>, b: seq<Action>)
    requires CanRun(s, a) && CanRun(After(s, a), b)
    ensures CanRun(s, a + b) && After(s, a + b) == After(After(s, a), b)
    decreases |a|
  {
    if a == [] {
      assert a + b == b;
    } else {
      assert (a + b)[0] == a[0] && (a + b)[1..] == a[1..] + b;
      RunConcat(Do(s, a[0]), a[1..], b);
    }
  }

  lemma OneStep(s: State, a: Action)
    requires Enabled(s, a)
    ensures CanRun(s, [a]) && After(s, [a]) == Do(s, a)
  {
    assert [a][0] == a && [a][1..] == [];
    var s' := Do(s, a);
    assert CanRun(s', []) && After(s', []) == s';
    assert CanRun(s, [a]) && After(s, [a]) == After(s', [a][1..]);
  }

  lemma Extend(s: State, run: seq<Action>, a: Action) returns (run': seq<Action>)
    requires CanRun(s, run) && Enabled(After(s, run), a)
    ensures run' == run + [a] && CanRun(s, run') && After(s, run') == Do(After(s, run), a)
  {
    OneStep(After(s, run), a);
    RunConcat(s, run, [a]);
    run' := run + [a];
  }

  lemma {:induction false} SomeTidFree(used: set<Tid>) returns (t: Tid)
    ensures forall u :: u in used ==> u < t
    decreases |used|
  {
    if used == {} {
      t := 0;
    } else {
      var u :| u in used;
      t := SomeTidFree(used - {u});
      assert forall v :: v in used ==> v == u || v in used - {u};
      if t <= u { t := u + 1; }
    }
  }

  /** s' differs from s in nothing a thread other than t is in the middle of. */
  ghost predicate SameWork(s: State, s': State, t: Tid) {
    && s'.records == s.records && s'.published == s.published
    && (forall u :: u != t && u in s.pcs ==> u in s'.pcs && s'.pcs[u] == s.pcs[u])
  }

  ghost predicate StillHeld(s: State, s': State, p: Ptr, t: Tid)
    requires p in s.heap && s.heap[p].refcount > 0
  {
    t !in s'.pcs && p in s'.table && p in s'.heap && s'.heap[p] == s.heap[p].(refcount := s.heap[p].refcount - 1)
  }

  /** One holder of a deleted entry lets go of it. */
  lemma LetGo(s: State, ino: nat, p: Ptr, t: Tid)
    requires Inv(s) && t !in s.pcs && p in s.table && s.heap[p].ino == ino && s.heap[p].deleted
    ensures p in s.heap && s.heap[p].refcount > 0
    ensures Enabled(s, Put(t, p)) && Inv(Do(s, Put(t, p))) && SameWork(s, Do(s, Put(t, p)), t)
    ensures s.heap[p].refcount == 1 ==> Found(Do(s, Put(t, p)), ino) == {}
    ensures s.heap[p].refcount > 1 ==> StillHeld(s, Do(s, Put(t, p)), p, t)
  {
    hide Private, Numbers;
    assert p in s.held;
    PutInv(s, t, p);
  }

  /** When the holders of a deleted entry let go of it, it leaves the table. */
  lemma {:induction false} Drain(s: State, ino: nat, p: Ptr, t: Tid) returns (run: seq<Action>)
    requires Inv(s) && t !in s.pcs && p in s.table && s.heap[p].ino == ino && s.heap[p].deleted
    ensures CanRun(s, run) && Unmarked(run) && SameWork(s, After(s, run), t) && Found(After(s, run), ino) == {}
    decreases if p in s.heap then s.heap[p].refcount else 0
  {
    hide Inv, Do, Enabled, Found;
    var a := Put(t, p);
    LetGo(s, ino, p, t);
    OneStep(s, a);
    if s.heap[p].refcount == 1 {
      run := [a];
    } else {
      var rest := Drain(Do(s, a), ino, p, t);
      RunConcat(s, [a], rest);
      run := [a] + rest;
    }
  }

  lemma ServeLoaded(s: State, ino: nat, t: Tid)
    requires Inv(s) && Found(s, ino) == {} && t in s.pcs && s.pcs[t].GetLoaded? && s.pcs[t].ino == ino
    ensures Enabled(s, GetInsert(t)) && Servable(Do(s, GetInsert(t)), ino)
  {
    assert s.pcs[t].p in Do(s, GetInsert(t)).table;
  }

  lemma RecordLoads(s: State, ino: nat, t: Tid)
    requires Inv(s) && Found(s, ino) == {} && ino in s.records && ino in s.published && t !in s.pcs
    ensures Enabled(s, GetLookup(t, ino))
    ensures var s1 := Do(s, GetLookup(t, ino));
      && Enabled(s1, GetLoad(t))
      && var s2 := Do(s1, GetLoad(t));
         Inv(s2) && Found(s2, ino) == {} && t in s2.pcs && s2.pcs[t].GetLoaded? && s2.pcs[t].ino == ino
  {
    hide Safe, Private, Numbers;
    FreshPtr(s);
    var s1 := DoGetLookup(s, t, ino);
    var s2 := DoGetLoad(s1, t);
    assert Do(s, GetLookup(t, ino)) == s1 && Do(s1, GetLoad(t)) == s2;
    GetLookupInv(s, t, ino);
    GetLoadInv(s1, t);
    hide Inv, Do;
    forall p | p in s2.table ensures p !in Found(s2, ino) {
      assert p !in Found(s, ino);
    }
  }

  lemma ServeRecord(s: State, ino: nat, t: Tid) returns (run: seq<Action>)
    requires Inv(s) && Found(s, ino) == {} && ino in s.records && ino in s.published && t !in s.pcs
    ensures CanRun(s, run) && Unmarked(run) && Servable(After(s, run), ino)
  {
    hide Inv, Found, Do, Enabled, Servable;
    RecordLoads(s, ino, t);
    run := Extend(s, [], GetLookup(t, ino));
    run := Extend(s, run, GetLoad(t));
    ServeLoaded(After(s, run), ino, t);
    run := Extend(s, run, GetInsert(t));
  }

  /** An inode that is not served loses its cached entry when the holders let go. */
  lemma Emptied(s: State, ino: nat) returns (t: Tid, run: seq<Action>)
    requires Inv(s) && !Servable(s, ino)
    ensures CanRun(s, run) && Unmarked(run) && Inv(After(s, run))
    ensures t !in s.pcs && SameWork(s, After(s, run), t) && Found(After(s, run), ino) == {}
  {
    hide Do, Enabled;
    t := SomeTidFree(s.pcs.Keys);
    run := [];
    if Found(s, ino) != {} {
      var p :| p in Found(s, ino);
      hide Safe, Private, Numbers;
      run := Drain(s, ino, p, t);
      RunInv(s, run);
    }
  }

  /** With no entry cached, a copy in flight or a record is served by the next get. */
  lemma ServeFresh(s: State, ino: nat) returns (run: seq<Action>)
    requires Inv(s) && Found(s, ino) == {} && ino in s.published
    requires ino in s.records || LoadInFlight(s, ino)
    ensures CanRun(s, run) && Unmarked(run) && Servable(After(s, run), ino)
  {
    hide Inv, Found, Do, Enabled, Servable;
    if LoadInFlight(s, ino) {
      var u :| u in s.pcs && s.pcs[u].GetLoaded? && s.pcs[u].ino == ino;
      ServeLoaded(s, ino, u);
      OneStep(s, GetInsert(u));
      run := [GetInsert(u)];
    } else {
      var u := SomeTidFree(s.pcs.Keys);
      run := ServeRecord(s, ino, u);
    }
  }

  lemma ComeBack(s: State, ino: nat) returns (run: seq<Action>)
    requires Inv(s) && ino in s.published && !GoneUnlessMarked(s, ino)
    ensures CanRun(s, run) && Unmarked(run) && Servable(After(s, run), ino)
  {
    hide Inv, Found, Do, Enabled, Servable;
    if Servable(s, ino) {
      return [];
    }
    var t, drained := Emptied(s, ino);
    var s1 := After(s, drained);
    if LoadInFlight(s, ino) {
      var u :| u in s.pcs && s.pcs[u].GetLoaded? && s.pcs[u].ino == ino;
      assert u in s1.pcs && s1.pcs[u] == s.pcs[u];
    }
    var last := ServeFresh(s1, ino);
    RunConcat(s, drained, last);
    run := drained + last;
  }

  /** A holder of a deleted entry can write its record back. */
  lemma WriteBack(s: State, ino: nat) returns (run: seq<Action>)
    requires Inv(s) && ino in s.published && !Gone(s, ino)
    ensures CanRun(s, run) && Servable(After(s, run), ino)
  {
    if !GoneUnlessMarked(s, ino) {
      run := ComeBack(s, ino);
      return;
    }
    var p :| p in Found(s, ino);
    assert p in s.held;
    var s2 := s.(records := s.records + {ino}, dirty := s.dirty - {p});
    var first := Extend(s, [], MarkDirty(p));
    first := Extend(s, first, SyncWrite(p));
    assert After(s, first) == s2;
    RunInv(s, first);
    var rest := ComeBack(s2, ino);
    RunConcat(s, first, rest);
    run := first + rest;
  }

  /** No later get ever returns the inode, in any run, exactly when it is Gone: a deleted entry
      that somebody holds is enough to bring it back. */
  lemma NeverServedExact(s: State, ino: nat)
    requires Inv(s) && ino in s.published
    ensures (forall run :: CanRun(s, run) ==> !Servable(After(s, run), ino)) <==> Gone(s, ino)
  {
    hide Servable, Inv, Do, Found;
    if Gone(s, ino) {
      forall run | CanRun(s, run) ensures !Servable(After(s, run), ino) {
        GoneForever(s, run, ino);
        GoneUnservable(After(s, run), ino);
      }
    } else {
      var run := WriteBack(s, ino);
      assert CanRun(s, run) && Servable(After(s, run), ino);
    }
  }

  lemma GoneUnservable(s: State, ino: nat)
    requires Gone(s, ino)
    ensures !Servable(s, ino)
  {
    forall p | p in s.table && p in s.heap && s.heap[p].ino == ino ensures p in Found(s, ino) {}
  }

  /** As long as nobody sets the dirty flag, held entries of a deleted inode do no harm. */
  lemma NeverServedUnmarked(s: State, ino: nat)
    requires Inv(s) && Clean(s) && ino in s.published
    ensures (forall run :: CanRun(s, run) && Unmarked(run) ==> !Servable(After(s, run), ino)) <==> GoneUnlessMarked(s, ino)
  {
    hide Servable, Inv, Do;
    if GoneUnlessMarked(s, ino) {
      forall run | CanRun(s, run) && Unmarked(run) ensures !Servable(After(s, run), ino) {
        UnmarkedForever(s, run, ino);
      }
    } else {
      var run := ComeBack(s, ino);
      assert CanRun(s, run) && Unmarked(run) && Servable(After(s, run), ino);
    }
  }

  /** inode_delete run without interruption. */
  ghost function DeletedAtOnce(s: State, t: Tid, ino: nat): State
    requires Enabled(s, DeleteMark(t, ino))
  {
    var s1 := DoDeleteMark(s, t, ino);
    var s2 := if s1.pcs[t].DelFreeing? then DoFree(s1, t) else s1;
    DoDeleteRecord(s2, t)
  }

  /** No handle on a cached entry of ino is outstanding. */
  ghost predicate Unheld(s: State, ino: nat) { forall p :: p in Found(s, ino) ==> p !in s.held }

  /** An uninterrupted delete is final exactly when nobody holds the inode and no other thread is
      between loading the record and caching it; as long as nobody sets the dirty flag, exactly
      when no other thread is between the two. */
  lemma AtomicDeleteExact(s: State, t: Tid, ino: nat)
    requires Inv(s) && Enabled(s, DeleteMark(t, ino))
    ensures Gone(DeletedAtOnce(s, t, ino), ino) <==> Unheld(s, ino) && !LoadInFlight(s, ino)
    ensures GoneUnlessMarked(DeletedAtOnce(s, t, ino), ino) <==> !LoadInFlight(s, ino)
  {
    DeleteWork(s, t, ino);
    DeleteLeavesNone(s, t, ino);
    DeleteLeavesHeld(s, t, ino);
    hide DeletedAtOnce, Inv, Found;
    var s' := DeletedAtOnce(s, t, ino);
    if LoadInFlight(s, ino) {
      var u :| u in s.pcs && s.pcs[u].GetLoaded? && s.pcs[u].ino == ino;
      assert u in s'.pcs && s'.pcs[u].GetLoaded?;
    }
  }

  lemma DeleteLeavesHeld(s: State, t: Tid, ino: nat)
    requires Inv(s) && Enabled(s, DeleteMark(t, ino))
    ensures Found(DeletedAtOnce(s, t, ino), ino) == {} <==> Unheld(s, ino)
  {
    hide Private, Numbers;
    var s' := DeletedAtOnce(s, t, ino);
    if Found(s, ino) == {} {
      assert s'.table == s.table && s'.heap == s.heap;
    } else {
      var q := Find(s, ino);
      assert q in Found(s, ino) && forall p :: p in Found(s, ino) ==> p == q;
      if s.heap[q].refcount == 0 {
        assert q !in s.held && q !in s'.table;
        assert forall p :: p in s'.table ==> p in s.table && p !in Found(s, ino);
      } else {
        assert q in s.held && q in Found(s', ino);
      }
    }
  }

  lemma DeleteWork(s: State, t: Tid, ino: nat)
    requires Enabled(s, DeleteMark(t, ino))
    ensures var s' := DeletedAtOnce(s, t, ino);
      s'.pcs == s.pcs && s'.published == s.published && s'.records == s.records - {ino} && ino in s.published
  {
  }

  lemma DeleteLeavesNone(s: State, t: Tid, ino: nat)
    requires Inv(s) && Enabled(s, DeleteMark(t, ino))
    ensures !Servable(DeletedAtOnce(s, t, ino), ino)
  {
    hide SamePrivate, SameCreation;
    var s' := DeletedAtOnce(s, t, ino);
    forall p | p in s'.table && p in s'.heap && s'.heap[p].ino == ino ensures s'.heap[p].deleted {
      assert p in s.table && s.heap[p].ino == ino && p in Found(s, ino);
      assert Find(s, ino) in Found(s, ino);
    }
  }

  /** A concrete interleaving after which a deleted inode is cached again: a get loads the
      record, a whole delete runs, the get caches its copy. */
  lemma DeletedInodeCachedAgain(s: State)
    requires s == State(map[], {}, multiset{}, {}, {1}, {1}, 2, 2, 0, map[])
    ensures Init(s)
    ensures exists run :: CanRun(s, run) && Unmarked(run) && Servable(After(s, run), 1) && 1 !in After(s, run).records
  {
    var s1 := s.(pcs := map[0 := GetMissed(1)]);
    var s2 := s.(heap := map[0 := CacheEntry(1, 1, false)], nextPtr := 1, pcs := map[0 := GetLoaded(1, 0)]);
    var s3 := s2.(pcs := map[0 := GetLoaded(1, 0), 1 := DelStore(1)]);
    var s4 := s2.(records := {});
    var s5 := s4.(table := {0}, held := multiset{0}, pcs := map[]);
    assert Do(s, GetLookup(0, 1)) == s1 by { NoneFound(s, 1); }
    assert Do(s1, GetLoad(0)) == s2;
    assert Do(s2, DeleteMark(1, 1)) == s3 by { NoneFound(s2, 1); }
    assert Do(s3, DeleteRecord(1)) == s4;
    assert Do(s4, GetInsert(0)) == s5 by { NoneFound(s4, 1); }
    hide Do;
    FiveSteps(s, GetLookup(0, 1), s1, GetLoad(0), s2, DeleteMark(1, 1), s3, DeleteRecord(1), s4, GetInsert(0));
    assert 0 in s5.table && s5.heap[0].ino == 1;
  }

  lemma NoneFound(s: State, ino: nat)
    requires s.table == {}
    ensures Found(s, ino) == {}
  {
  }

  lemma FiveSteps(s: State, a: Action, s1: State, b: Action, s2: State, c: Action, s3: State, d: Action, s4: State, e: Action)
    requires Enabled(s, a) && s1 == Do(s, a) && Enabled(s1, b) && s2 == Do(s1, b) && Enabled(s2, c) && s3 == Do(s2, c)
    requires Enabled(s3, d) && s4 == Do(s3, d) && Enabled(s4, e) && Unmarked([a, b, c, d, e])
    ensures exists run :: CanRun(s, run) && Unmarked(run) && After(s, run) == Do(s4, e)
  {
    hide Do, Enabled;
    var run := Extend(s, [], a);
    run := Extend(s, run, b);
    run := Extend(s, run, c);
    run := Extend(s, run, d);
    run := Extend(s, run, e);
    assert run == [a, b, c, d, e];
  }
}
