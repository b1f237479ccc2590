/** The shared state of the file system (struct kvbfs_ctx in src/kvbfs.h): the typed
    key/value store, the inode attributes and the inode counter.

    Every change of the store goes through Context.Put and Context.Delete, which demand
    that the store they leave behind is Recoverable.  A method that verifies against them
    therefore keeps the store consistent at every single write, not only when it returns;
    the ghost trail records each state the store went through. */
module Store {
  import opened Keys
  import opened Sparse

  datatype Kind = Dir | Regular | Symlink

  /** struct kvbfs_inode without times and permission bits. */
  datatype Inode = Inode(kind: Kind, nlink: nat, size: nat, blocks: nat)

  datatype Value =
    | SuperValue(nextIno: nat)
    | InodeValue(inode: Inode)
    | ChildValue(child: nat)
    | Bytes(bytes: seq<byte>)
    | Counter(count: nat)
    | MetaValue(size: nat, blocks: nat)

  type Db = map<Key, Value>

  const ROOT_INO: nat := 1

  /** Size of the buffers for keys with a name. */
  const KEY_MAX: nat := 512

  datatype Status = Done | ENOENT | EEXIST | ENOTDIR | EISDIR | ENOTEMPTY | EPERM | EINVAL | ERANGE | ENODATA | EIO

  /** The attributes inode i had when its record was written. */
  function Born(i: nat, kind: Kind): Inode { Inode(kind, if i == ROOT_INO then 2 else 1, 0, 0) }

  /** The attributes inode_load finds. */
  function RecordsOf(db: Db): (nodes: map<nat, Inode>)
    ensures forall i :: i in nodes <==> InodeKey(i) in db && db[InodeKey(i)].InodeValue?
    ensures forall i :: i in nodes ==> nodes[i] == db[InodeKey(i)].inode
  {
    map k | k in db && k.InodeKey? && db[k].InodeValue? :: k.ino := db[k].inode
  }

  predicate HasType(k: Key, v: Value) {
    match k
    case SuperKey => v.SuperValue?
    case InodeKey(_) => v.InodeValue?
    case Dirent(_, _) => v.ChildValue?
    case VerCounter(_) => v.Counter?
    case VerMeta(_, _) => v.MetaValue?
    case MemSeq(_) => v.Counter?
    case MemGen(_) => v.Counter?
    case _ => v.Bytes?
  }

  /** Attribute names that are not stored. */
  predicate Reserved(name: string) { "agentfs." <= name }

  /** The store between the two writes of the first mount. */
  predicate FirstWrite(db: Db) { db == map[SuperKey := SuperValue(ROOT_INO + 1)] }

  /** Keys that hold data of an inode. */
  predicate Owned(k: Key) { k.Block? || k.Xattr? || k.VerCounter? || k.VerMeta? || k.VerBlock? }

  predicate OwnedBy(k: Key, ino: nat) { Owned(k) && k.ino == ino }

  /** What every reachable state of the store satisfies, even between two writes of one
      operation: directory entries join existing inode records and can be looked up, data keys
      belong to an existing record, no attribute has a reserved name, and every record's number
      is below the persisted counter.
      The root has its record, except right after the first write of the first mount. */
  ghost predicate Recoverable(db: Db) {
    && SuperKey in db && (InodeKey(ROOT_INO) in db || FirstWrite(db))
    && (forall k :: k in db ==> HasType(k, db[k]))
    && (forall k :: k in db && k.Dirent? ==> InodeKey(k.parent) in db && InodeKey(db[k].child) in db)
    && (forall k :: k in db && k.Dirent? ==> Fits(k, KEY_MAX))
    && (forall k :: k in db && Owned(k) ==> InodeKey(k.ino) in db)
    && (forall k :: k in db && k.Xattr? ==> !Reserved(k.name))
    && (forall i: nat :: InodeKey(i) in db ==> i < db[SuperKey].nextIno)
  }

  class Context {
    var db: Db
    var inodes: map<nat, Inode>
    var nextIno: nat
    ghost var trail: seq<Db>
    ghost var history: map<nat, seq<seq<byte>>>

    /** Every state the store has been in is recoverable. */
    ghost predicate Safe() reads `db, `trail {
      && Recoverable(db)
      && (forall i :: 0 <= i < |trail| ==> Recoverable(trail[i]))
    }

    /** super_load on an empty store: superblock first, then the root directory. */
    constructor Mount()
      ensures Safe()
      ensures nextIno == ROOT_INO + 1 && history == map[ROOT_INO := []]
      ensures inodes == map[ROOT_INO := Inode(Dir, 2, 0, 0)]
      ensures db == map[SuperKey := SuperValue(nextIno), InodeKey(ROOT_INO) := InodeValue(Inode(Dir, 2, 0, 0))]
      ensures |trail| == 2 && FirstWrite(trail[0]) && trail[1] == db
    {
      nextIno := ROOT_INO + 1;
      inodes := map[ROOT_INO := Inode(Dir, 2, 0, 0)];
      history := map[ROOT_INO := []];
      db := map[SuperKey := SuperValue(ROOT_INO + 1)];
      trail := [map[SuperKey := SuperValue(ROOT_INO + 1)]];
      new;
      Put(InodeKey(ROOT_INO), InodeValue(Inode(Dir, 2, 0, 0)));
    }

    /** super_load on a store with a superblock: nothing is written, the counter is the stored
        one, and the cache fills from the records. */
    constructor Load(db: Db, ghost history: map<nat, seq<seq<byte>>>)
      requires Recoverable(db)
      ensures Safe() && this.db == db && trail == [] && this.history == history
      ensures nextIno == db[SuperKey].nextIno && inodes == RecordsOf(db)
    {
      this.db := db;
      inodes := RecordsOf(db);
      nextIno := db[SuperKey].nextIno;
      trail := [];
      this.history := history;
    }

    method Put(k: Key, v: Value)
      requires Safe() && Recoverable(db[k := v])
      modifies `db, `trail
      ensures Safe()
      ensures db == old(db)[k := v] && trail == old(trail) + [db]
    {
      db := db[k := v];
      trail := trail + [db];
    }

    method Delete(k: Key)
      requires Safe() && Recoverable(db - {k})
      modifies `db, `trail
      ensures Safe()
      ensures db == old(db) - {k} && trail == old(trail) + [db]
    {
      db := db - {k};
      trail := trail + [db];
    }
  }

  lemma PutOwned(db: Db, k: Key, v: Value)
    requires Recoverable(db) && Owned(k) && HasType(k, v) && InodeKey(k.ino) in db
    requires k.Xattr? ==> !Reserved(k.name)
    ensures Recoverable(db[k := v])
  {
  }

  lemma DeleteData(db: Db, k: Key)
    requires Recoverable(db) && !k.SuperKey? && !k.InodeKey?
    ensures Recoverable(db - {k})
  {
  }

  // ---- the blocks of a live file and of a stored version ----

  datatype Slot = Live(ino: nat) | Version(ino: nat, ver: nat)

  function SlotKey(slot: Slot, b: nat): Key {
    match slot
    case Live(i) => Block(i, b)
    case Version(i, v) => VerBlock(i, v, b)
  }

  predicate InSlot(slot: Slot, k: Key) {
    match slot
    case Live(i) => k.Block? && k.ino == i
    case Version(i, v) => k.VerBlock? && k.ino == i && k.ver == v
  }

  function BytesOf(v: Value): seq<byte> { if v.Bytes? then v.bytes else [] }

  function BlocksIn(db: Db, slot: Slot): (s: Blocks)
    ensures forall b :: b in s <==> SlotKey(slot, b) in db
    ensures forall b :: b in s ==> s[b] == BytesOf(db[SlotKey(slot, b)])
  {
    var s := map k | k in db && InSlot(slot, k) :: k.block := BytesOf(db[k]);
    assert forall b :: SlotKey(slot, b) in db ==> InSlot(slot, SlotKey(slot, b)) && SlotKey(slot, b).block == b;
    s
  }

  /** db' differs from db at most in the blocks of one slot. */
  ghost predicate OnlySlot(db: Db, db': Db, slot: Slot) {
    forall k :: !InSlot(slot, k) ==> (k in db <==> k in db') && (k in db ==> db[k] == db'[k])
  }

  lemma SlotPut(db: Db, slot: Slot, b: nat, x: seq<byte>)
    ensures BlocksIn(db[SlotKey(slot, b) := Bytes(x)], slot) == BlocksIn(db, slot)[b := x]
  {
    forall c ensures SlotKey(slot, c) == SlotKey(slot, b) <==> c == b {}
  }

  lemma SlotDelete(db: Db, slot: Slot, b: nat)
    ensures BlocksIn(db - {SlotKey(slot, b)}, slot) == BlocksIn(db, slot) - {b}
  {
    forall c ensures SlotKey(slot, c) == SlotKey(slot, b) <==> c == b {}
  }

  lemma SlotFrame(db: Db, db': Db, slot: Slot)
    requires forall k :: InSlot(slot, k) ==> (k in db <==> k in db') && (k in db ==> db[k] == db'[k])
    ensures BlocksIn(db', slot) == BlocksIn(db, slot)
  {
    assert forall b :: InSlot(slot, SlotKey(slot, b));
  }

  lemma OtherSlot(db: Db, db': Db, changed: Slot, slot: Slot)
    requires OnlySlot(db, db', changed) && slot != changed
    ensures BlocksIn(db', slot) == BlocksIn(db, slot)
  {
    SlotFrame(db, db', slot);
  }
}
