/** The operations that change the name space (create, mkdir, symlink, link, unlink, rmdir,
    rename in src/fuse_ops.c; inode_alloc, inode_create, inode_delete in src/inode.c).

    FsOk is the invariant of the whole file system between operations; Store.Recoverable,
    which every single Put and Delete re-establishes, is what holds inside them. */
module Namespace {
  import opened Keys
  import opened Sparse
  import opened Store
  import opened BlockLayer
  import opened Versions
  import opened Tree

  function ChildOf(v: Value): nat { if v.ChildValue? then v.child else 0 }

  /** The directory entries stored in db. */
  function EntriesOf(db: Db): (e: Entries)
    ensures forall x :: x in e <==> Dirent(x.parent, x.name) in db
    ensures forall x :: x in e ==> e[x] == ChildOf(db[Dirent(x.parent, x.name)])
  {
    var e := map k | k in db && k.Dirent? :: Entry(k.parent, k.name) := ChildOf(db[k]);
    assert forall x: Entry :: Dirent(x.parent, x.name) in db ==> Entry(Dirent(x.parent, x.name).parent, Dirent(x.parent, x.name).name) in e;
    e
  }

  type History = map<nat, seq<seq<byte>>>

  /** What a symlink points to: its block 0. */
  function LinkTarget(db: Db, i: nat): seq<byte> {
    var s := BlocksIn(db, Live(i));
    if 0 in s then s[0] else []
  }

  /** Stored data of inode i agree with its attributes and with the snapshots taken of it. */
  ghost predicate Stored(db: Db, nodes: Nodes, history: History, i: nat)
    requires i in nodes
  {
    && i in history && VersionsOk(db, i, history[i])
    && match nodes[i].kind
       case Regular => Ok(BlocksIn(db, Live(i)), nodes[i].size, nodes[i].blocks)
       case Symlink => BlocksIn(db, Live(i)).Keys == {0} && nodes[i].blocks == 1 && |LinkTarget(db, i)| == nodes[i].size
       case Dir => BlocksIn(db, Live(i)) == map[]
  }

  ghost predicate AllStored(db: Db, nodes: Nodes, history: History) {
    forall i {:trigger Stored(db, nodes, history, i)} :: i in nodes ==> Stored(db, nodes, history, i)
  }

  /** The records in the store are those of the live inodes, with the attributes they were made
      with, and the persisted counter is the one in memory. */
  ghost predicate Registered(db: Db, nodes: Nodes, nextIno: nat) {
    && SuperKey in db && db[SuperKey] == SuperValue(nextIno)
    && (forall i: nat :: i in nodes <==> InodeKey(i) in db)
    && (forall i :: i in nodes ==> db[InodeKey(i)] == InodeValue(Born(i, nodes[i].kind)))
    && 0 !in nodes
  }

  ghost predicate FsOk(db: Db, nodes: Nodes, nextIno: nat, history: History) {
    && Recoverable(db)
    && Registered(db, nodes, nextIno)
    && TreeOk(EntriesOf(db), nodes)
    && history.Keys == nodes.Keys
    && AllStored(db, nodes, history)
  }

  ghost predicate Healthy(g: Context)
    reads g
  {
    g.Safe() && FsOk(g.db, g.inodes, g.nextIno, g.history)
  }

  lemma HealthyParts(g: Context)
    requires Healthy(g)
    ensures g.Safe() && FsOk(g.db, g.inodes, g.nextIno, g.history)
    ensures Recoverable(g.db) && Registered(g.db, g.inodes, g.nextIno) && 0 !in g.inodes
    ensures Joined(EntriesOf(g.db), g.inodes) && TreeOk(EntriesOf(g.db), g.inodes)
    ensures g.history.Keys == g.inodes.Keys && AllStored(g.db, g.inodes, g.history)
  {
  }

  lemma StillHealthy(g: Context)
    requires g.Safe() && FsOk(g.db, g.inodes, g.nextIno, g.history)
    ensures Healthy(g)
  {
  }

  lemma FsStored(db: Db, nodes: Nodes, nextIno: nat, history: History)
    requires FsOk(db, nodes, nextIno, history)
    ensures AllStored(db, nodes, history)
  {
  }

  lemma FsIntro(db: Db, nodes: Nodes, nextIno: nat, history: History, e: Entries)
    requires Recoverable(db) && Registered(db, nodes, nextIno)
    requires e == EntriesOf(db) && TreeOk(e, nodes)
    requires history.Keys == nodes.Keys && AllStored(db, nodes, history)
    ensures FsOk(db, nodes, nextIno, history)
  {
  }

  // ---- frames ----

  ghost predicate SameOwned(db: Db, db': Db, i: nat) {
    forall k :: OwnedBy(k, i) ==> (k in db <==> k in db') && (k in db ==> db[k] == db'[k])
  }

  lemma StoredFrame(db: Db, db': Db, nodes: Nodes, nodes': Nodes, history: History, history': History, i: nat)
    requires i in nodes && Stored(db, nodes, history, i) && SameOwned(db, db', i)
    requires i in nodes' && nodes'[i].kind == nodes[i].kind
    requires nodes'[i].size == nodes[i].size && nodes'[i].blocks == nodes[i].blocks
    requires i in history' && history'[i] == history[i]
    ensures Stored(db', nodes', history', i)
  {
    SlotFrame(db, db', Live(i));
    VersionsFrame(db, db', i, history[i], Oldest(|history[i]|));
  }

  /** Data keys of every inode but c are unchanged. */
  ghost predicate OthersSame(db: Db, db': Db, c: nat) {
    forall k :: Owned(k) && k.ino != c ==> (k in db <==> k in db') && (k in db ==> db[k] == db'[k])
  }

  /** Attributes that stored data depend on, and snapshots, are unchanged but for inode c. */
  ghost predicate AttributesSame(nodes: Nodes, nodes': Nodes, history: History, history': History, c: nat) {
    forall i :: i in nodes' && i != c ==>
      && i in nodes && nodes'[i].kind == nodes[i].kind
      && nodes'[i].size == nodes[i].size && nodes'[i].blocks == nodes[i].blocks
      && i in history && i in history' && history'[i] == history[i]
  }

  lemma AllStoredFrame(db: Db, db': Db, nodes: Nodes, nodes': Nodes, history: History, history': History, c: nat)
    requires AllStored(db, nodes, history) && OthersSame(db, db', c)
    requires AttributesSame(nodes, nodes', history, history', c)
    requires c in nodes' ==> Stored(db', nodes', history', c)
    ensures AllStored(db', nodes', history')
  {
    forall i | i in nodes' ensures Stored(db', nodes', history', i) {
      if i != c {
        StoredFrame(db, db', nodes, nodes', history, history', i);
      }
    }
  }

  /** An inode without any stored data. */
  lemma StoredEmpty(db: Db, nodes: Nodes, history: History, i: nat)
    requires i in nodes && i in history && history[i] == []
    requires !nodes[i].kind.Symlink? && nodes[i].size == 0 && nodes[i].blocks == 0
    requires forall k :: k in db ==> !OwnedBy(k, i)
    ensures Stored(db, nodes, history, i)
  {
    assert forall b: nat :: SlotKey(Live(i), b) == Block(i, b) && OwnedBy(Block(i, b), i);
    assert BlocksIn(db, Live(i)) == map[];
    assert forall v: nat :: OwnedBy(VerMeta(i, v), i);
    assert forall v: nat, b: nat :: OwnedBy(VerBlock(i, v, b), i);
    assert OwnedBy(VerCounter(i), i);
  }

  /** Inodes below the counter are the only ones with keys; the next number is unused. */
  lemma FreshIno(db: Db, nodes: Nodes, nextIno: nat)
    requires Recoverable(db) && Registered(db, nodes, nextIno)
    ensures nextIno !in nodes && InodeKey(nextIno) !in db
    ensures forall k :: k in db ==> !OwnedBy(k, nextIno)
    ensures forall i :: i in nodes ==> i < nextIno
    ensures nextIno != 0 || nodes == map[]
  {
    forall k | k in db ensures !OwnedBy(k, nextIno) {
      assert Owned(k) ==> InodeKey(k.ino) in db;
    }
    forall i | i in nodes ensures i < nextIno {
      assert InodeKey(i) in db;
    }
  }

  // ---- inodes ----

  /** dirent_lookup: 0 when absent or when the key does not fit its buffer. */
  function Lookup(db: Db, p: nat, name: string): nat {
    if Fits(Dirent(p, name), KEY_MAX) && Dirent(p, name) in db then ChildOf(db[Dirent(p, name)]) else 0
  }

  lemma LookupMeans(db: Db, nodes: Nodes, p: nat, name: string)
    requires Joined(EntriesOf(db), nodes) && 0 !in nodes
    ensures Fits(Dirent(p, name), KEY_MAX) ==> (Lookup(db, p, name) == 0 <==> Entry(p, name) !in EntriesOf(db))
    ensures Lookup(db, p, name) != 0 ==>
      Entry(p, name) in EntriesOf(db) && EntriesOf(db)[Entry(p, name)] == Lookup(db, p, name)
  {
    var x := Entry(p, name);
    assert x in EntriesOf(db) ==> EntriesOf(db)[x] in nodes;
  }

  /** In a sound store a lookup finds exactly the entry there is. */
  lemma LookupExact(db: Db, nodes: Nodes, nextIno: nat, p: nat, name: string)
    requires Recoverable(db) && Registered(db, nodes, nextIno)
    ensures Lookup(db, p, name) != 0 <==> Dirent(p, name) in db
    ensures Dirent(p, name) in db ==> Lookup(db, p, name) == ChildOf(db[Dirent(p, name)]) && Lookup(db, p, name) in nodes
    ensures Dirent(p, name) in db ==> Fits(Dirent(p, name), KEY_MAX)
  {
    hide Fits;
  }

  /** The store after inode_create: the counter is saved before the record is written. */
  function WithRecord(db: Db, ino: nat, kind: Kind): Db {
    db[SuperKey := SuperValue(ino + 1)][InodeKey(ino) := InodeValue(Inode(kind, 1, 0, 0))]
  }

  lemma RecordReady(db: Db, ino: nat, kind: Kind)
    requires Recoverable(db) && db[SuperKey] == SuperValue(ino) && InodeKey(ROOT_INO) in db
    ensures Recoverable(db[SuperKey := SuperValue(ino + 1)]) && Recoverable(WithRecord(db, ino, kind))
  {
    hide Fits;
  }

  /** inode_alloc and inode_create. */
  method InodeCreate(g: Context, kind: Kind) returns (ino: nat)
    requires g.Safe() && Registered(g.db, g.inodes, g.nextIno) && InodeKey(ROOT_INO) in g.db
    modifies g
    ensures g.Safe() && old(g.trail) <= g.trail
    ensures ino == old(g.nextIno) && g.nextIno == ino + 1
    ensures g.db == WithRecord(old(g.db), ino, kind)
    ensures g.inodes == old(g.inodes)[ino := Inode(kind, 1, 0, 0)]
    ensures g.history == old(g.history)[ino := []]
  {
    ino := g.nextIno;
    RecordReady(g.db, ino, kind);
    hide Recoverable, Registered;
    g.nextIno := ino + 1;
    g.Put(SuperKey, SuperValue(g.nextIno));
    g.Put(InodeKey(ino), InodeValue(Inode(kind, 1, 0, 0)));
    g.inodes := g.inodes[ino := Inode(kind, 1, 0, 0)];
    g.history := g.history[ino := []];
  }

  /** No directory entry names inode c or is in it. */
  ghost predicate Unmentioned(db: Db, c: nat) {
    forall k :: k in db && k.Dirent? ==> k.parent != c && ChildOf(db[k]) != c
  }

  /** Nothing in the store mentions inode c apart from its record. */
  ghost predicate Unused(db: Db, c: nat) {
    (forall k :: k in db ==> !OwnedBy(k, c)) && Unmentioned(db, c)
  }

  /** inode_delete: the record goes last. */
  method InodeDelete(g: Context, c: nat)
    requires g.Safe() && Unused(g.db, c) && c != ROOT_INO
    modifies g
    ensures g.Safe() && old(g.trail) <= g.trail
    ensures g.db == old(g.db) - {InodeKey(c)} && g.inodes == old(g.inodes) - {c}
    ensures g.history == old(g.history) - {c} && g.nextIno == old(g.nextIno)
  {
    DeleteRecord(g.db, c);
    g.Delete(InodeKey(c));
    g.inodes := g.inodes - {c};
    g.history := g.history - {c};
  }

  lemma DeleteRecord(db: Db, c: nat)
    requires Recoverable(db) && Unused(db, c) && c != ROOT_INO
    ensures Recoverable(db - {InodeKey(c)})
  {
    var db' := db - {InodeKey(c)};
    forall k | k in db' && k.Dirent? ensures InodeKey(k.parent) in db' && InodeKey(db'[k].child) in db' {
      assert k.parent != c && ChildOf(db[k]) != c;
    }
    forall k | k in db' && Owned(k) ensures InodeKey(k.ino) in db' {
      assert !OwnedBy(k, c);
    }
  }

  /** The store without any block, attribute or version of inode c. */
  function WithoutData(db: Db, c: nat): Db { map k | k in db && !OwnedBy(k, c) :: db[k] }

  /** The store without any key of inode c, its record included. */
  function WithoutInode(db: Db, c: nat): Db { map k | k in db && !OwnedBy(k, c) && k != InodeKey(c) :: db[k] }

  /** What unlink, rmdir and rename do to an inode whose last name is gone: its blocks (of a
      file), attributes, versions and finally its record.  No key of it is left. */
  method DropInode(g: Context, c: nat, isDir: bool, blocks: nat)
    requires g.Safe() && c in g.inodes && Stored(g.db, g.inodes, g.history, c)
    requires isDir == g.inodes[c].kind.Dir? && blocks == g.inodes[c].blocks
    requires Unmentioned(g.db, c) && c != ROOT_INO
    modifies g
    ensures g.Safe() && old(g.trail) <= g.trail
    ensures g.db == WithoutInode(old(g.db), c) && g.inodes == old(g.inodes) - {c}
    ensures g.history == old(g.history) - {c} && g.nextIno == old(g.nextIno)
  {
    hide Fits, Recoverable, EntriesOf, Stored;
    DropData(g, c, isDir, blocks);
    InodeDelete(g, c);
  }

  /** delete_file_blocks, xattr_delete_all and version_delete_all. */
  method DropData(g: Context, c: nat, isDir: bool, blocks: nat)
    requires g.Safe() && c in g.inodes && Stored(g.db, g.inodes, g.history, c)
    requires isDir == g.inodes[c].kind.Dir? && blocks == g.inodes[c].blocks
    modifies g`db, g`trail
    ensures g.Safe() && old(g.trail) <= g.trail
    ensures g.db == WithoutData(old(g.db), c)
  {
    StoredVersions(g.db, g.inodes, g.history, c);
    hide Fits, Recoverable, EntriesOf, BlocksIn, Without, Ok, Stored, VersionsOk, OnlySlot, WithoutData, Unselected;
    ghost var db0 := g.db;
    if !isDir {
      DeleteFileBlocks(g, c, 0, blocks);
    }
    ghost var db1 := g.db;
    BlocksGone(db0, db1, g.inodes, g.history, c);
    DeletePrefix(g, XattrsOf(c));
    ghost var db2 := g.db;
    VersionsPastData(db0, db1, db2, c, g.history[c]);
    VersionDeleteAll(g, c, g.history[c]);
    OwnedGone(db0, db1, db2, g.db, c);
  }

  lemma StoredVersions(db: Db, nodes: Nodes, history: History, c: nat)
    requires c in nodes && Stored(db, nodes, history, c)
    ensures c in history && VersionsOk(db, c, history[c])
  {
  }

  /** Deleting blocks and attributes leaves the versions. */
  lemma VersionsPastData(db0: Db, db1: Db, db2: Db, c: nat, h: seq<seq<byte>>)
    requires VersionsOk(db0, c, h) && OnlySlot(db0, db1, Live(c)) && db2 == Unselected(db1, XattrsOf(c))
    ensures VersionsOk(db2, c, h)
  {
    hide Window;
    VersionsFrame(db0, db2, c, h, Oldest(|h|));
  }

  lemma BlocksGone(db0: Db, db1: Db, nodes: Nodes, history: History, c: nat)
    requires c in nodes && Stored(db0, nodes, history, c)
    requires OnlySlot(db0, db1, Live(c))
    requires BlocksIn(db1, Live(c)) == if nodes[c].kind.Dir? then BlocksIn(db0, Live(c)) else Without(BlocksIn(db0, Live(c)), 0, nodes[c].blocks)
    ensures forall k :: k in db1 ==> !InSlot(Live(c), k)
  {
    assert BlocksIn(db1, Live(c)) == map[];
    forall k | k in db1 ensures !InSlot(Live(c), k) {
      assert InSlot(Live(c), k) ==> SlotKey(Live(c), k.block) == k;
    }
  }

  lemma OwnedGone(db0: Db, db1: Db, db2: Db, db3: Db, c: nat)
    requires OnlySlot(db0, db1, Live(c)) && (forall k :: k in db1 ==> !InSlot(Live(c), k))
    requires db2 == Unselected(db1, XattrsOf(c))
    requires OnlyVersions(db2, db3, c) && (forall k :: k in db3 ==> !VersionKey(k, c))
    ensures db3 == WithoutData(db0, c)
  {
    forall k ensures k in db3 <==> k in db0 && !OwnedBy(k, c)
             ensures k in db3 ==> db3[k] == db0[k]
    {
      if VersionKey(k, c) {
      } else if Selects(XattrsOf(c), k) {
      } else if InSlot(Live(c), k) {
      } else {
      }
    }
  }

  // ---- adding names ----

  lemma PutEntry(db: Db, p: nat, name: string, c: nat)
    ensures EntriesOf(db[Dirent(p, name) := ChildValue(c)]) == EntriesOf(db)[Entry(p, name) := c]
  {
  }

  lemma PutDirent(db: Db, p: nat, name: string, c: nat)
    requires Recoverable(db) && InodeKey(p) in db && InodeKey(c) in db && Fits(Dirent(p, name), KEY_MAX)
    ensures Recoverable(db[Dirent(p, name) := ChildValue(c)])
    ensures EntriesOf(db[Dirent(p, name) := ChildValue(c)]) == EntriesOf(db)[Entry(p, name) := c]
  {
    PutEntry(db, p, name, c);
  }

  lemma RemoveEntry(db: Db, p: nat, name: string)
    ensures EntriesOf(db - {Dirent(p, name)}) == EntriesOf(db) - {Entry(p, name)}
  {
    var e, e' := EntriesOf(db) - {Entry(p, name)}, EntriesOf(db - {Dirent(p, name)});
    hide EntriesOf;
    forall x ensures x in e' <==> x in e {
      assert Dirent(x.parent, x.name) == Dirent(p, name) <==> x == Entry(p, name);
    }
    assert forall x :: x in e ==> e'[x] == e[x];
  }

  lemma RemoveDirent(db: Db, p: nat, name: string)
    requires Recoverable(db)
    ensures Recoverable(db - {Dirent(p, name)})
    ensures EntriesOf(db - {Dirent(p, name)}) == EntriesOf(db) - {Entry(p, name)}
  {
    RemoveEntry(db, p, name);
    hide EntriesOf, Fits;
  }

  lemma SameEntries(db: Db, db': Db)
    requires forall k: Key :: k.Dirent? ==> (k in db <==> k in db') && (k in db ==> db[k] == db'[k])
    ensures EntriesOf(db') == EntriesOf(db)
  {
  }

  /** Whether a new name may be added, in the order the operations check. */
  function AddStatus(db: Db, nodes: Nodes, p: nat, name: string): Status {
    if p !in nodes then ENOENT
    else if !nodes[p].kind.Dir? then ENOTDIR
    else if Lookup(db, p, name) != 0 then EEXIST
    else if !Fits(Dirent(p, name), KEY_MAX) then EIO
    else Done
  }

  /** The answer to a new name, by what is there: a missing parent, a parent that is no directory,
      an entry of that name, a name that is too long, or success. */
  ghost predicate AddAnswer(r: Status, db: Db, nodes: Nodes, p: nat, name: string) {
    && (r.ENOENT? <==> p !in nodes)
    && (r.ENOTDIR? <==> p in nodes && !IsDir(nodes, p))
    && (r.EEXIST? <==> IsDir(nodes, p) && Dirent(p, name) in db)
    && (r.EIO? <==> IsDir(nodes, p) && Dirent(p, name) !in db && !Fits(Dirent(p, name), KEY_MAX))
    && (r.Done? <==> IsDir(nodes, p) && Dirent(p, name) !in db && Fits(Dirent(p, name), KEY_MAX))
  }

  lemma AddStatusExact(db: Db, nodes: Nodes, nextIno: nat, p: nat, name: string)
    requires Recoverable(db) && Registered(db, nodes, nextIno)
    ensures AddAnswer(AddStatus(db, nodes, p, name), db, nodes, p, name)
  {
    hide Fits, Lookup, Recoverable, Registered;
    LookupExact(db, nodes, nextIno, p, name);
  }

  /** kvbfs_create, kvbfs_mkdir and kvbfs_symlink share this outcome: a fresh inode under a
      new name, or a used-up inode number when the name does not fit, or nothing. */
  ghost predicate Outcome(r: Status, db: Db, nodes: Nodes, nextIno: nat, history: History,
    db': Db, nodes': Nodes, nextIno': nat, history': History, p: nat, name: string, node: Inode, data: Db)
  {
    match r
    case Done =>
      && p in nodes && p != nextIno
      && nextIno' == nextIno + 1
      && db' == Added(db, nextIno, p, name, node, data)
      && nodes' == NewNode(nodes, p, nextIno, node)
      && history' == history[nextIno := []]
    case EIO =>
      && nextIno' == nextIno + 1 && db' == db[SuperKey := SuperValue(nextIno + 1)]
      && nodes' == nodes && history' == history
    case _ => nextIno' == nextIno && db' == db && nodes' == nodes && history' == history
  }

  lemma OutcomeIs(r: Status, db: Db, nodes: Nodes, nextIno: nat, history: History,
    db': Db, nodes': Nodes, nextIno': nat, history': History, p: nat, name: string, node: Inode, data: Db)
    requires (r.Done? || r.EIO?) && p in nodes && p != nextIno && nextIno' == nextIno + 1
    requires r.Done? ==> db' == Added(db, nextIno, p, name, node, data)
    requires r.Done? ==> nodes' == NewNode(nodes, p, nextIno, node) && history' == history[nextIno := []]
    requires r.EIO? ==> db' == db[SuperKey := SuperValue(nextIno + 1)] && nodes' == nodes && history' == history
    ensures Outcome(r, db, nodes, nextIno, history, db', nodes', nextIno', history', p, name, node, data)
  {
  }

  /** What is stored with a fresh inode: nothing, or the target of a symlink as block 0. */
  predicate NewData(data: Db, node: Inode, ino: nat) {
    if node.kind.Symlink? then
      && node.blocks == 1 && data.Keys == {Block(ino, 0)}
      && data[Block(ino, 0)].Bytes? && |data[Block(ino, 0)].bytes| == node.size
    else data == map[] && node.size == 0 && node.blocks == 0
  }

  /** The store with a fresh inode of this node and data under a new name. */
  function Added(db: Db, nextIno: nat, p: nat, name: string, node: Inode, data: Db): Db {
    (WithRecord(db, nextIno, node.kind) + data)[Dirent(p, name) := ChildValue(nextIno)]
  }

  lemma AddedEntries(db: Db, c: nat, p: nat, name: string, node: Inode, data: Db)
    requires NewData(data, node, c)
    ensures EntriesOf(Added(db, c, p, name, node, data)) == EntriesOf(db)[Entry(p, name) := c]
  {
    var mid := WithRecord(db, c, node.kind) + data;
    SameEntries(db, mid);
    PutEntry(mid, p, name, c);
  }

  lemma AddedFrames(db: Db, nodes: Nodes, c: nat, p: nat, name: string, node: Inode, data: Db, history: History)
    requires p in nodes && p != c && NewData(data, node, c) && history.Keys == nodes.Keys
    ensures OthersSame(db, Added(db, c, p, name, node, data), c)
    ensures AttributesSame(nodes, NewNode(nodes, p, c, node), history, history[c := []], c)
  {
  }

  lemma AddedRegistered(db: Db, nodes: Nodes, c: nat, p: nat, name: string, node: Inode, data: Db)
    requires Registered(db, nodes, c) && p in nodes && p != c && c > ROOT_INO && NewData(data, node, c)
    ensures Registered(Added(db, c, p, name, node, data), NewNode(nodes, p, c, node), c + 1)
  {
  }

  lemma NoVersions(db: Db, c: nat)
    requires forall k :: k in db && OwnedBy(k, c) ==> k.Block?
    ensures VersionsOk(db, c, [])
  {
    assert forall v: nat :: OwnedBy(VerMeta(c, v), c);
    assert forall v: nat, b: nat :: OwnedBy(VerBlock(c, v, b), c);
    assert OwnedBy(VerCounter(c), c);
  }

  lemma AddedStored(db: Db, nodes: Nodes, c: nat, p: nat, name: string, node: Inode, data: Db, history: History)
    requires forall k :: k in db ==> !OwnedBy(k, c)
    requires p in nodes && p != c && NewData(data, node, c)
    ensures Stored(Added(db, c, p, name, node, data), NewNode(nodes, p, c, node), history[c := []], c)
  {
    hide VersionsOk;
    var db', nodes', history' := Added(db, c, p, name, node, data), NewNode(nodes, p, c, node), history[c := []];
    forall k ensures k in db' && OwnedBy(k, c) ==> k in data {}
    if data == map[] {
      StoredEmpty(db', nodes', history', c);
    } else {
      assert forall b: nat :: SlotKey(Live(c), b) == Block(c, b) && OwnedBy(Block(c, b), c);
      NoVersions(db', c);
    }
  }

  /** Adding a fresh inode under a new name keeps the whole invariant. */
  lemma NewNameHealthy(db: Db, nodes: Nodes, nextIno: nat, history: History, p: nat, name: string, node: Inode, data: Db)
    requires FsOk(db, nodes, nextIno, history)
    requires IsDir(nodes, p) && Entry(p, name) !in EntriesOf(db)
    requires node.nlink == if node.kind.Dir? then 2 else 1
    requires NewData(data, node, nextIno)
    requires Recoverable(Added(db, nextIno, p, name, node, data))
    ensures p != nextIno
    ensures FsOk(Added(db, nextIno, p, name, node, data), NewNode(nodes, p, nextIno, node), nextIno + 1, history[nextIno := []])
  {
    hide TreeOk, EntriesOf, Stored, Recoverable, AllStored, FsOk, Registered;
    FsShape(db, nodes, nextIno, history);
    FsStored(db, nodes, nextIno, history);
    var c := nextIno;
    FreshIno(db, nodes, nextIno);
    var db', nodes', history' := Added(db, c, p, name, node, data), NewNode(nodes, p, c, node), history[c := []];
    AddedEntries(db, c, p, name, node, data);
    AddedRegistered(db, nodes, c, p, name, node, data);
    NewNodeKeeps(EntriesOf(db), nodes, Entry(p, name), c, node);
    AddedStored(db, nodes, c, p, name, node, data, history);
    AddedFrames(db, nodes, c, p, name, node, data, history);
    AllStoredFrame(db, db', nodes, nodes', history, history', c);
    FsIntro(db', nodes', c + 1, history', EntriesOf(db)[Entry(p, name) := c]);
  }

  lemma Undone<K, V>(m: map<K, V>, k: K, v: V)
    requires k !in m
    ensures m[k := v] - {k} == m
  {
  }

  lemma UnusedIno(db: Db, nodes: Nodes, nextIno: nat)
    requires Joined(EntriesOf(db), nodes) && nextIno !in nodes && 0 !in nodes && nextIno != 0
    requires forall k :: k in db ==> !OwnedBy(k, nextIno)
    ensures Unused(db, nextIno)
  {
    forall k | k in db && k.Dirent? ensures k.parent != nextIno && ChildOf(db[k]) != nextIno {
      assert Entry(k.parent, k.name) in EntriesOf(db);
    }
  }

  /** Exactly one entry is added, or none. */
  lemma OutcomeEntries(r: Status, db: Db, nodes: Nodes, nextIno: nat, history: History,
    db': Db, nodes': Nodes, nextIno': nat, history': History, p: nat, name: string, node: Inode, data: Db)
    requires Outcome(r, db, nodes, nextIno, history, db', nodes', nextIno', history', p, name, node, data)
    requires NewData(data, node, nextIno)
    ensures EntriesOf(db') == if r.Done? then EntriesOf(db)[Entry(p, name) := nextIno] else EntriesOf(db)
  {
    hide EntriesOf, NewData, Added;
    if r.Done? {
      AddedEntries(db, nextIno, p, name, node, data);
    } else if r.EIO? {
      SameEntries(db, db');
    }
  }

  /** Every outcome of adding a fresh inode keeps the whole invariant. */
  lemma OutcomeHealthy(r: Status, db: Db, nodes: Nodes, nextIno: nat, history: History,
    db': Db, nodes': Nodes, nextIno': nat, history': History, p: nat, name: string, node: Inode, data: Db)
    requires FsOk(db, nodes, nextIno, history) && Recoverable(db')
    requires Outcome(r, db, nodes, nextIno, history, db', nodes', nextIno', history', p, name, node, data)
    requires r.Done? ==> IsDir(nodes, p) && Entry(p, name) !in EntriesOf(db)
    requires node.nlink == (if node.kind.Dir? then 2 else 1) && NewData(data, node, nextIno)
    ensures FsOk(db', nodes', nextIno', history')
  {
    if r.Done? {
      NewNameHealthy(db, nodes, nextIno, history, p, name, node, data);
    } else if r.EIO? {
      WastedIno(db, nodes, nextIno, history);
    }
  }

  /** kvbfs_create */
  method Create(g: Context, p: nat, name: string) returns (r: Status)
    requires Healthy(g)
    modifies g
    ensures Healthy(g) && old(g.trail) <= g.trail
    ensures r == AddStatus(old(g.db), old(g.inodes), p, name) && AddAnswer(r, old(g.db), old(g.inodes), p, name)
    ensures EntriesOf(g.db) == if r.Done? then EntriesOf(old(g.db))[Entry(p, name) := old(g.nextIno)] else EntriesOf(old(g.db))
    ensures Outcome(r, old(g.db), old(g.inodes), old(g.nextIno), old(g.history),
                    g.db, g.inodes, g.nextIno, g.history, p, name, Inode(Regular, 1, 0, 0), map[])
  {
    hide AddAnswer, Fits, Healthy, FsOk, Recoverable, Registered, TreeOk, AllStored, EntriesOf;
    HealthyParts(g);
    AddStatusExact(g.db, g.inodes, g.nextIno, p, name);
    if p !in g.inodes {
      return ENOENT;
    }
    if !g.inodes[p].kind.Dir? {
      return ENOTDIR;
    }
    LookupMeans(g.db, g.inodes, p, name);
    if Lookup(g.db, p, name) != 0 {
      return EEXIST;
    }
    FreshIno(g.db, g.inodes, g.nextIno);
    UnusedIno(g.db, g.inodes, g.nextIno);
    r := CreateNode(g, p, name);
    OutcomeHealthy(r, old(g.db), old(g.inodes), old(g.nextIno), old(g.history),
                   g.db, g.inodes, g.nextIno, g.history, p, name, Inode(Regular, 1, 0, 0), map[]);
    OutcomeEntries(r, old(g.db), old(g.inodes), old(g.nextIno), old(g.history),
                   g.db, g.inodes, g.nextIno, g.history, p, name, Inode(Regular, 1, 0, 0), map[]);
    StillHealthy(g);
  }

  lemma NodeReady(db: Db, nodes: Nodes, history: History, nextIno: nat, p: nat, data: Db, node: Inode)
    requires Recoverable(db) && Registered(db, nodes, nextIno) && IsDir(nodes, p)
    requires nextIno !in nodes && nextIno !in history && Unused(db, nextIno) && NewData(data, node, nextIno)
    ensures FreshFor(db, nodes, history, p, nextIno, data, node)
    ensures p != nextIno && InodeKey(ROOT_INO) in db
    ensures data == map[] ==> WithRecord(db, nextIno, node.kind) + data == WithRecord(db, nextIno, node.kind)
  {
    hide Fits, Unused;
  }

  method CreateNode(g: Context, p: nat, name: string) returns (r: Status)
    requires g.Safe() && Registered(g.db, g.inodes, g.nextIno) && IsDir(g.inodes, p)
    requires Unused(g.db, g.nextIno) && g.nextIno !in g.inodes && g.nextIno !in g.history
    modifies g
    ensures g.Safe() && old(g.trail) <= g.trail
    ensures r == if Fits(Dirent(p, name), KEY_MAX) then Done else EIO
    ensures Outcome(r, old(g.db), old(g.inodes), old(g.nextIno), old(g.history),
                    g.db, g.inodes, g.nextIno, g.history, p, name, Inode(Regular, 1, 0, 0), map[])
  {
    NoData(Inode(Regular, 1, 0, 0), g.nextIno);
    NodeReady(g.db, g.inodes, g.history, g.nextIno, p, map[], Inode(Regular, 1, 0, 0));
    hide *;
    var ino := InodeCreate(g, Regular);
    r := AddName(g, p, name, ino, false, old(g.db), old(g.inodes), old(g.history), map[], Inode(Regular, 1, 0, 0));
    NewLeaf(old(g.inodes), p, ino, Inode(Regular, 1, 0, 0));
    OutcomeIs(r, old(g.db), old(g.inodes), ino, old(g.history),
              g.db, g.inodes, g.nextIno, g.history, p, name, Inode(Regular, 1, 0, 0), map[]);
  }

  lemma NewLeaf(nodes: Nodes, p: nat, c: nat, node: Inode)
    requires p in nodes && p != c && !node.kind.Dir?
    ensures NewNode(nodes, p, c, node) == nodes[c := node]
  {
  }

  /** An inode number that was allocated but not used harms nothing. */
  lemma WastedIno(db: Db, nodes: Nodes, nextIno: nat, history: History)
    requires FsOk(db, nodes, nextIno, history)
    ensures FsOk(db[SuperKey := SuperValue(nextIno + 1)], nodes, nextIno + 1, history)
  {
    hide TreeOk, EntriesOf, Stored;
    var db' := db[SuperKey := SuperValue(nextIno + 1)];
    FsShape(db, nodes, nextIno, history);
    assert InodeKey(ROOT_INO) in db;
    FreshIno(db, nodes, nextIno);
    SameEntries(db, db');
    AllStoredFrame(db, db', nodes, nodes, history, history, nextIno);
  }

  /** Inode ino is new to a state with directory p, and is to be stored with this node and data. */
  ghost predicate FreshFor(db: Db, nodes: Nodes, history: History, p: nat, ino: nat, data: Db, node: Inode) {
    && Recoverable(db) && InodeKey(p) in db && InodeKey(ino) !in db && ino != ROOT_INO
    && Unused(db, ino) && NewData(data, node, ino) && ino !in nodes && ino !in history
  }

  /** dirent_add for a fresh inode, with the clean-up when the key does not fit.  The ghost
      arguments are the state before the operation and what was added to it since. */
  method AddName(g: Context, p: nat, name: string, ino: nat, hasBlock: bool,
    ghost db0: Db, ghost nodes0: Nodes, ghost history0: History, ghost data: Db, ghost node: Inode) returns (r: Status)
    requires g.Safe() && FreshFor(db0, nodes0, history0, p, ino, data, node) && hasBlock == node.kind.Symlink?
    requires g.db == WithRecord(db0, ino, node.kind) + data
    requires g.inodes == nodes0[ino := node] && g.history == history0[ino := []]
    modifies g
    ensures g.Safe() && old(g.trail) <= g.trail && g.nextIno == old(g.nextIno)
    ensures r == if Fits(Dirent(p, name), KEY_MAX) then Done else EIO
    ensures r.Done? ==> g.db == Added(db0, ino, p, name, node, data)
    ensures r.Done? ==> g.inodes == old(g.inodes) && g.history == old(g.history)
    ensures r.EIO? ==> g.db == db0[SuperKey := SuperValue(ino + 1)]
    ensures r.EIO? ==> g.inodes == nodes0 && g.history == history0
  {
    hide Fits, Recoverable;
    if !Fits(Dirent(p, name), KEY_MAX) {
      if hasBlock {
        DeleteData(g.db, Block(ino, 0));
        g.Delete(Block(ino, 0));
      }
      UndoneRecord(db0, ino, node.kind, data, g.db);
      Undone(nodes0, ino, node);
      Undone(history0, ino, []);
      InodeDelete(g, ino);
      return EIO;
    }
    PutDirent(g.db, p, name, ino);
    g.Put(Dirent(p, name), ChildValue(ino));
    return Done;
  }

  lemma UndoneRecord(db0: Db, ino: nat, kind: Kind, data: Db, db: Db)
    requires InodeKey(ino) !in db0 && Unused(db0, ino)
    requires data == map[] || data.Keys == {Block(ino, 0)}
    requires db == if data == map[] then WithRecord(db0, ino, kind) + data else WithRecord(db0, ino, kind) + data - {Block(ino, 0)}
    ensures Unused(db, ino)
    ensures db - {InodeKey(ino)} == db0[SuperKey := SuperValue(ino + 1)]
  {
    assert OwnedBy(Block(ino, 0), ino);
    assert db == WithRecord(db0, ino, kind);
  }

  /** kvbfs_mkdir */
  method Mkdir(g: Context, p: nat, name: string) returns (r: Status)
    requires Healthy(g)
    modifies g
    ensures Healthy(g) && old(g.trail) <= g.trail
    ensures r == AddStatus(old(g.db), old(g.inodes), p, name) && AddAnswer(r, old(g.db), old(g.inodes), p, name)
    ensures EntriesOf(g.db) == if r.Done? then EntriesOf(old(g.db))[Entry(p, name) := old(g.nextIno)] else EntriesOf(old(g.db))
    ensures Outcome(r, old(g.db), old(g.inodes), old(g.nextIno), old(g.history),
                    g.db, g.inodes, g.nextIno, g.history, p, name, Inode(Dir, 2, 0, 0), map[])
  {
    hide AddAnswer, Fits, Healthy, FsOk, Recoverable, Registered, TreeOk, AllStored, EntriesOf;
    HealthyParts(g);
    AddStatusExact(g.db, g.inodes, g.nextIno, p, name);
    if p !in g.inodes {
      return ENOENT;
    }
    if !g.inodes[p].kind.Dir? {
      return ENOTDIR;
    }
    LookupMeans(g.db, g.inodes, p, name);
    if Lookup(g.db, p, name) != 0 {
      return EEXIST;
    }
    FreshIno(g.db, g.inodes, g.nextIno);
    UnusedIno(g.db, g.inodes, g.nextIno);
    r := MkdirNode(g, p, name);
    OutcomeHealthy(r, old(g.db), old(g.inodes), old(g.nextIno), old(g.history),
                   g.db, g.inodes, g.nextIno, g.history, p, name, Inode(Dir, 2, 0, 0), map[]);
    OutcomeEntries(r, old(g.db), old(g.inodes), old(g.nextIno), old(g.history),
                   g.db, g.inodes, g.nextIno, g.history, p, name, Inode(Dir, 2, 0, 0), map[]);
    StillHealthy(g);
  }

  lemma NoData(node: Inode, ino: nat)
    requires !node.kind.Symlink? && node.size == 0 && node.blocks == 0
    ensures NewData(map[], node, ino)
  {
  }

  /** A fresh directory inode. */
  method DirNode(g: Context) returns (ino: nat)
    requires g.Safe() && Registered(g.db, g.inodes, g.nextIno) && InodeKey(ROOT_INO) in g.db
    modifies g
    ensures g.Safe() && old(g.trail) <= g.trail
    ensures ino == old(g.nextIno) && g.nextIno == ino + 1
    ensures g.db == WithRecord(old(g.db), ino, Dir)
    ensures g.inodes == old(g.inodes)[ino := Inode(Dir, 2, 0, 0)]
    ensures g.history == old(g.history)[ino := []]
  {
    hide Fits, Recoverable, Registered;
    ino := InodeCreate(g, Dir);
    g.inodes := g.inodes[ino := g.inodes[ino].(nlink := 2)];
  }

  method CountChild(g: Context, p: nat)
    requires p in g.inodes
    modifies g`inodes
    ensures g.inodes == old(g.inodes)[p := old(g.inodes)[p].(nlink := old(g.inodes)[p].nlink + 1)]
  {
    g.inodes := g.inodes[p := g.inodes[p].(nlink := g.inodes[p].nlink + 1)];
  }

  lemma NewDir(mid: Nodes, nodes: Nodes, p: nat, c: nat)
    requires p in nodes && p != c && mid == nodes[c := Inode(Dir, 2, 0, 0)]
    ensures p in mid && mid[p := mid[p].(nlink := mid[p].nlink + 1)] == NewNode(nodes, p, c, Inode(Dir, 2, 0, 0))
  {
  }

  /** The new directory under its name, before its parent's count is raised. */
  method NamedDir(g: Context, p: nat, name: string) returns (r: Status)
    requires g.Safe() && Registered(g.db, g.inodes, g.nextIno) && IsDir(g.inodes, p)
    requires Unused(g.db, g.nextIno) && g.nextIno !in g.inodes && g.nextIno !in g.history
    modifies g
    ensures g.Safe() && old(g.trail) <= g.trail && g.nextIno == old(g.nextIno) + 1
    ensures r == if Fits(Dirent(p, name), KEY_MAX) then Done else EIO
    ensures g.db == if r.Done? then Added(old(g.db), old(g.nextIno), p, name, Inode(Dir, 2, 0, 0), map[])
                    else old(g.db)[SuperKey := SuperValue(old(g.nextIno) + 1)]
    ensures g.inodes == if r.Done? then old(g.inodes)[old(g.nextIno) := Inode(Dir, 2, 0, 0)] else old(g.inodes)
    ensures g.history == if r.Done? then old(g.history)[old(g.nextIno) := []] else old(g.history)
  {
    NoData(Inode(Dir, 2, 0, 0), g.nextIno);
    NodeReady(g.db, g.inodes, g.history, g.nextIno, p, map[], Inode(Dir, 2, 0, 0));
    hide *;
    var ino := DirNode(g);
    r := AddName(g, p, name, ino, false, old(g.db), old(g.inodes), old(g.history), map[], Inode(Dir, 2, 0, 0));
  }

  method MkdirNode(g: Context, p: nat, name: string) returns (r: Status)
    requires g.Safe() && Registered(g.db, g.inodes, g.nextIno) && IsDir(g.inodes, p)
    requires Unused(g.db, g.nextIno) && g.nextIno !in g.inodes && g.nextIno !in g.history
    modifies g
    ensures g.Safe() && old(g.trail) <= g.trail
    ensures r == if Fits(Dirent(p, name), KEY_MAX) then Done else EIO
    ensures Outcome(r, old(g.db), old(g.inodes), old(g.nextIno), old(g.history),
                    g.db, g.inodes, g.nextIno, g.history, p, name, Inode(Dir, 2, 0, 0), map[])
  {
    hide Unused, Registered, Fits, Added, NewNode, Outcome, Context.Safe;
    r := NamedDir(g, p, name);
    if r.Done? {
      NewDir(g.inodes, old(g.inodes), p, old(g.nextIno));
      CountChild(g, p);
    }
    OutcomeIs(r, old(g.db), old(g.inodes), old(g.nextIno), old(g.history),
              g.db, g.inodes, g.nextIno, g.history, p, name, Inode(Dir, 2, 0, 0), map[]);
  }

  /** kvbfs_symlink: the target is stored as block 0, whatever its length. */
  method SymbolicLink(g: Context, target: seq<byte>, p: nat, name: string) returns (r: Status)
    requires Healthy(g)
    modifies g
    ensures Healthy(g) && old(g.trail) <= g.trail
    ensures r == AddStatus(old(g.db), old(g.inodes), p, name) && AddAnswer(r, old(g.db), old(g.inodes), p, name)
    ensures EntriesOf(g.db) == if r.Done? then EntriesOf(old(g.db))[Entry(p, name) := old(g.nextIno)] else EntriesOf(old(g.db))
    ensures Outcome(r, old(g.db), old(g.inodes), old(g.nextIno), old(g.history),
                    g.db, g.inodes, g.nextIno, g.history, p, name, Inode(Symlink, 1, |target|, 1), map[Block(old(g.nextIno), 0) := Bytes(target)])
  {
    hide AddAnswer, Fits, Healthy, FsOk, Recoverable, Registered, TreeOk, AllStored, EntriesOf;
    HealthyParts(g);
    AddStatusExact(g.db, g.inodes, g.nextIno, p, name);
    if p !in g.inodes {
      return ENOENT;
    }
    if !g.inodes[p].kind.Dir? {
      return ENOTDIR;
    }
    LookupMeans(g.db, g.inodes, p, name);
    if Lookup(g.db, p, name) != 0 {
      return EEXIST;
    }
    FreshIno(g.db, g.inodes, g.nextIno);
    UnusedIno(g.db, g.inodes, g.nextIno);
    r := SymbolicLinkNode(g, target, p, name);
    OutcomeHealthy(r, old(g.db), old(g.inodes), old(g.nextIno), old(g.history),
                   g.db, g.inodes, g.nextIno, g.history, p, name, Inode(Symlink, 1, |target|, 1), map[Block(old(g.nextIno), 0) := Bytes(target)]);
    OutcomeEntries(r, old(g.db), old(g.inodes), old(g.nextIno), old(g.history),
                   g.db, g.inodes, g.nextIno, g.history, p, name, Inode(Symlink, 1, |target|, 1), map[Block(old(g.nextIno), 0) := Bytes(target)]);
    StillHealthy(g);
  }

  /** A fresh symlink inode with its target. */
  method TargetNode(g: Context, target: seq<byte>) returns (ino: nat)
    requires g.Safe() && Registered(g.db, g.inodes, g.nextIno) && InodeKey(ROOT_INO) in g.db
    modifies g
    ensures g.Safe() && old(g.trail) <= g.trail
    ensures ino == old(g.nextIno) && g.nextIno == ino + 1
    ensures g.db == WithRecord(old(g.db), ino, Symlink) + map[Block(ino, 0) := Bytes(target)]
    ensures g.inodes == old(g.inodes)[ino := Inode(Symlink, 1, |target|, 1)]
    ensures g.history == old(g.history)[ino := []]
  {
    hide Fits, Recoverable, Registered;
    ino := InodeCreate(g, Symlink);
    PutOwned(g.db, Block(ino, 0), Bytes(target));
    g.Put(Block(ino, 0), Bytes(target));
    g.inodes := g.inodes[ino := g.inodes[ino].(size := |target|, blocks := 1)];
  }

  method SymbolicLinkNode(g: Context, target: seq<byte>, p: nat, name: string) returns (r: Status)
    requires g.Safe() && Registered(g.db, g.inodes, g.nextIno) && IsDir(g.inodes, p)
    requires Unused(g.db, g.nextIno) && g.nextIno !in g.inodes && g.nextIno !in g.history
    modifies g
    ensures g.Safe() && old(g.trail) <= g.trail
    ensures r == if Fits(Dirent(p, name), KEY_MAX) then Done else EIO
    ensures Outcome(r, old(g.db), old(g.inodes), old(g.nextIno), old(g.history),
                    g.db, g.inodes, g.nextIno, g.history, p, name, Inode(Symlink, 1, |target|, 1), map[Block(old(g.nextIno), 0) := Bytes(target)])
  {
    NodeReady(g.db, g.inodes, g.history, g.nextIno, p, map[Block(g.nextIno, 0) := Bytes(target)], Inode(Symlink, 1, |target|, 1));
    hide *;
    var ino := TargetNode(g, target);
    r := AddName(g, p, name, ino, true, old(g.db), old(g.inodes), old(g.history), map[Block(ino, 0) := Bytes(target)], Inode(Symlink, 1, |target|, 1));
    NewLeaf(old(g.inodes), p, ino, Inode(Symlink, 1, |target|, 1));
    OutcomeIs(r, old(g.db), old(g.inodes), ino, old(g.history),
              g.db, g.inodes, g.nextIno, g.history, p, name, Inode(Symlink, 1, |target|, 1), map[Block(ino, 0) := Bytes(target)]);
  }

  /** kvbfs_readlink: every live symlink can be read, and has the length its attributes say. */
  method Readlink(g: Context, ino: nat) returns (r: Status, target: seq<byte>)
    requires Healthy(g)
    ensures r == if ino !in g.inodes then ENOENT else if !g.inodes[ino].kind.Symlink? then EINVAL else Done
    ensures r.Done? ==> target == LinkTarget(g.db, ino) && |target| == g.inodes[ino].size
  {
    hide FsOk, Recoverable, Registered, TreeOk, EntriesOf, VersionsOk;
    target := [];
    if ino !in g.inodes {
      return ENOENT, [];
    }
    if !g.inodes[ino].kind.Symlink? {
      return EINVAL, [];
    }
    FsParts(g.db, g.inodes, g.nextIno, g.history, ino);
    if Block(ino, 0) !in g.db {
      return EIO, [];
    }
    return Done, BytesOf(g.db[Block(ino, 0)]);
  }

  lemma NewLinkTarget(db: Db, c: nat, p: nat, name: string, target: seq<byte>)
    requires Fits(Dirent(p, name), KEY_MAX)
    ensures var db' := Added(db, c, p, name, Inode(Symlink, 1, |target|, 1), map[Block(c, 0) := Bytes(target)]);
      LinkTarget(db', c) == target && Lookup(db', p, name) == c
  {
    hide Fits;
    assert SlotKey(Live(c), 0) == Block(c, 0);
  }

  /** A symlink that was just made reads back as the target it was made with. */
  method MakeAndReadlink(g: Context, target: seq<byte>, p: nat, name: string) returns (r: Status, back: seq<byte>)
    requires Healthy(g)
    modifies g
    ensures Healthy(g)
    ensures r == AddStatus(old(g.db), old(g.inodes), p, name)
    ensures r.Done? ==> back == target
  {
    hide Healthy, FsOk, Recoverable, Registered, TreeOk, AllStored, EntriesOf, Fits, Stored;
    back := [];
    r := SymbolicLink(g, target, p, name);
    if r.Done? {
      var ino := Lookup(g.db, p, name);
      NewLinkTarget(old(g.db), old(g.nextIno), p, name, target);
      r, back := Readlink(g, ino);
    }
  }

  function LinkStatus(db: Db, nodes: Nodes, ino: nat, p: nat, name: string): Status {
    if ino !in nodes then ENOENT
    else if nodes[ino].kind.Dir? then EPERM
    else AddStatus(db, nodes, p, name)
  }

  ghost predicate LinkAnswer(r: Status, db: Db, nodes: Nodes, ino: nat, p: nat, name: string) {
    && (ino !in nodes ==> r.ENOENT?)
    && (IsDir(nodes, ino) <==> r.EPERM?)
    && (ino in nodes && !IsDir(nodes, ino) ==> AddAnswer(r, db, nodes, p, name))
  }

  lemma LinkStatusExact(db: Db, nodes: Nodes, nextIno: nat, ino: nat, p: nat, name: string)
    requires Recoverable(db) && Registered(db, nodes, nextIno)
    ensures LinkAnswer(LinkStatus(db, nodes, ino, p, name), db, nodes, ino, p, name)
  {
    hide Fits, Lookup, Recoverable, Registered, AddAnswer;
    AddStatusExact(db, nodes, nextIno, p, name);
  }

  /** kvbfs_link: another name for a file, counted in its link count. */
  method Link(g: Context, ino: nat, p: nat, name: string) returns (r: Status)
    requires Healthy(g)
    modifies g
    ensures Healthy(g) && old(g.trail) <= g.trail
    ensures r == LinkStatus(old(g.db), old(g.inodes), ino, p, name)
    ensures LinkAnswer(r, old(g.db), old(g.inodes), ino, p, name)
    ensures g.nextIno == old(g.nextIno) && g.history == old(g.history)
    ensures r.Done? ==> g.db == old(g.db)[Dirent(p, name) := ChildValue(ino)]
    ensures r.Done? ==> g.inodes == AddNlink(old(g.inodes), ino, 1)
    ensures !r.Done? ==> g.db == old(g.db) && g.inodes == old(g.inodes)
  {
    hide Fits, Healthy, FsOk, Recoverable, Registered, TreeOk, AllStored, EntriesOf;
    HealthyParts(g);
    LinkStatusExact(g.db, g.inodes, g.nextIno, ino, p, name);
    hide LinkAnswer;
    r := LinkCheck(g, ino, p, name);
    if r.Done? {
      LinkHealthy(g.db, g.inodes, g.nextIno, g.history, p, name, ino);
      g.Put(Dirent(p, name), ChildValue(ino));
      g.inodes := g.inodes[ino := g.inodes[ino].(nlink := g.inodes[ino].nlink + 1)];
      StillHealthy(g);
    }
  }

  method LinkCheck(g: Context, ino: nat, p: nat, name: string) returns (r: Status)
    requires Joined(EntriesOf(g.db), g.inodes) && 0 !in g.inodes
    ensures r == LinkStatus(g.db, g.inodes, ino, p, name)
    ensures r.Done? ==> IsDir(g.inodes, p) && Entry(p, name) !in EntriesOf(g.db)
  {
    if ino !in g.inodes {
      return ENOENT;
    }
    if g.inodes[ino].kind.Dir? {
      return EPERM;
    }
    if p !in g.inodes {
      return ENOENT;
    }
    if !g.inodes[p].kind.Dir? {
      return ENOTDIR;
    }
    LookupMeans(g.db, g.inodes, p, name);
    if Lookup(g.db, p, name) != 0 {
      return EEXIST;
    }
    return if Fits(Dirent(p, name), KEY_MAX) then Done else EIO;
  }

  lemma LinkHealthy(db: Db, nodes: Nodes, nextIno: nat, history: History, p: nat, name: string, ino: nat)
    requires FsOk(db, nodes, nextIno, history)
    requires IsDir(nodes, p) && Entry(p, name) !in EntriesOf(db) && ino in nodes && !nodes[ino].kind.Dir?
    requires Fits(Dirent(p, name), KEY_MAX)
    ensures Recoverable(db[Dirent(p, name) := ChildValue(ino)])
    ensures FsOk(db[Dirent(p, name) := ChildValue(ino)], AddNlink(nodes, ino, 1), nextIno, history)
  {
    hide TreeOk, EntriesOf, Stored, Recoverable, AllStored, FsOk, Registered, Fits;
    FsParts(db, nodes, nextIno, history, ino);
    LinkFrames(db, nodes, nextIno, history, p, name, ino);
    PutDirent(db, p, name, ino);
    LinkKeeps(EntriesOf(db), nodes, Entry(p, name), ino);
    FsIntro(db[Dirent(p, name) := ChildValue(ino)], AddNlink(nodes, ino, 1), nextIno, history, EntriesOf(db)[Entry(p, name) := ino]);
  }

  lemma LinkFrames(db: Db, nodes: Nodes, nextIno: nat, history: History, p: nat, name: string, ino: nat)
    requires Registered(db, nodes, nextIno) && AllStored(db, nodes, history) && history.Keys == nodes.Keys
    requires p in nodes && ino in nodes
    ensures InodeKey(p) in db && InodeKey(ino) in db
    ensures Registered(db[Dirent(p, name) := ChildValue(ino)], AddNlink(nodes, ino, 1), nextIno)
    ensures AllStored(db[Dirent(p, name) := ChildValue(ino)], AddNlink(nodes, ino, 1), history)
    ensures AddNlink(nodes, ino, 1).Keys == nodes.Keys
  {
    hide Stored;
    var db', nodes' := db[Dirent(p, name) := ChildValue(ino)], AddNlink(nodes, ino, 1);
    assert Stored(db, nodes, history, ino);
    StoredFrame(db, db', nodes, nodes', history, history, ino);
    AllStoredFrame(db, db', nodes, nodes', history, history, ino);
  }

  // ---- removing names ----

  /** The state after the last name of a file, or the name of an empty directory, is gone. */
  function Dropped(db: Db, p: nat, name: string, c: nat): Db { WithoutInode(db - {Dirent(p, name)}, c) }

  lemma DroppedEntries(db: Db, p: nat, name: string, c: nat)
    requires Recoverable(db)
    ensures EntriesOf(Dropped(db, p, name, c)) == EntriesOf(db) - {Entry(p, name)}
  {
    hide Recoverable, EntriesOf;
    RemoveDirent(db, p, name);
    var mid := db - {Dirent(p, name)};
    assert forall k: Key :: k.Dirent? && k in mid ==> !OwnedBy(k, c) && k != InodeKey(c);
    SameEntries(mid, Dropped(db, p, name, c));
  }

  /** No entry mentions an inode that is not joined any more. */
  lemma NoMention(db: Db, nodes': Nodes, c: nat)
    requires Joined(EntriesOf(db), nodes') && c !in nodes' && c != 0
    ensures Unmentioned(db, c)
  {
    forall k | k in db && k.Dirent? ensures k.parent != c && ChildOf(db[k]) != c {
      assert Entry(k.parent, k.name) in EntriesOf(db);
    }
  }

  lemma DroppedHealthy(db: Db, nodes: Nodes, nextIno: nat, history: History, p: nat, name: string, c: nat, nodes': Nodes)
    requires Recoverable(db) && Registered(db, nodes, nextIno) && history.Keys == nodes.Keys && AllStored(db, nodes, history)
    requires c in nodes && nodes'.Keys == nodes.Keys - {c}
    requires forall i :: i in nodes' ==> nodes'[i].kind == nodes[i].kind && nodes'[i].size == nodes[i].size && nodes'[i].blocks == nodes[i].blocks
    requires TreeOk(EntriesOf(db) - {Entry(p, name)}, nodes') && Recoverable(Dropped(db, p, name, c))
    ensures FsOk(Dropped(db, p, name, c), nodes', nextIno, history - {c})
  {
    hide TreeOk, EntriesOf, Stored, Recoverable, AllStored, FsOk, Registered;
    DroppedEntries(db, p, name, c);
    DroppedRegistered(db, nodes, nextIno, p, name, c, nodes');
    DroppedStored(db, nodes, history, p, name, c, nodes');
    FsIntro(Dropped(db, p, name, c), nodes', nextIno, history - {c}, EntriesOf(db) - {Entry(p, name)});
  }

  lemma DroppedRegistered(db: Db, nodes: Nodes, nextIno: nat, p: nat, name: string, c: nat, nodes': Nodes)
    requires Registered(db, nodes, nextIno) && nodes'.Keys == nodes.Keys - {c}
    requires forall i :: i in nodes' ==> nodes'[i].kind == nodes[i].kind
    ensures Registered(Dropped(db, p, name, c), nodes', nextIno)
  {
  }

  lemma DroppedStored(db: Db, nodes: Nodes, history: History, p: nat, name: string, c: nat, nodes': Nodes)
    requires AllStored(db, nodes, history) && nodes'.Keys == nodes.Keys - {c} && history.Keys == nodes.Keys
    requires forall i :: i in nodes' ==> nodes'[i].kind == nodes[i].kind && nodes'[i].size == nodes[i].size && nodes'[i].blocks == nodes[i].blocks
    ensures AllStored(Dropped(db, p, name, c), nodes', history - {c})
  {
    hide Stored;
    AllStoredFrame(db, Dropped(db, p, name, c), nodes, nodes', history, history - {c}, c);
  }

  lemma NotRoot(e: Entries, nodes: Nodes, c: nat)
    requires Joined(e, nodes) && c !in nodes
    ensures c != ROOT_INO
  {
  }

  /** What DropInode needs once the last entry of an inode is gone. */
  lemma EntryGone(db: Db, nodes: Nodes, nextIno: nat, history: History, p: nat, name: string, c: nat, mid: Nodes, nodes': Nodes)
    requires FsOk(db, nodes, nextIno, history) && c in nodes && c in mid && c !in nodes'
    requires mid[c].kind == nodes[c].kind && mid[c].size == nodes[c].size && mid[c].blocks == nodes[c].blocks
    requires TreeOk(EntriesOf(db) - {Entry(p, name)}, nodes')
    ensures Recoverable(db - {Dirent(p, name)}) && Unmentioned(db - {Dirent(p, name)}, c)
    ensures Stored(db - {Dirent(p, name)}, mid, history, c) && c != ROOT_INO
  {
    hide Fits, FsOk, Recoverable, Registered, TreeOk, AllStored, EntriesOf, Stored, Joined;
    FsParts(db, nodes, nextIno, history, c);
    RemoveDirent(db, p, name);
    TreeJoined(EntriesOf(db - {Dirent(p, name)}), nodes');
    NotRoot(EntriesOf(db - {Dirent(p, name)}), nodes', c);
    NoMention(db - {Dirent(p, name)}, nodes', c);
    StoredStays(db, db - {Dirent(p, name)}, nodes, mid, history, c);
  }

  function UnlinkStatus(db: Db, nodes: Nodes, p: nat, name: string): Status {
    var c := Lookup(db, p, name);
    if c == 0 || c !in nodes then ENOENT else if nodes[c].kind.Dir? then EISDIR else Done
  }

  /** The answer to unlink, by what is there: no entry, an entry of a directory, or a file. */
  ghost predicate UnlinkAnswer(r: Status, db: Db, nodes: Nodes, p: nat, name: string) {
    && (r.ENOENT? <==> Dirent(p, name) !in db)
    && (r.EISDIR? <==> Dirent(p, name) in db && IsDir(nodes, ChildOf(db[Dirent(p, name)])))
    && (r.Done? <==> Dirent(p, name) in db && !IsDir(nodes, ChildOf(db[Dirent(p, name)])))
  }

  lemma UnlinkStatusExact(db: Db, nodes: Nodes, nextIno: nat, p: nat, name: string)
    requires Recoverable(db) && Registered(db, nodes, nextIno)
    ensures UnlinkAnswer(UnlinkStatus(db, nodes, p, name), db, nodes, p, name)
  {
    hide Fits, Lookup, Recoverable, Registered;
    LookupExact(db, nodes, nextIno, p, name);
  }

  /** kvbfs_unlink: one name less; with the last name go all keys of the inode. */
  method Unlink(g: Context, p: nat, name: string) returns (r: Status)
    requires Healthy(g)
    modifies g
    ensures Healthy(g) && old(g.trail) <= g.trail && g.nextIno == old(g.nextIno)
    ensures r == UnlinkStatus(old(g.db), old(g.inodes), p, name) && UnlinkAnswer(r, old(g.db), old(g.inodes), p, name)
    ensures EntriesOf(g.db) == if r.Done? then EntriesOf(old(g.db)) - {Entry(p, name)} else EntriesOf(old(g.db))
    ensures !r.Done? ==> g.db == old(g.db) && g.inodes == old(g.inodes) && g.history == old(g.history)
    ensures r.Done? ==>
      var c := Lookup(old(g.db), p, name);
      var last := old(g.inodes)[c].nlink == 1;
      && old(g.inodes)[c].nlink > 0
      && g.inodes == Unlinked(old(g.inodes), c)
      && g.db == (if last then Dropped(old(g.db), p, name, c) else old(g.db) - {Dirent(p, name)})
      && g.history == (if last then old(g.history) - {c} else old(g.history))
  {
    hide Fits, Healthy, FsOk, Recoverable, Registered, TreeOk, AllStored, EntriesOf;
    HealthyParts(g);
    UnlinkStatusExact(g.db, g.inodes, g.nextIno, p, name);
    DroppedEntries(g.db, p, name, Lookup(g.db, p, name));
    RemoveEntry(g.db, p, name);
    hide UnlinkAnswer, Dropped;
    var c := Lookup(g.db, p, name);
    if c == 0 {
      return ENOENT;
    }
    LookupMeans(g.db, g.inodes, p, name);
    if c !in g.inodes {
      return ENOENT;
    }
    if g.inodes[c].kind.Dir? {
      return EISDIR;
    }
    UnlinkKeeps(EntriesOf(g.db), g.inodes, Entry(p, name));
    RemoveName(g, p, name, c);
    StillHealthy(g);
    return Done;
  }

  method RemoveName(g: Context, p: nat, name: string, c: nat)
    requires g.Safe() && FsOk(g.db, g.inodes, g.nextIno, g.history)
    requires c in g.inodes && !g.inodes[c].kind.Dir? && g.inodes[c].nlink > 0
    requires TreeOk(EntriesOf(g.db) - {Entry(p, name)}, Unlinked(g.inodes, c))
    modifies g
    ensures g.Safe() && FsOk(g.db, g.inodes, g.nextIno, g.history)
    ensures old(g.trail) <= g.trail && g.nextIno == old(g.nextIno)
    ensures g.inodes == Unlinked(old(g.inodes), c)
    ensures g.db == if old(g.inodes)[c].nlink == 1 then Dropped(old(g.db), p, name, c) else old(g.db) - {Dirent(p, name)}
    ensures g.history == if old(g.inodes)[c].nlink == 1 then old(g.history) - {c} else old(g.history)
  {
    hide Fits, FsOk, Recoverable, Registered, TreeOk, AllStored, EntriesOf, Stored, WithoutInode, Joined, Unmentioned;
    ghost var db, nodes, nodes' := g.db, g.inodes, Unlinked(g.inodes, c);
    FsParts(db, nodes, g.nextIno, g.history, c);
    RemoveDirent(db, p, name);
    var blocks := g.inodes[c].blocks;
    g.Delete(Dirent(p, name));
    if g.inodes[c].nlink > 0 {
      g.inodes := g.inodes[c := g.inodes[c].(nlink := g.inodes[c].nlink - 1)];
    }
    if g.inodes[c].nlink == 0 {
      EntryGone(db, nodes, g.nextIno, g.history, p, name, c, g.inodes, nodes');
      DropInode(g, c, false, blocks);
      assert g.inodes == nodes';
      DroppedHealthy(db, nodes, g.nextIno, old(g.history), p, name, c, nodes');
    } else {
      assert g.inodes == nodes';
      RemovedHealthy(db, nodes, g.nextIno, g.history, p, name, c);
    }
  }

  lemma FsShape(db: Db, nodes: Nodes, nextIno: nat, history: History)
    requires FsOk(db, nodes, nextIno, history)
    ensures Recoverable(db) && Registered(db, nodes, nextIno) && 0 !in nodes
    ensures TreeOk(EntriesOf(db), nodes) && Joined(EntriesOf(db), nodes)
    ensures history.Keys == nodes.Keys
  {
  }

  lemma FsParts(db: Db, nodes: Nodes, nextIno: nat, history: History, c: nat)
    requires FsOk(db, nodes, nextIno, history) && c in nodes
    ensures Recoverable(db) && Registered(db, nodes, nextIno) && history.Keys == nodes.Keys
    ensures AllStored(db, nodes, history) && Stored(db, nodes, history, c) && c != 0
    ensures TreeOk(EntriesOf(db), nodes) && Joined(EntriesOf(db), nodes)
  {
  }

  /** Stored data do not depend on entries or link counts. */
  lemma StoredStays(db: Db, db': Db, nodes: Nodes, nodes': Nodes, history: History, i: nat)
    requires i in nodes && Stored(db, nodes, history, i) && SameOwned(db, db', i)
    requires i in nodes' && nodes'[i].kind == nodes[i].kind
    requires nodes'[i].size == nodes[i].size && nodes'[i].blocks == nodes[i].blocks
    ensures Stored(db', nodes', history, i)
  {
    StoredFrame(db, db', nodes, nodes', history, history, i);
  }

  lemma TreeJoined(e: Entries, nodes: Nodes)
    requires TreeOk(e, nodes)
    ensures Joined(e, nodes)
  {
  }

  lemma RemovedHealthy(db: Db, nodes: Nodes, nextIno: nat, history: History, p: nat, name: string, c: nat)
    requires FsOk(db, nodes, nextIno, history) && c in nodes && nodes[c].nlink > 1
    requires TreeOk(EntriesOf(db) - {Entry(p, name)}, Unlinked(nodes, c))
    ensures FsOk(db - {Dirent(p, name)}, Unlinked(nodes, c), nextIno, history)
  {
    hide TreeOk, EntriesOf, Stored, Recoverable, AllStored, FsOk, Registered;
    FsParts(db, nodes, nextIno, history, c);
    RemoveDirent(db, p, name);
    RemovedFrames(db, nodes, nextIno, history, p, name, c);
    FsIntro(db - {Dirent(p, name)}, Unlinked(nodes, c), nextIno, history, EntriesOf(db) - {Entry(p, name)});
  }

  lemma RemovedFrames(db: Db, nodes: Nodes, nextIno: nat, history: History, p: nat, name: string, c: nat)
    requires Registered(db, nodes, nextIno) && AllStored(db, nodes, history) && history.Keys == nodes.Keys
    requires c in nodes && nodes[c].nlink > 1
    ensures Registered(db - {Dirent(p, name)}, Unlinked(nodes, c), nextIno)
    ensures AllStored(db - {Dirent(p, name)}, Unlinked(nodes, c), history)
    ensures Unlinked(nodes, c).Keys == nodes.Keys
  {
    hide Stored;
    var db', nodes' := db - {Dirent(p, name)}, Unlinked(nodes, c);
    assert Stored(db, nodes, history, c);
    StoredFrame(db, db', nodes, nodes', history, history, c);
    AllStoredFrame(db, db', nodes, nodes', history, history, c);
  }

  predicate DirentsEmpty(db: Db, c: nat) { forall k :: k in db ==> !Selects(DirentsOf(c), k) }

  lemma EmptyMeans(db: Db, c: nat)
    ensures DirentsEmpty(db, c) <==> IsEmpty(EntriesOf(db), c)
  {
    if IsEmpty(EntriesOf(db), c) {
      forall k | k in db ensures !Selects(DirentsOf(c), k) {
        assert k.Dirent? ==> Entry(k.parent, k.name) in EntriesOf(db);
      }
    }
  }

  function RmdirStatus(db: Db, nodes: Nodes, p: nat, name: string): Status {
    var c := Lookup(db, p, name);
    if c == 0 || c !in nodes then ENOENT
    else if !nodes[c].kind.Dir? then ENOTDIR
    else if !DirentsEmpty(db, c) then ENOTEMPTY
    else Done
  }

  /** The answer to rmdir, by what is there: no entry, an entry of a file, a directory with
      entries, or an empty one. */
  ghost predicate RmdirAnswer(r: Status, db: Db, nodes: Nodes, p: nat, name: string) {
    && (r.ENOENT? <==> Dirent(p, name) !in db)
    && (r.ENOTDIR? <==> Dirent(p, name) in db && !IsDir(nodes, ChildOf(db[Dirent(p, name)])))
    && (r.ENOTEMPTY? <==> Dirent(p, name) in db && FullDir(db, nodes, ChildOf(db[Dirent(p, name)])))
    && (r.Done? <==> Dirent(p, name) in db && EmptyDir(db, nodes, ChildOf(db[Dirent(p, name)])))
  }

  ghost predicate FullDir(db: Db, nodes: Nodes, c: nat) { IsDir(nodes, c) && exists n :: Dirent(c, n) in db }

  ghost predicate EmptyDir(db: Db, nodes: Nodes, c: nat) { IsDir(nodes, c) && forall n :: Dirent(c, n) !in db }

  lemma EmptyExact(db: Db, nodes: Nodes, c: nat)
    ensures IsDir(nodes, c) ==> (EmptyDir(db, nodes, c) <==> DirentsEmpty(db, c))
    ensures IsDir(nodes, c) ==> (FullDir(db, nodes, c) <==> !DirentsEmpty(db, c))
  {
    if n :| Dirent(c, n) in db {
      assert Selects(DirentsOf(c), Dirent(c, n));
    } else {
      forall k | k in db ensures !Selects(DirentsOf(c), k) {
        assert k.Dirent? ==> k == Dirent(k.parent, k.name);
      }
    }
  }

  lemma RmdirStatusExact(db: Db, nodes: Nodes, nextIno: nat, p: nat, name: string)
    requires Recoverable(db) && Registered(db, nodes, nextIno)
    ensures RmdirAnswer(RmdirStatus(db, nodes, p, name), db, nodes, p, name)
  {
    LookupExact(db, nodes, nextIno, p, name);
    EmptyExact(db, nodes, Lookup(db, p, name));
    hide Fits, Lookup, Recoverable, Registered, DirentsEmpty;
    assert FullDir(db, nodes, Lookup(db, p, name)) ==> IsDir(nodes, Lookup(db, p, name));
    assert EmptyDir(db, nodes, Lookup(db, p, name)) ==> IsDir(nodes, Lookup(db, p, name));
    hide FullDir, EmptyDir;
  }

  /** kvbfs_rmdir */
  method Rmdir(g: Context, p: nat, name: string) returns (r: Status)
    requires Healthy(g)
    modifies g
    ensures Healthy(g) && old(g.trail) <= g.trail && g.nextIno == old(g.nextIno)
    ensures r == RmdirStatus(old(g.db), old(g.inodes), p, name) && RmdirAnswer(r, old(g.db), old(g.inodes), p, name)
    ensures EntriesOf(g.db) == if r.Done? then EntriesOf(old(g.db)) - {Entry(p, name)} else EntriesOf(old(g.db))
    ensures !r.Done? ==> g.db == old(g.db) && g.inodes == old(g.inodes) && g.history == old(g.history)
    ensures r.Done? ==>
      var c := Lookup(old(g.db), p, name);
      && p in old(g.inodes) && old(g.inodes)[p].nlink > 0 && p != c
      && g.inodes == DirRemoved(old(g.inodes), p, c)
      && g.db == Dropped(old(g.db), p, name, c)
      && g.history == old(g.history) - {c}
  {
    hide Fits, Healthy, FsOk, Recoverable, Registered, TreeOk, AllStored, EntriesOf;
    HealthyParts(g);
    RmdirStatusExact(g.db, g.inodes, g.nextIno, p, name);
    DroppedEntries(g.db, p, name, Lookup(g.db, p, name));
    hide RmdirAnswer, Dropped, DirRemoved, DirentsEmpty;
    var c := Lookup(g.db, p, name);
    if c == 0 {
      return ENOENT;
    }
    LookupMeans(g.db, g.inodes, p, name);
    if c !in g.inodes {
      return ENOENT;
    }
    if !g.inodes[c].kind.Dir? {
      return ENOTDIR;
    }
    EmptyMeans(g.db, c);
    if !DirentsEmpty(g.db, c) {
      return ENOTEMPTY;
    }
    RmdirKeeps(EntriesOf(g.db), g.inodes, Entry(p, name));
    RemoveDir(g, p, name, c);
    StillHealthy(g);
    return Done;
  }

  /** The tail of rmdir, and of rename over an empty directory. */
  method RemoveDir(g: Context, p: nat, name: string, c: nat)
    requires g.Safe() && FsOk(g.db, g.inodes, g.nextIno, g.history)
    requires IsDir(g.inodes, c) && p in g.inodes && g.inodes[p].nlink > 0 && p != c
    requires TreeOk(EntriesOf(g.db) - {Entry(p, name)}, DirRemoved(g.inodes, p, c))
    modifies g
    ensures g.Safe() && FsOk(g.db, g.inodes, g.nextIno, g.history)
    ensures old(g.trail) <= g.trail && g.nextIno == old(g.nextIno)
    ensures g.inodes == DirRemoved(old(g.inodes), p, c)
    ensures g.db == Dropped(old(g.db), p, name, c)
    ensures g.history == old(g.history) - {c}
  {
    hide Fits, FsOk, Recoverable, Registered, TreeOk, AllStored, EntriesOf, Stored, WithoutInode, Joined, Unmentioned;
    ghost var nodes' := DirRemoved(g.inodes, p, c);
    FsParts(g.db, g.inodes, g.nextIno, g.history, c);
    EntryGone(g.db, g.inodes, g.nextIno, g.history, p, name, c, AddNlink(g.inodes, p, -1), nodes');
    g.Delete(Dirent(p, name));
    if g.inodes[p].nlink > 0 {
      g.inodes := g.inodes[p := g.inodes[p].(nlink := g.inodes[p].nlink - 1)];
    }
    DropInode(g, c, true, g.inodes[c].blocks);
    DroppedHealthy(old(g.db), old(g.inodes), g.nextIno, old(g.history), p, name, c, nodes');
  }

  // ---- rename ----

  /** The tree after whatever the new name named has been deleted, as rename deletes it:
      the inode goes whatever its link count. */
  function ReplacedNodes(nodes: Nodes, np: nat, dst: nat): Nodes {
    if dst !in nodes then nodes
    else if nodes[dst].kind.Dir? && np in nodes && np != dst && nodes[np].nlink > 0 then DirRemoved(nodes, np, dst)
    else nodes - {dst}
  }

  function ReplacedDb(db: Db, nodes: Nodes, np: nat, newname: string, dst: nat): Db {
    if dst in nodes then Dropped(db, np, newname, dst) else db
  }

  function MovedDb(db: Db, p: nat, name: string, np: nat, newname: string, src: nat): Db {
    (db - {Dirent(p, name)})[Dirent(np, newname) := ChildValue(src)]
  }

  function RenameStatus(db: Db, nodes: Nodes, p: nat, name: string, np: nat, newname: string): Status {
    var src, dst := Lookup(db, p, name), Lookup(db, np, newname);
    if src == 0 then ENOENT
    else if dst != 0 && dst in nodes && nodes[dst].kind.Dir? && !DirentsEmpty(db, dst) then ENOTEMPTY
    else if !Fits(Dirent(np, newname), KEY_MAX) then EIO
    else Done
  }

  /** The answer to rename, by what is there: no source, a target that is a directory with
      entries, a new name that is too long, or success. */
  ghost predicate RenameAnswer(r: Status, db: Db, nodes: Nodes, p: nat, name: string, np: nat, newname: string) {
    && (r.ENOENT? <==> Dirent(p, name) !in db)
    && (r.ENOTEMPTY? <==> Dirent(p, name) in db && FullTarget(db, nodes, np, newname))
    && (r.EIO? <==> Dirent(p, name) in db && !Fits(Dirent(np, newname), KEY_MAX))
    && (r.Done? <==> Dirent(p, name) in db && !FullTarget(db, nodes, np, newname) && Fits(Dirent(np, newname), KEY_MAX))
  }

  ghost predicate FullTarget(db: Db, nodes: Nodes, np: nat, newname: string) {
    Dirent(np, newname) in db && FullDir(db, nodes, ChildOf(db[Dirent(np, newname)]))
  }

  lemma RenameStatusExact(db: Db, nodes: Nodes, nextIno: nat, p: nat, name: string, np: nat, newname: string)
    requires Recoverable(db) && Registered(db, nodes, nextIno)
    ensures RenameAnswer(RenameStatus(db, nodes, p, name, np, newname), db, nodes, p, name, np, newname)
  {
    LookupExact(db, nodes, nextIno, p, name);
    LookupExact(db, nodes, nextIno, np, newname);
    var dst := Lookup(db, np, newname);
    EmptyExact(db, nodes, dst);
    hide Fits, Lookup, Recoverable, Registered, DirentsEmpty;
    assert FullDir(db, nodes, dst) ==> IsDir(nodes, dst);
    hide FullDir;
  }

  /** What the kernel guarantees before it sends a rename: the new parent is a directory, the
      two names do not name the same inode, and a directory does not move below itself. */
  ghost predicate RenameAllowed(db: Db, nodes: Nodes, p: nat, name: string, np: nat, newname: string) {
    var src, dst := Lookup(db, p, name), Lookup(db, np, newname);
    src != 0 ==> IsDir(nodes, np) && src != dst && (IsDir(nodes, src) ==> !Under(EntriesOf(db), src, np))
  }

  /** The guard of the branch that fails: a replaced file must have no other name. */
  predicate ReplacesLastName(nodes: Nodes, dst: nat) {
    dst in nodes && !nodes[dst].kind.Dir? ==> nodes[dst].nlink == 1
  }

  lemma EntryChild(db: Db, nodes: Nodes, nextIno: nat, history: History, p: nat, name: string)
    requires FsOk(db, nodes, nextIno, history) && Entry(p, name) in EntriesOf(db)
    ensures EntriesOf(db)[Entry(p, name)] in nodes && p in nodes && Recoverable(db)
  {
  }

  lemma MovedHealthy(db: Db, nodes: Nodes, nextIno: nat, history: History, p: nat, name: string, np: nat, newname: string, src: nat)
    requires FsOk(db, nodes, nextIno, history)
    requires Entry(p, name) in EntriesOf(db) && EntriesOf(db)[Entry(p, name)] == src
    requires Entry(np, newname) !in EntriesOf(db) && IsDir(nodes, np) && Fits(Dirent(np, newname), KEY_MAX)
    requires IsDir(nodes, src) ==> !Under(EntriesOf(db), src, np)
    ensures src in nodes && p in nodes && (nodes[src].kind.Dir? ==> nodes[p].nlink > 0)
    ensures Recoverable(db - {Dirent(p, name)}) && Recoverable(MovedDb(db, p, name, np, newname, src))
    ensures FsOk(MovedDb(db, p, name, np, newname, src), Moved(nodes, p, np, src), nextIno, history)
  {
    hide Fits, TreeOk, EntriesOf, Stored, Recoverable, Under, AllStored, FsOk, Registered;
    FsShape(db, nodes, nextIno, history);
    EntryChild(db, nodes, nextIno, history, p, name);
    FsParts(db, nodes, nextIno, history, src);
    MoveKeeps(EntriesOf(db), nodes, Entry(p, name), Entry(np, newname));
    MovedRegistered(db, nodes, nextIno, p, name, np, newname, src);
    MovedStored(db, nodes, history, p, name, np, newname, src);
    MovedEntries(db, nodes, nextIno, p, name, np, newname, src);
    FsIntro(MovedDb(db, p, name, np, newname, src), Moved(nodes, p, np, src), nextIno, history,
            (EntriesOf(db) - {Entry(p, name)})[Entry(np, newname) := src]);
  }

  lemma MovedEntries(db: Db, nodes: Nodes, nextIno: nat, p: nat, name: string, np: nat, newname: string, src: nat)
    requires Recoverable(db) && Registered(db, nodes, nextIno) && np in nodes && src in nodes
    requires Fits(Dirent(np, newname), KEY_MAX)
    ensures Recoverable(db - {Dirent(p, name)}) && Recoverable(MovedDb(db, p, name, np, newname, src))
    ensures EntriesOf(MovedDb(db, p, name, np, newname, src)) == (EntriesOf(db) - {Entry(p, name)})[Entry(np, newname) := src]
  {
    hide EntriesOf, Recoverable, Fits;
    RemoveDirent(db, p, name);
    PutDirent(db - {Dirent(p, name)}, np, newname, src);
  }

  lemma MovedRegistered(db: Db, nodes: Nodes, nextIno: nat, p: nat, name: string, np: nat, newname: string, src: nat)
    requires Registered(db, nodes, nextIno) && src in nodes && p in nodes && np in nodes
    requires nodes[src].kind.Dir? ==> nodes[p].nlink > 0
    ensures Registered(MovedDb(db, p, name, np, newname, src), Moved(nodes, p, np, src), nextIno)
    ensures Moved(nodes, p, np, src).Keys == nodes.Keys
  {
  }

  lemma MovedStored(db: Db, nodes: Nodes, history: History, p: nat, name: string, np: nat, newname: string, src: nat)
    requires AllStored(db, nodes, history) && history.Keys == nodes.Keys && src in nodes && p in nodes && np in nodes
    requires nodes[src].kind.Dir? ==> nodes[p].nlink > 0
    ensures AllStored(MovedDb(db, p, name, np, newname, src), Moved(nodes, p, np, src), history)
  {
    hide Stored;
    var db', nodes' := MovedDb(db, p, name, np, newname, src), Moved(nodes, p, np, src);
    assert Stored(db, nodes, history, src);
    StoredFrame(db, db', nodes, nodes', history, history, src);
    AllStoredFrame(db, db', nodes, nodes', history, history, src);
  }

  /** The part of rename after the target is gone: the entry moves; when the new key does not
      fit, the old one is put back. */
  method MoveName(g: Context, p: nat, name: string, np: nat, newname: string, src: nat) returns (r: Status)
    requires g.Safe() && FsOk(g.db, g.inodes, g.nextIno, g.history)
    requires Entry(p, name) in EntriesOf(g.db) && EntriesOf(g.db)[Entry(p, name)] == src
    requires Fits(Dirent(np, newname), KEY_MAX) ==> Entry(np, newname) !in EntriesOf(g.db)
    requires IsDir(g.inodes, np) && (IsDir(g.inodes, src) ==> !Under(EntriesOf(g.db), src, np))
    modifies g
    ensures g.Safe() && FsOk(g.db, g.inodes, g.nextIno, g.history)
    ensures old(g.trail) <= g.trail && g.nextIno == old(g.nextIno) && g.history == old(g.history)
    ensures r == if Fits(Dirent(np, newname), KEY_MAX) then Done else EIO
    ensures r.Done? ==> src in old(g.inodes) && p in old(g.inodes) && (old(g.inodes)[src].kind.Dir? ==> old(g.inodes)[p].nlink > 0)
    ensures r.Done? ==> g.db == MovedDb(old(g.db), p, name, np, newname, src)
    ensures r.Done? ==> g.inodes == Moved(old(g.inodes), p, np, src)
    ensures !r.Done? ==> g.db == old(g.db) && g.inodes == old(g.inodes)
  {
    hide Fits, FsOk, Recoverable, EntriesOf, Under;
    EntryChild(g.db, g.inodes, g.nextIno, g.history, p, name);
    RemoveDirent(g.db, p, name);
    PutBack(g.db, p, name, src);
    if Fits(Dirent(np, newname), KEY_MAX) {
      MovedHealthy(g.db, g.inodes, g.nextIno, g.history, p, name, np, newname, src);
    }
    var srcIsDir := g.inodes[src].kind.Dir?;
    g.Delete(Dirent(p, name));
    if !Fits(Dirent(np, newname), KEY_MAX) {
      g.Put(Dirent(p, name), ChildValue(src));
      return EIO;
    }
    g.Put(Dirent(np, newname), ChildValue(src));
    if srcIsDir && p != np {
      if g.inodes[p].nlink > 0 {
        g.inodes := g.inodes[p := g.inodes[p].(nlink := g.inodes[p].nlink - 1)];
      }
      g.inodes := g.inodes[np := g.inodes[np].(nlink := g.inodes[np].nlink + 1)];
    }
    return Done;
  }

  lemma PutBack(db: Db, p: nat, name: string, src: nat)
    requires Recoverable(db) && Entry(p, name) in EntriesOf(db) && EntriesOf(db)[Entry(p, name)] == src
    ensures (db - {Dirent(p, name)})[Dirent(p, name) := ChildValue(src)] == db
  {
  }

  function RenamedDb(db: Db, nodes: Nodes, p: nat, name: string, np: nat, newname: string): Db {
    MovedDb(ReplacedDb(db, nodes, np, newname, Lookup(db, np, newname)), p, name, np, newname, Lookup(db, p, name))
  }

  function RenamedNodes(db: Db, nodes: Nodes, p: nat, name: string, np: nat, newname: string): Nodes {
    var src, rest := Lookup(db, p, name), ReplacedNodes(nodes, np, Lookup(db, np, newname));
    if src in rest && p in rest && np in rest && (rest[src].kind.Dir? ==> rest[p].nlink > 0) then Moved(rest, p, np, src)
    else rest
  }

  lemma DroppedRecoverable(db: Db, nodes': Nodes, p: nat, name: string, c: nat)
    requires Recoverable(db) && c !in nodes' && c != 0
    requires Joined(EntriesOf(db) - {Entry(p, name)}, nodes')
    ensures Recoverable(Dropped(db, p, name, c))
  {
    hide Recoverable, EntriesOf, Joined, WithoutInode, Unmentioned;
    RemoveDirent(db, p, name);
    NotRoot(EntriesOf(db) - {Entry(p, name)}, nodes', c);
    NoMention(db - {Dirent(p, name)}, nodes', c);
    WithoutRecoverable(db - {Dirent(p, name)}, c);
  }

  lemma WithoutRecoverable(db: Db, c: nat)
    requires Recoverable(db) && Unmentioned(db, c) && c != ROOT_INO
    ensures Recoverable(WithoutInode(db, c))
  {
    hide Fits;
    var db' := WithoutInode(db, c);
    forall k | k in db' && k.Dirent? ensures InodeKey(k.parent) in db' && InodeKey(db'[k].child) in db' {
      assert k.parent != c && ChildOf(db[k]) != c;
    }
    if FirstWrite(db) {
      assert db' == db;
    }
  }

  lemma ReplacedShape(nodes: Nodes, np: nat, dst: nat)
    requires dst in nodes && (nodes[dst].kind.Dir? ==> np in nodes && nodes[np].nlink > 0 && np != dst)
    ensures var nodes' := ReplacedNodes(nodes, np, dst);
      && nodes'.Keys == nodes.Keys - {dst}
      && (forall i :: i in nodes' ==> nodes'[i].kind == nodes[i].kind && nodes'[i].size == nodes[i].size && nodes'[i].blocks == nodes[i].blocks)
      && nodes' == if nodes[dst].kind.Dir? then DirRemoved(nodes, np, dst) else nodes - {dst}
  {
  }

  /** The target entry and inode can go when they are an empty directory or a last name. */
  lemma ReplaceKeeps(db: Db, nodes: Nodes, nextIno: nat, history: History, np: nat, newname: string, dst: nat)
    requires FsOk(db, nodes, nextIno, history)
    requires Entry(np, newname) in EntriesOf(db) && EntriesOf(db)[Entry(np, newname)] == dst && dst in nodes
    requires ReplacesLastName(nodes, dst) && (nodes[dst].kind.Dir? ==> DirentsEmpty(db, dst))
    ensures nodes[dst].kind.Dir? ==> np in nodes && nodes[np].nlink > 0 && np != dst
    ensures TreeOk(EntriesOf(db) - {Entry(np, newname)}, ReplacedNodes(nodes, np, dst))
    ensures FsOk(ReplacedDb(db, nodes, np, newname, dst), ReplacedNodes(nodes, np, dst), nextIno, history - {dst})
  {
    hide TreeOk, EntriesOf, Stored, Recoverable, AllStored, Registered;
    hide FsOk, ReplacedNodes, Dropped, Fits, DirentsEmpty;
    FsParts(db, nodes, nextIno, history, dst);
    if nodes[dst].kind.Dir? {
      EmptyMeans(db, dst);
      RmdirKeeps(EntriesOf(db), nodes, Entry(np, newname));
    } else {
      UnlinkKeeps(EntriesOf(db), nodes, Entry(np, newname));
    }
    ReplacedShape(nodes, np, dst);
    var nodes' := ReplacedNodes(nodes, np, dst);
    TreeJoined(EntriesOf(db) - {Entry(np, newname)}, nodes');
    DroppedRecoverable(db, nodes', np, newname, dst);
    DroppedHealthy(db, nodes, nextIno, history, np, newname, dst, nodes');
  }

  lemma StillThere(db: Db, p: nat, name: string, np: nat, newname: string, src: nat, dst: nat)
    requires Recoverable(db)
    requires Entry(p, name) in EntriesOf(db) && EntriesOf(db)[Entry(p, name)] == src
    requires Entry(np, newname) in EntriesOf(db) && EntriesOf(db)[Entry(np, newname)] == dst && src != dst
    ensures var e' := EntriesOf(Dropped(db, np, newname, dst));
      Entry(p, name) in e' && e'[Entry(p, name)] == src && Entry(np, newname) !in e'
    ensures Under(EntriesOf(Dropped(db, np, newname, dst)), src, np) ==> Under(EntriesOf(db), src, np)
  {
    hide EntriesOf, Recoverable, Under;
    DroppedEntries(db, np, newname, dst);
    if Under(EntriesOf(Dropped(db, np, newname, dst)), src, np) {
      UnderShrinks(EntriesOf(db), EntriesOf(Dropped(db, np, newname, dst)), src, np);
    }
  }

  /** Deleting the target of a rename: its name, then (for a file) its blocks or (for a
      directory) its count in the parent, its data and last its record. */
  method ReplaceTarget(g: Context, np: nat, newname: string, dst: nat)
    requires g.Safe() && FsOk(g.db, g.inodes, g.nextIno, g.history)
    requires Entry(np, newname) in EntriesOf(g.db) && EntriesOf(g.db)[Entry(np, newname)] == dst && dst in g.inodes
    requires ReplacesLastName(g.inodes, dst) && (g.inodes[dst].kind.Dir? ==> DirentsEmpty(g.db, dst))
    modifies g
    ensures g.Safe() && FsOk(g.db, g.inodes, g.nextIno, g.history)
    ensures old(g.trail) <= g.trail && g.nextIno == old(g.nextIno)
    ensures g.inodes == ReplacedNodes(old(g.inodes), np, dst)
    ensures g.db == Dropped(old(g.db), np, newname, dst)
    ensures g.history == old(g.history) - {dst}
  {
    hide Fits, FsOk, Recoverable, Registered, TreeOk, AllStored, EntriesOf, Stored;
    ReplaceKeeps(g.db, g.inodes, g.nextIno, g.history, np, newname, dst);
    if g.inodes[dst].kind.Dir? {
      RemoveDir(g, np, newname, dst);
    } else {
      ReplaceFile(g, np, newname, dst);
    }
  }

  method ReplaceFile(g: Context, np: nat, newname: string, dst: nat)
    requires g.Safe() && FsOk(g.db, g.inodes, g.nextIno, g.history)
    requires dst in g.inodes && !g.inodes[dst].kind.Dir?
    requires TreeOk(EntriesOf(g.db) - {Entry(np, newname)}, g.inodes - {dst})
    requires FsOk(Dropped(g.db, np, newname, dst), g.inodes - {dst}, g.nextIno, g.history - {dst})
    modifies g
    ensures g.Safe() && FsOk(g.db, g.inodes, g.nextIno, g.history)
    ensures old(g.trail) <= g.trail && g.nextIno == old(g.nextIno)
    ensures g.inodes == old(g.inodes) - {dst}
    ensures g.db == Dropped(old(g.db), np, newname, dst)
    ensures g.history == old(g.history) - {dst}
  {
    hide Fits, FsOk, Recoverable, Registered, TreeOk, AllStored, EntriesOf, Stored, WithoutInode, Joined, Unmentioned;
    EntryGone(g.db, g.inodes, g.nextIno, g.history, np, newname, dst, g.inodes, g.inodes - {dst});
    var blocks := g.inodes[dst].blocks;
    g.Delete(Dirent(np, newname));
    DropInode(g, dst, false, blocks);
  }

  lemma RenameParts(db: Db, nodes: Nodes, p: nat, name: string, np: nat, newname: string)
    requires Joined(EntriesOf(db), nodes) && 0 !in nodes
    requires RenameAllowed(db, nodes, p, name, np, newname) && Lookup(db, p, name) != 0
    ensures var src, dst := Lookup(db, p, name), Lookup(db, np, newname);
      && Entry(p, name) in EntriesOf(db) && EntriesOf(db)[Entry(p, name)] == src && src in nodes && p in nodes
      && (dst != 0 ==> Entry(np, newname) in EntriesOf(db) && EntriesOf(db)[Entry(np, newname)] == dst && dst in nodes
                       && Fits(Dirent(np, newname), KEY_MAX))
      && (dst == 0 && Fits(Dirent(np, newname), KEY_MAX) ==> Entry(np, newname) !in EntriesOf(db))
      && src != dst && IsDir(nodes, np) && IsDir(nodes, p)
      && (IsDir(nodes, src) ==> !Under(EntriesOf(db), src, np))
  {
    hide Fits, Under;
    LookupMeans(db, nodes, p, name);
    LookupMeans(db, nodes, np, newname);
  }

  lemma NotThere<K, V>(m: map<K, V>, k: K)
    requires k !in m
    ensures m - {k} == m
  {
  }

  /** The entries after a rename, with or without a target. */
  lemma MovedNames(db: Db, nodes: Nodes, nextIno: nat, p: nat, name: string, np: nat, newname: string)
    requires Recoverable(db) && Registered(db, nodes, nextIno)
    ensures EntriesOf(RenamedDb(db, nodes, p, name, np, newname))
      == (EntriesOf(db) - {Entry(np, newname)} - {Entry(p, name)})[Entry(np, newname) := Lookup(db, p, name)]
  {
    LookupExact(db, nodes, nextIno, np, newname);
    hide Recoverable, Registered, Lookup, Dropped;
    if Lookup(db, np, newname) in nodes {
      hide EntriesOf;
      RenamedEntries(db, nodes, p, name, np, newname);
    } else {
      assert Entry(np, newname) !in EntriesOf(db);
      hide EntriesOf;
      RemoveEntry(db, p, name);
      PutEntry(db - {Dirent(p, name)}, np, newname, Lookup(db, p, name));
      NotThere(EntriesOf(db), Entry(np, newname));
    }
  }

  /** kvbfs_rename, for the requests the kernel sends.  A replaced target is deleted with all
      its keys; replacing a file that has another name is excluded here, see RenameExact. */
  method Rename(g: Context, p: nat, name: string, np: nat, newname: string) returns (r: Status)
    requires Healthy(g)
    requires RenameAllowed(g.db, g.inodes, p, name, np, newname)
    requires ReplacesLastName(g.inodes, Lookup(g.db, np, newname))
    modifies g
    ensures Healthy(g) && old(g.trail) <= g.trail && g.nextIno == old(g.nextIno)
    ensures r == RenameStatus(old(g.db), old(g.inodes), p, name, np, newname)
    ensures RenameAnswer(r, old(g.db), old(g.inodes), p, name, np, newname)
    ensures r.Done? ==> Dirent(p, name) in old(g.db)
    ensures r.Done? ==>
      EntriesOf(g.db) == (EntriesOf(old(g.db)) - {Entry(np, newname)} - {Entry(p, name)})[Entry(np, newname) := ChildOf(old(g.db)[Dirent(p, name)])]
    ensures r.Done? ==> g.db == RenamedDb(old(g.db), old(g.inodes), p, name, np, newname)
    ensures r.Done? ==> g.inodes == RenamedNodes(old(g.db), old(g.inodes), p, name, np, newname)
    ensures r.Done? ==> g.history == old(g.history) - {Lookup(old(g.db), np, newname)}
    ensures !r.Done? ==> g.db == old(g.db) && g.inodes == old(g.inodes) && g.history == old(g.history)
  {
    hide Fits, Healthy, FsOk, Recoverable, Registered, TreeOk, AllStored, EntriesOf;
    hide Under, Lookup, RenameAllowed, DirentsEmpty, Dropped, MovedDb, Moved;
    HealthyParts(g);
    RenameStatusExact(g.db, g.inodes, g.nextIno, p, name, np, newname);
    LookupExact(g.db, g.inodes, g.nextIno, p, name);
    MovedNames(g.db, g.inodes, g.nextIno, p, name, np, newname);
    hide RenameAnswer;
    var src := Lookup(g.db, p, name);
    if src == 0 {
      return ENOENT;
    }
    RenameParts(g.db, g.inodes, p, name, np, newname);
    var dst := Lookup(g.db, np, newname);
    if dst != 0 && dst in g.inodes {
      if g.inodes[dst].kind.Dir? {
        if !DirentsEmpty(g.db, dst) {
          return ENOTEMPTY;
        }
      }
      StillThere(g.db, p, name, np, newname, src, dst);
      ReplaceKeeps(g.db, g.inodes, g.nextIno, g.history, np, newname, dst);
      ReplaceTarget(g, np, newname, dst);
    } else {
      assert g.history - {dst} == g.history;
    }
    r := MoveName(g, p, name, np, newname, src);
    StillHealthy(g);
  }

  /** The part of rename after the target is gone, as the two functions of the whole. */
  lemma MoveSound(db: Db, nodes: Nodes, nextIno: nat, history: History, p: nat, name: string, np: nat, newname: string, mid: Db, rest: Nodes)
    requires FsOk(mid, rest, nextIno, history - {Lookup(db, np, newname)})
    requires mid == ReplacedDb(db, nodes, np, newname, Lookup(db, np, newname))
    requires rest == ReplacedNodes(nodes, np, Lookup(db, np, newname))
    requires Entry(p, name) in EntriesOf(mid) && EntriesOf(mid)[Entry(p, name)] == Lookup(db, p, name)
    requires Entry(np, newname) !in EntriesOf(mid) && IsDir(rest, np) && Fits(Dirent(np, newname), KEY_MAX)
    requires IsDir(rest, Lookup(db, p, name)) ==> !Under(EntriesOf(mid), Lookup(db, p, name), np)
    ensures FsOk(RenamedDb(db, nodes, p, name, np, newname), RenamedNodes(db, nodes, p, name, np, newname), nextIno,
                 history - {Lookup(db, np, newname)})
  {
    hide FsOk, EntriesOf, Under, Lookup, ReplacedDb, ReplacedNodes, MovedDb, Moved, Fits, Recoverable;
    MovedHealthy(mid, rest, nextIno, history - {Lookup(db, np, newname)}, p, name, np, newname, Lookup(db, p, name));
  }

  lemma RenameSound(db: Db, nodes: Nodes, nextIno: nat, history: History, p: nat, name: string, np: nat, newname: string)
    requires FsOk(db, nodes, nextIno, history)
    requires RenameAllowed(db, nodes, p, name, np, newname)
    requires RenameStatus(db, nodes, p, name, np, newname).Done?
    requires ReplacesLastName(nodes, Lookup(db, np, newname))
    ensures FsOk(RenamedDb(db, nodes, p, name, np, newname), RenamedNodes(db, nodes, p, name, np, newname), nextIno,
                 history - {Lookup(db, np, newname)})
  {
    hide Fits, TreeOk, EntriesOf, Stored, Recoverable, Registered, Joined, AllStored, Under;
    hide Lookup, RenameAllowed, DirentsEmpty, Dropped, FsOk, RenamedDb, RenamedNodes;
    FsShape(db, nodes, nextIno, history);
    RenameParts(db, nodes, p, name, np, newname);
    var src, dst := Lookup(db, p, name), Lookup(db, np, newname);
    if dst != 0 {
      StillThere(db, p, name, np, newname, src, dst);
      ReplaceKeeps(db, nodes, nextIno, history, np, newname, dst);
      MoveSound(db, nodes, nextIno, history, p, name, np, newname, Dropped(db, np, newname, dst), ReplacedNodes(nodes, np, dst));
    } else {
      assert history - {dst} == history;
      MoveSound(db, nodes, nextIno, history, p, name, np, newname, db, nodes);
    }
  }

  /** Exactly when a rename keeps the file system sound: the file it replaces, if any, must
      have no other name.  With another name left, that name dangles. */
  lemma RenameExact(db: Db, nodes: Nodes, nextIno: nat, history: History, p: nat, name: string, np: nat, newname: string)
    requires FsOk(db, nodes, nextIno, history)
    requires RenameAllowed(db, nodes, p, name, np, newname)
    requires RenameStatus(db, nodes, p, name, np, newname).Done?
    ensures FsOk(RenamedDb(db, nodes, p, name, np, newname), RenamedNodes(db, nodes, p, name, np, newname), nextIno,
                 history - {Lookup(db, np, newname)})
      <==> ReplacesLastName(nodes, Lookup(db, np, newname))
  {
    hide Fits, TreeOk, EntriesOf, Recoverable, Registered, Joined, AllStored, FsOk;
    hide Lookup, RenameAllowed, DirentsEmpty, RenamedDb, RenamedNodes, ReplacesLastName;
    var db', nodes' := RenamedDb(db, nodes, p, name, np, newname), RenamedNodes(db, nodes, p, name, np, newname);
    var dst := Lookup(db, np, newname);
    if ReplacesLastName(nodes, dst) {
      RenameSound(db, nodes, nextIno, history, p, name, np, newname);
    } else {
      FsShape(db, nodes, nextIno, history);
      RenameDangles(db, nodes, p, name, np, newname);
      if FsOk(db', nodes', nextIno, history - {dst}) {
        FsShape(db', nodes', nextIno, history - {dst});
      }
    }
  }

  lemma RenameDangles(db: Db, nodes: Nodes, p: nat, name: string, np: nat, newname: string)
    requires Recoverable(db) && TreeOk(EntriesOf(db), nodes) && 0 !in nodes
    requires RenameAllowed(db, nodes, p, name, np, newname) && Lookup(db, p, name) != 0
    requires !ReplacesLastName(nodes, Lookup(db, np, newname))
    ensures !TreeOk(EntriesOf(RenamedDb(db, nodes, p, name, np, newname)), RenamedNodes(db, nodes, p, name, np, newname))
  {
    hide Fits, Recoverable, Under, Lookup, RenameAllowed;
    RenameParts(db, nodes, p, name, np, newname);
    var src, dst := Lookup(db, p, name), Lookup(db, np, newname);
    var e := EntriesOf(db);
    assert Counted(e, nodes, dst);
    RenamedEntries(db, nodes, p, name, np, newname);
    DanglingBreaks(e, nodes, Entry(np, newname), RenamedNodes(db, nodes, p, name, np, newname),
                   EntriesOf(RenamedDb(db, nodes, p, name, np, newname)));
  }

  lemma RenamedEntries(db: Db, nodes: Nodes, p: nat, name: string, np: nat, newname: string)
    requires Recoverable(db) && Lookup(db, np, newname) in nodes
    ensures EntriesOf(RenamedDb(db, nodes, p, name, np, newname))
      == (EntriesOf(db) - {Entry(np, newname)} - {Entry(p, name)})[Entry(np, newname) := Lookup(db, p, name)]
  {
    hide EntriesOf, Recoverable, Lookup, Dropped;
    var dst := Lookup(db, np, newname);
    DroppedEntries(db, np, newname, dst);
    var mid := Dropped(db, np, newname, dst);
    RemoveEntry(mid, p, name);
    PutEntry(mid - {Dirent(p, name)}, np, newname, Lookup(db, p, name));
  }

  /** kvbfs_rename over a file that has another name: the same deletions and the same move.
      Every store up to the deletion of the replaced file's record is recoverable; the one
      after it is not, and the file system is not sound at the end. */
  method RenameLinked(g: Context, p: nat, name: string, np: nat, newname: string)
    requires Healthy(g)
    requires RenameAllowed(g.db, g.inodes, p, name, np, newname)
    requires RenameStatus(g.db, g.inodes, p, name, np, newname).Done?
    requires !ReplacesLastName(g.inodes, Lookup(g.db, np, newname))
    modifies g
    ensures g.db == RenamedDb(old(g.db), old(g.inodes), p, name, np, newname)
    ensures g.inodes == RenamedNodes(old(g.db), old(g.inodes), p, name, np, newname)
    ensures g.history == old(g.history) - {Lookup(old(g.db), np, newname)} && g.nextIno == old(g.nextIno)
    ensures old(g.trail) <= g.trail && forall s :: s in g.trail ==> Recoverable(s)
    ensures !Recoverable(Dropped(old(g.db), np, newname, Lookup(old(g.db), np, newname)))
    ensures !FsOk(g.db, g.inodes, g.nextIno, g.history)
  {
    hide Healthy, FsOk, Recoverable, Registered, TreeOk, AllStored, EntriesOf, Under, Lookup;
    hide RenameAllowed, DirentsEmpty, Stored, Dropped, MovedDb, Moved, Joined, Fits;
    HealthyParts(g);
    RenameParts(g.db, g.inodes, p, name, np, newname);
    RenameExact(g.db, g.inodes, g.nextIno, g.history, p, name, np, newname);
    LinkedBreaks(g.db, g.inodes, np, newname);
    var src, dst := Lookup(g.db, p, name), Lookup(g.db, np, newname);
    ParentCount(g.db, g.inodes, p, name);
    FsParts(g.db, g.inodes, g.nextIno, g.history, dst);
    DropLinked(g, np, newname, dst);
    MoveUnchecked(g, p, name, np, newname, src);
  }

  /** The deletions of rename, the last one without a demand on the store it leaves. */
  method DropLinked(g: Context, np: nat, newname: string, dst: nat)
    requires g.Safe() && dst in g.inodes && !g.inodes[dst].kind.Dir? && Stored(g.db, g.inodes, g.history, dst)
    modifies g
    ensures g.db == Dropped(old(g.db), np, newname, dst) && g.inodes == old(g.inodes) - {dst}
    ensures g.history == old(g.history) - {dst} && g.nextIno == old(g.nextIno)
    ensures old(g.trail) <= g.trail && forall s :: s in g.trail ==> Recoverable(s)
  {
    hide Recoverable, EntriesOf, Stored, Fits;
    StoredStays(g.db, g.db - {Dirent(np, newname)}, g.inodes, g.inodes, g.history, dst);
    RemoveDirent(g.db, np, newname);
    g.Delete(Dirent(np, newname));
    DropData(g, dst, false, g.inodes[dst].blocks);
    g.db := g.db - {InodeKey(dst)};
    g.inodes := g.inodes - {dst};
    g.history := g.history - {dst};
  }

  /** The move of rename, without a demand on the stores it leaves. */
  method MoveUnchecked(g: Context, p: nat, name: string, np: nat, newname: string, src: nat)
    requires src in g.inodes && p in g.inodes && np in g.inodes && (g.inodes[src].kind.Dir? ==> g.inodes[p].nlink > 0)
    modifies g`db, g`inodes
    ensures g.db == MovedDb(old(g.db), p, name, np, newname, src)
    ensures g.inodes == Moved(old(g.inodes), p, np, src)
  {
    var srcIsDir := g.inodes[src].kind.Dir?;
    g.db := g.db - {Dirent(p, name)};
    g.db := g.db[Dirent(np, newname) := ChildValue(src)];
    if srcIsDir && p != np {
      if g.inodes[p].nlink > 0 {
        g.inodes := g.inodes[p := g.inodes[p].(nlink := g.inodes[p].nlink - 1)];
      }
      g.inodes := g.inodes[np := g.inodes[np].(nlink := g.inodes[np].nlink + 1)];
    }
  }

  lemma Another<T>(s: set<T>, x: T) returns (y: T)
    requires x in s && |s| > 1
    ensures y in s && y != x
  {
    assert |s - {x}| > 0;
    y :| y in s - {x};
  }

  /** The other name of a file is left without a record. */
  lemma LinkedBreaks(db: Db, nodes: Nodes, np: nat, newname: string)
    requires TreeOk(EntriesOf(db), nodes) && Entry(np, newname) in EntriesOf(db)
    requires !ReplacesLastName(nodes, EntriesOf(db)[Entry(np, newname)])
    ensures !Recoverable(Dropped(db, np, newname, EntriesOf(db)[Entry(np, newname)]))
  {
    var e := EntriesOf(db);
    var dst := e[Entry(np, newname)];
    assert Counted(e, nodes, dst);
    var x := Another(Links(e, dst), Entry(np, newname));
    assert Dirent(x.parent, x.name) in Dropped(db, np, newname, dst);
  }

  lemma ParentCount(db: Db, nodes: Nodes, p: nat, name: string)
    requires TreeOk(EntriesOf(db), nodes) && Entry(p, name) in EntriesOf(db)
    ensures IsDir(nodes, EntriesOf(db)[Entry(p, name)]) ==> p in nodes && nodes[p].nlink > 0
  {
    hide TreeOk, EntriesOf;
    if IsDir(nodes, EntriesOf(db)[Entry(p, name)]) {
      ParentCounts(EntriesOf(db), nodes, Entry(p, name));
    }
  }

  /** The upward search finds an entry for every inode but the root. */
  lemma ParentExists(db: Db, nodes: Nodes, c: nat)
    requires TreeOk(EntriesOf(db), nodes) && c != ROOT_INO
    ensures c in nodes ==> exists k :: k in db && k.Dirent? && ChildOf(db[k]) == c
  {
    if c in nodes {
      NoOrphans(EntriesOf(db), nodes, c);
      var x :| x in EntriesOf(db) && EntriesOf(db)[x] == c;
      assert Dirent(x.parent, x.name) in db;
    }
  }
}
