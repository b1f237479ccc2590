/** Whole runs: any sequence of requests, from the first mount on, keeps the file system
    sound.  This module joins the block layer, the versions and the name space. */
module FileSystem {
  import opened Keys
  import opened Sparse
  import opened Store
  import opened BlockLayer
  import opened Versions
  import opened Tree
  import opened Namespace
  import opened NameTree

  // ---- data operations keep the invariant ----

  /** A block-layer change of one regular file keeps the invariant. */
  lemma FileChangeHealthy(db: Db, nodes: Nodes, db': Db, nodes': Nodes, nextIno: nat, history: History, ino: nat)
    requires FsOk(db, nodes, nextIno, history) && Recoverable(db')
    requires OnlySlot(db, db', Live(ino)) && OnlySize(nodes, nodes', ino)
    requires FileOk(db', nodes', ino)
    ensures FsOk(db', nodes', nextIno, history)
  {
    hide TreeOk, EntriesOf, Stored, Recoverable, AllStored, FsOk, Registered;
    FsShape(db, nodes, nextIno, history);
    FsStored(db, nodes, nextIno, history);
    SameEntries(db, db');
    FileChangeRegistered(db, nodes, db', nodes', nextIno, ino);
    SizesKeepTree(EntriesOf(db), nodes, nodes', ino);
    FileChangeStored(db, nodes, db', nodes', history, ino);
    FsIntro(db', nodes', nextIno, history, EntriesOf(db));
  }

  lemma FileChangeRegistered(db: Db, nodes: Nodes, db': Db, nodes': Nodes, nextIno: nat, ino: nat)
    requires Registered(db, nodes, nextIno) && OnlySlot(db, db', Live(ino)) && OnlySize(nodes, nodes', ino)
    ensures Registered(db', nodes', nextIno)
  {
    forall i: nat
      ensures InodeKey(i) in db' <==> InodeKey(i) in db
      ensures InodeKey(i) in db ==> db'[InodeKey(i)] == db[InodeKey(i)]
    {
      assert !InSlot(Live(ino), InodeKey(i));
    }
    assert !InSlot(Live(ino), SuperKey);
  }

  /** Sizes play no part in the tree. */
  lemma SizesKeepTree(e: Entries, nodes: Nodes, nodes': Nodes, ino: nat)
    requires TreeOk(e, nodes) && OnlySize(nodes, nodes', ino)
    ensures TreeOk(e, nodes')
  {
    forall i | i in nodes' ensures Counted(e, nodes', i) {
      assert Counted(e, nodes, i);
      assert Subdirs(e, nodes', i) == Subdirs(e, nodes, i);
    }
    RankedStays(e, nodes, e, nodes');
  }

  lemma FileChangeStored(db: Db, nodes: Nodes, db': Db, nodes': Nodes, history: History, ino: nat)
    requires AllStored(db, nodes, history) && history.Keys == nodes.Keys
    requires OnlySlot(db, db', Live(ino)) && OnlySize(nodes, nodes', ino) && FileOk(db', nodes', ino)
    ensures AllStored(db', nodes', history)
  {
    assert Stored(db, nodes, history, ino);
    VersionsFrame(db, db', ino, history[ino], Oldest(|history[ino]|));
    assert Stored(db', nodes', history, ino);
    hide Stored;
    AllStoredFrame(db, db', nodes, nodes', history, history, ino);
  }

  /** Taking a snapshot keeps the invariant. */
  lemma SnapshotHealthy(db: Db, nodes: Nodes, db': Db, nextIno: nat, history: History, history': History, ino: nat)
    requires FsOk(db, nodes, nextIno, history) && Recoverable(db')
    requires ino in nodes && nodes[ino].kind.Regular? && OnlyVersions(db, db', ino)
    requires ino in history' && history' == history[ino := history'[ino]] && VersionsOk(db', ino, history'[ino])
    ensures FsOk(db', nodes, nextIno, history')
  {
    hide TreeOk, EntriesOf, Recoverable, AllStored, FsOk, Registered;
    FsShape(db, nodes, nextIno, history);
    FsParts(db, nodes, nextIno, history, ino);
    SameEntries(db, db');
    SlotFrame(db, db', Live(ino));
    assert Stored(db', nodes, history', ino);
    SnapshotRegistered(db, nodes, db', nextIno, ino);
    hide Stored;
    AllStoredFrame(db, db', nodes, nodes, history, history', ino);
    FsIntro(db', nodes, nextIno, history', EntriesOf(db));
  }

  lemma SnapshotRegistered(db: Db, nodes: Nodes, db': Db, nextIno: nat, ino: nat)
    requires Registered(db, nodes, nextIno) && OnlyVersions(db, db', ino)
    ensures Registered(db', nodes, nextIno)
  {
    forall i: nat
      ensures InodeKey(i) in db' <==> InodeKey(i) in db
      ensures InodeKey(i) in db ==> db'[InodeKey(i)] == db[InodeKey(i)]
    {
      assert !VersionKey(InodeKey(i), ino);
    }
    assert !VersionKey(SuperKey, ino);
  }

  /** A regular file of a sound file system satisfies the block-layer invariant. */
  lemma RegularFileOk(db: Db, nodes: Nodes, nextIno: nat, history: History, ino: nat)
    requires FsOk(db, nodes, nextIno, history) && ino in nodes && nodes[ino].kind.Regular?
    ensures FileOk(db, nodes, ino) && ino in history && VersionsOk(db, ino, history[ino])
  {
    FsParts(db, nodes, nextIno, history, ino);
  }

  /** An attribute is set unless it is reserved, its key is too long, it must be new and is not,
      or it must be there and is not. */
  function XattrStatus(db: Db, ino: nat, name: string, create: bool, replace: bool): Status {
    if Reserved(name) then EPERM
    else if !Fits(Xattr(ino, name), KEY_MAX) then ERANGE
    else if create && Xattr(ino, name) in db then EEXIST
    else if replace && !create && Xattr(ino, name) !in db then ENODATA
    else Done
  }

  /** kvbfs_setxattr, on an inode the kernel holds. */
  method SetXattr(g: Context, ino: nat, name: string, value: seq<byte>, create: bool, replace: bool) returns (r: Status)
    requires Healthy(g) && ino in g.inodes
    modifies g
    ensures Healthy(g) && old(g.trail) <= g.trail
    ensures g.inodes == old(g.inodes) && g.nextIno == old(g.nextIno) && g.history == old(g.history)
    ensures r == XattrStatus(old(g.db), ino, name, create, replace)
    ensures r.EPERM? <==> "agentfs." <= name
    ensures r.ERANGE? <==> !("agentfs." <= name) && !Fits(Xattr(ino, name), KEY_MAX)
    ensures r.EEXIST? <==> !r.EPERM? && !r.ERANGE? && create && Xattr(ino, name) in old(g.db)
    ensures r.ENODATA? <==> !r.EPERM? && !r.ERANGE? && !create && replace && Xattr(ino, name) !in old(g.db)
    ensures r.Done? || r.EPERM? || r.ERANGE? || r.EEXIST? || r.ENODATA?
    ensures g.db == if r.Done? then old(g.db)[Xattr(ino, name) := Bytes(value)] else old(g.db)
  {
    hide Healthy, FsOk, Recoverable, Registered, TreeOk, AllStored, EntriesOf, Fits;
    HealthyParts(g);
    if Reserved(name) {
      return EPERM;
    }
    if !Fits(Xattr(ino, name), KEY_MAX) {
      return ERANGE;
    }
    if create {
      if Xattr(ino, name) in g.db {
        return EEXIST;
      }
    } else if replace {
      if Xattr(ino, name) !in g.db {
        return ENODATA;
      }
    }
    XattrHealthy(g.db, g.inodes, g.nextIno, g.history, ino, name, value);
    g.Put(Xattr(ino, name), Bytes(value));
    StillHealthy(g);
    return Done;
  }

  lemma XattrHealthy(db: Db, nodes: Nodes, nextIno: nat, history: History, ino: nat, name: string, value: seq<byte>)
    requires FsOk(db, nodes, nextIno, history) && ino in nodes && !Reserved(name)
    ensures Recoverable(db[Xattr(ino, name) := Bytes(value)])
    ensures FsOk(db[Xattr(ino, name) := Bytes(value)], nodes, nextIno, history)
  {
    hide TreeOk, EntriesOf, Stored, AllStored, FsOk;
    FsShape(db, nodes, nextIno, history);
    FsParts(db, nodes, nextIno, history, ino);
    var db' := db[Xattr(ino, name) := Bytes(value)];
    PutOwned(db, Xattr(ino, name), Bytes(value));
    SameEntries(db, db');
    XattrStored(db, nodes, history, ino, db');
    AllStoredFrame(db, db', nodes, nodes, history, history, ino);
    FsIntro(db', nodes, nextIno, history, EntriesOf(db));
  }

  lemma XattrStored(db: Db, nodes: Nodes, history: History, ino: nat, db': Db)
    requires ino in nodes && Stored(db, nodes, history, ino)
    requires forall k: Key :: !k.Xattr? ==> (k in db <==> k in db') && (k in db ==> db[k] == db'[k])
    ensures Stored(db', nodes, history, ino)
  {
    SlotFrame(db, db', Live(ino));
    VersionsFrame(db, db', ino, history[ino], Oldest(|history[ino]|));
  }

  // ---- the kernel's check before a rename ----

  /** Walks up from d; d is m or below m exactly when the walk meets m. */
  method Below(g: Context, m: nat, d: nat) returns (b: bool)
    requires Healthy(g) && IsDir(g.inodes, m) && IsDir(g.inodes, d)
    ensures b <==> Under(EntriesOf(g.db), m, d)
  {
    hide Healthy, FsOk, Recoverable, Registered, AllStored, Under;
    HealthyParts(g);
    ghost var e := EntriesOf(g.db);
    ghost var depth :| Ranked(e, g.inodes, depth);
    var cur := d;
    while cur != m && cur != ROOT_INO
      invariant IsDir(g.inodes, cur) && cur in depth
      invariant Under(e, m, cur) <==> Under(e, m, d)
      decreases depth[cur]
    {
      ParentExists(g.db, g.inodes, cur);
      var k :| k in g.db && k.Dirent? && ChildOf(g.db[k]) == cur;
      ghost var x := Entry(k.parent, k.name);
      assert x in e && e[x] == cur;
      if Under(e, m, x.parent) { UnderChild(e, m, x); }
      if Under(e, m, cur) { UnderParent(e, g.inodes, m, x); }
      cur := k.parent;
    }
    if cur == m {
      UnderSelf(e, m);
    } else if Under(e, m, cur) {
      OnlyRootAbove(e, g.inodes, depth, m);
    }
    return cur == m;
  }

  lemma OnlyRootAbove(e: Entries, nodes: Nodes, depth: map<nat, nat>, m: nat)
    requires TreeOk(e, nodes) && Ranked(e, nodes, depth) && IsDir(nodes, m) && Under(e, m, ROOT_INO)
    ensures m == ROOT_INO
  {
    UnderDepth(e, nodes, depth, m, ROOT_INO);
    if m != ROOT_INO {
      NoOrphans(e, nodes, m);
      assert false;
    }
  }

  // ---- runs ----

  datatype Request =
    | CreateFile(p: nat, name: string)
    | MakeDir(p: nat, name: string)
    | MakeSymlink(target: seq<byte>, p: nat, name: string)
    | MakeLink(ino: nat, p: nat, name: string)
    | UnlinkFile(p: nat, name: string)
    | RemoveDirectory(p: nat, name: string)
    | Move(p: nat, name: string, np: nat, newname: string)
    | Data(ino: nat, op: FileOp)
    | CloseWritten(ino: nat)
    | SetAttribute(ino: nat, name: string, value: seq<byte>, create: bool, replace: bool)

  /** What a regular file is to its readers: its content and the snapshots taken so far. */
  datatype FileState = FileState(content: seq<byte>, snapshots: seq<seq<byte>>)

  const NEW_FILE := FileState([], [])

  /** What one request does to the file with number i: data operations on it change its
      content, and closing it after a write adds its content, unless empty, to the snapshots. */
  function After(s: FileState, rq: Request, i: nat): FileState {
    match rq
    case Data(ino, op) => if ino == i then s.(content := Apply(s.content, op)) else s
    case CloseWritten(ino) => if ino == i && s.content != [] then s.(snapshots := s.snapshots + [s.content]) else s
    case _ => s
  }

  /** What a run of requests makes of a new file with number i. */
  function Lived(requests: seq<Request>, i: nat): FileState {
    if requests == [] then NEW_FILE
    else After(Lived(requests[..|requests| - 1], i), requests[|requests| - 1], i)
  }

  /** The attributes stored for inode i. */
  function AttrsOf(db: Db, i: nat): (a: map<string, seq<byte>>)
    ensures forall n :: n in a <==> Xattr(i, n) in db
    ensures forall n :: n in a ==> a[n] == BytesOf(db[Xattr(i, n)])
  {
    map k | k in db && k.Xattr? && k.ino == i :: k.name := BytesOf(db[k])
  }

  /** What one request does to the attributes of inode i. */
  function AttrsAfter(a: map<string, seq<byte>>, rq: Request, i: nat): map<string, seq<byte>> {
    match rq
    case SetAttribute(ino, name, value, create, replace) =>
      if ino != i || Reserved(name) || !Fits(Xattr(i, name), KEY_MAX) then a
      else if create && name in a then a
      else if !create && replace && name !in a then a
      else a[name := value]
    case _ => a
  }

  function StateOf(db: Db, nodes: Nodes, history: History, i: nat): FileState
    requires i in nodes && i in history
  {
    FileState(Content(db, nodes, i), history[i])
  }

  /** Inode i of the new state is one of before with the state the request gives it, or the
      inode the request asked for. */
  ghost predicate Follows(rq: Request, db: Db, nodes: Nodes, history: History, db': Db, nodes': Nodes, history': History, i: nat)
    requires i in nodes' && i in history'
  {
    && AttrsOf(db', i) == (if i in nodes && i in history then AttrsAfter(AttrsOf(db, i), rq, i) else map[])
    && if i in nodes && i in history then
      && nodes'[i].kind == nodes[i].kind
      && match nodes[i].kind
         case Regular => StateOf(db', nodes', history', i) == After(StateOf(db, nodes, history, i), rq, i)
         case Symlink => LinkTarget(db', i) == LinkTarget(db, i) && history'[i] == history[i]
         case Dir => history'[i] == history[i]
    else
      && history'[i] == []
      && match nodes'[i].kind
         case Regular => rq.CreateFile? && Content(db', nodes', i) == []
         case Symlink => rq.MakeSymlink? && LinkTarget(db', i) == rq.target
         case Dir => rq.MakeDir?
  }

  ghost predicate AllFollow(rq: Request, db: Db, nodes: Nodes, history: History, db': Db, nodes': Nodes, history': History) {
    forall i :: i in nodes' && i in history' ==> Follows(rq, db, nodes, history, db', nodes', history', i)
  }

  // ---- requests that change names only ----

  /** The blocks and attributes of inode i are the same. */
  ghost predicate SameBlocks(db: Db, db': Db, i: nat) {
    forall k :: InSlot(Live(i), k) || (k.Xattr? && k.ino == i) ==> (k in db <==> k in db') && (k in db ==> db[k] == db'[k])
  }

  lemma SameAttrs(db: Db, db': Db, i: nat)
    requires SameBlocks(db, db', i)
    ensures AttrsOf(db', i) == AttrsOf(db, i)
  {
    hide AttrsOf;
    var a, a' := AttrsOf(db, i), AttrsOf(db', i);
    forall n ensures n in a <==> n in a' ensures n in a ==> a[n] == a'[n] {
      assert n in a <==> Xattr(i, n) in db;
    }
  }

  /** Every inode of the new state is one of before with the same data. */
  ghost predicate Kept(db: Db, nodes: Nodes, history: History, db': Db, nodes': Nodes, history': History, i: nat) {
    && i in nodes && i in nodes' && i in history && i in history' && history'[i] == history[i]
    && nodes'[i].kind == nodes[i].kind && nodes'[i].size == nodes[i].size
    && SameBlocks(db, db', i)
  }

  lemma KeptFollows(rq: Request, db: Db, nodes: Nodes, history: History, db': Db, nodes': Nodes, history': History, i: nat)
    requires Kept(db, nodes, history, db', nodes', history', i)
    requires (rq.Data? || rq.CloseWritten?) && nodes[i].kind.Regular? ==> rq.ino != i
    requires AttrsAfter(AttrsOf(db, i), rq, i) == AttrsOf(db, i)
    ensures Follows(rq, db, nodes, history, db', nodes', history', i)
  {
    hide AttrsOf, AttrsAfter;
    SlotFrame(db, db', Live(i));
    SameAttrs(db, db', i);
  }

  lemma SameXattrs(db: Db, db': Db, i: nat)
    requires OnlySlot(db, db', Live(i))
    ensures AttrsOf(db', i) == AttrsOf(db, i)
  {
    hide AttrsOf;
    var a, a' := AttrsOf(db, i), AttrsOf(db', i);
    forall n ensures n in a <==> n in a' ensures n in a ==> a[n] == a'[n] {
      assert !InSlot(Live(i), Xattr(i, n));
    }
  }

  ghost predicate AllKept(db: Db, nodes: Nodes, history: History, db': Db, nodes': Nodes, history': History) {
    forall i :: i in nodes' ==> Kept(db, nodes, history, db', nodes', history', i)
  }

  lemma AllKeptFollows(rq: Request, db: Db, nodes: Nodes, history: History, db': Db, nodes': Nodes, history': History)
    requires AllKept(db, nodes, history, db', nodes', history')
    requires (rq.Data? || rq.CloseWritten?) && rq.ino in nodes ==> !nodes[rq.ino].kind.Regular?
    requires rq.SetAttribute? && rq.ino in nodes ==> AttrsAfter(AttrsOf(db, rq.ino), rq, rq.ino) == AttrsOf(db, rq.ino)
    ensures AllFollow(rq, db, nodes, history, db', nodes', history')
  {
    hide Kept, Follows;
    forall i | i in nodes' && i in history' ensures Follows(rq, db, nodes, history, db', nodes', history', i) {
      assert Kept(db, nodes, history, db', nodes', history', i);
      KeptNode(db, nodes, history, db', nodes', history', i);
      KeptFollows(rq, db, nodes, history, db', nodes', history', i);
    }
  }

  lemma KeptNode(db: Db, nodes: Nodes, history: History, db': Db, nodes': Nodes, history': History, i: nat)
    requires Kept(db, nodes, history, db', nodes', history', i)
    ensures i in nodes && i in nodes' && i in history && i in history' && nodes'[i].kind == nodes[i].kind
  {
  }

  lemma NothingChanged(db: Db, nodes: Nodes, history: History)
    requires history.Keys == nodes.Keys
    ensures AllKept(db, nodes, history, db, nodes, history)
  {
  }

  lemma LinkKept(db: Db, nodes: Nodes, history: History, ino: nat, p: nat, name: string)
    requires history.Keys == nodes.Keys && ino in nodes
    ensures AllKept(db, nodes, history, db[Dirent(p, name) := ChildValue(ino)], AddNlink(nodes, ino, 1), history)
  {
  }

  lemma UnlinkKept(db: Db, nodes: Nodes, history: History, p: nat, name: string, c: nat)
    requires history.Keys == nodes.Keys && c in nodes && nodes[c].nlink > 0
    ensures nodes[c].nlink == 1 ==>
      AllKept(db, nodes, history, Dropped(db, p, name, c), Unlinked(nodes, c), history - {c})
    ensures nodes[c].nlink > 1 ==>
      AllKept(db, nodes, history, db - {Dirent(p, name)}, Unlinked(nodes, c), history)
  {
  }

  lemma RmdirKept(db: Db, nodes: Nodes, history: History, p: nat, name: string, c: nat)
    requires history.Keys == nodes.Keys && p in nodes && nodes[p].nlink > 0 && p != c
    ensures AllKept(db, nodes, history, Dropped(db, p, name, c), DirRemoved(nodes, p, c), history - {c})
  {
  }

  lemma RenameKept(db: Db, nodes: Nodes, history: History, p: nat, name: string, np: nat, newname: string)
    requires history.Keys == nodes.Keys && 0 !in nodes
    ensures AllKept(db, nodes, history, RenamedDb(db, nodes, p, name, np, newname),
                    RenamedNodes(db, nodes, p, name, np, newname), history - {Lookup(db, np, newname)})
  {
    hide Lookup;
  }

  /** Setting an attribute changes nothing else. */
  lemma XattrFollows(rq: Request, db: Db, nodes: Nodes, history: History)
    requires rq.SetAttribute? && history.Keys == nodes.Keys
    requires XattrStatus(db, rq.ino, rq.name, rq.create, rq.replace).Done?
    ensures AllFollow(rq, db, nodes, history, db[Xattr(rq.ino, rq.name) := Bytes(rq.value)], nodes, history)
  {
    hide Follows, Kept, XattrStatus, AttrsAfter, AttrsOf;
    var db' := db[Xattr(rq.ino, rq.name) := Bytes(rq.value)];
    forall i | i in nodes && i in history ensures Follows(rq, db, nodes, history, db', nodes, history, i) {
      if i == rq.ino {
        AttrSet(rq, db);
        DataUntouched(rq, db, nodes, history, db', i);
      } else {
        XattrOthers(rq, db, nodes, history, i);
        KeptFollows(rq, db, nodes, history, db', nodes, history, i);
      }
    }
  }

  lemma XattrOthers(rq: Request, db: Db, nodes: Nodes, history: History, i: nat)
    requires rq.SetAttribute? && i != rq.ino && i in nodes && i in history
    ensures Kept(db, nodes, history, db[Xattr(rq.ino, rq.name) := Bytes(rq.value)], nodes, history, i)
    ensures AttrsAfter(AttrsOf(db, i), rq, i) == AttrsOf(db, i)
  {
  }

  lemma AttrSet(rq: Request, db: Db)
    requires rq.SetAttribute? && XattrStatus(db, rq.ino, rq.name, rq.create, rq.replace).Done?
    ensures AttrsOf(db[Xattr(rq.ino, rq.name) := Bytes(rq.value)], rq.ino) == AttrsAfter(AttrsOf(db, rq.ino), rq, rq.ino)
  {
    var a, a' := AttrsOf(db, rq.ino), AttrsOf(db[Xattr(rq.ino, rq.name) := Bytes(rq.value)], rq.ino);
    hide Fits, AttrsOf;
    forall n ensures n in a' <==> n in a[rq.name := rq.value] ensures n in a' ==> a'[n] == a[rq.name := rq.value][n] {
      assert Xattr(rq.ino, n) == Xattr(rq.ino, rq.name) <==> n == rq.name;
    }
    assert a' == a[rq.name := rq.value];
  }

  lemma DataUntouched(rq: Request, db: Db, nodes: Nodes, history: History, db': Db, i: nat)
    requires rq.SetAttribute? && i in nodes && i in history
    requires forall k: Key :: !k.Xattr? ==> (k in db <==> k in db') && (k in db ==> db[k] == db'[k])
    requires AttrsOf(db', i) == AttrsAfter(AttrsOf(db, i), rq, i)
    ensures Follows(rq, db, nodes, history, db', nodes, history, i)
  {
    hide AttrsOf, AttrsAfter;
    SlotFrame(db, db', Live(i));
  }

  lemma XattrRefused(rq: Request, db: Db)
    requires rq.SetAttribute? && !XattrStatus(db, rq.ino, rq.name, rq.create, rq.replace).Done?
    ensures AttrsAfter(AttrsOf(db, rq.ino), rq, rq.ino) == AttrsOf(db, rq.ino)
  {
    hide Fits, AttrsOf;
  }

  // ---- requests that make an inode ----

  /** The inode and the data a request stores. */
  predicate Makes(rq: Request, node: Inode, data: Db, c: nat) {
    match rq
    case CreateFile(_, _) => node == Inode(Regular, 1, 0, 0) && data == map[]
    case MakeDir(_, _) => node == Inode(Dir, 2, 0, 0) && data == map[]
    case MakeSymlink(target, _, _) => node == Inode(Symlink, 1, |target|, 1) && data == map[Block(c, 0) := Bytes(target)]
    case _ => false
  }

  lemma OutcomeFollows(rq: Request, r: Status, db: Db, nodes: Nodes, nextIno: nat, history: History,
    db': Db, nodes': Nodes, nextIno': nat, history': History, p: nat, name: string, node: Inode, data: Db)
    requires Outcome(r, db, nodes, nextIno, history, db', nodes', nextIno', history', p, name, node, data)
    requires history.Keys == nodes.Keys && Makes(rq, node, data, nextIno)
    requires nextIno !in nodes && forall k :: k in db ==> !OwnedBy(k, nextIno)
    ensures AllFollow(rq, db, nodes, history, db', nodes', history')
  {
    hide Follows, AllFollow, Added, SameBlocks;
    if r.Done? {
      forall i | i in nodes' && i in history' ensures Follows(rq, db, nodes, history, db', nodes', history', i) {
        if i == nextIno {
          MadeFollows(rq, db, nodes, nextIno, history, p, name, node, data);
        } else {
          AddedKept(db, nodes, nextIno, history, p, name, node, data, i);
          KeptFollows(rq, db, nodes, history, db', nodes', history', i);
        }
      }
      AllFollowIntro(rq, db, nodes, history, db', nodes', history');
    } else {
      OnlyCounter(db, nodes, history, nextIno);
      NothingChanged(db, nodes, history);
      AllKeptFollows(rq, db, nodes, history, db', nodes', history');
    }
  }

  lemma AllFollowIntro(rq: Request, db: Db, nodes: Nodes, history: History, db': Db, nodes': Nodes, history': History)
    requires forall i :: i in nodes' && i in history' ==> Follows(rq, db, nodes, history, db', nodes', history', i)
    ensures AllFollow(rq, db, nodes, history, db', nodes', history')
  {
  }

  lemma OnlyCounter(db: Db, nodes: Nodes, history: History, nextIno: nat)
    requires history.Keys == nodes.Keys
    ensures AllKept(db, nodes, history, db[SuperKey := SuperValue(nextIno + 1)], nodes, history)
  {
  }

  lemma AddedKept(db: Db, nodes: Nodes, c: nat, history: History, p: nat, name: string, node: Inode, data: Db, i: nat)
    requires p in nodes && p != c && history.Keys == nodes.Keys
    requires (forall k :: k in data ==> OwnedBy(k, c)) && i in nodes && i != c
    ensures Kept(db, nodes, history, Added(db, c, p, name, node, data), NewNode(nodes, p, c, node), history[c := []], i)
  {
  }

  lemma NoAttrs(db: Db, c: nat, p: nat, name: string, node: Inode, data: Db)
    requires (forall k :: k in db ==> !OwnedBy(k, c)) && forall k :: k in data ==> k.Block?
    ensures AttrsOf(Added(db, c, p, name, node, data), c) == map[]
  {
    forall n ensures Xattr(c, n) !in Added(db, c, p, name, node, data) {
      assert OwnedBy(Xattr(c, n), c);
    }
  }

  lemma MadeFollows(rq: Request, db: Db, nodes: Nodes, c: nat, history: History, p: nat, name: string, node: Inode, data: Db)
    requires p in nodes && p != c && Makes(rq, node, data, c)
    requires c !in nodes && forall k :: k in db ==> !OwnedBy(k, c)
    ensures Follows(rq, db, nodes, history, Added(db, c, p, name, node, data), NewNode(nodes, p, c, node), history[c := []], c)
  {
    hide Content, AttrsOf, AttrsAfter, LinkTarget, Added, OwnedBy, NewNode, StateOf;
    NoAttrs(db, c, p, name, node, data);
    NodeIsNew(nodes, p, c, node);
    if rq.MakeSymlink? {
      NewTarget(db, c, p, name, node, rq.target);
    } else if rq.CreateFile? {
      EmptyContent(Added(db, c, p, name, node, data), NewNode(nodes, p, c, node), c);
    }
  }

  lemma NodeIsNew(nodes: Nodes, p: nat, c: nat, node: Inode)
    requires p in nodes && p != c
    ensures c in NewNode(nodes, p, c, node) && NewNode(nodes, p, c, node)[c] == node
  {
  }

  lemma NewTarget(db: Db, c: nat, p: nat, name: string, node: Inode, target: seq<byte>)
    ensures LinkTarget(Added(db, c, p, name, node, map[Block(c, 0) := Bytes(target)]), c) == target
  {
    assert SlotKey(Live(c), 0) == Block(c, 0);
  }

  // ---- one request ----

  /** What one request does to the tree of names. */
  ghost function NamesAfter(s: Names, rq: Request): Names {
    match rq
    case CreateFile(p, name) => Made(s, Entry(p, name), Regular)
    case MakeDir(p, name) => Made(s, Entry(p, name), Dir)
    case MakeSymlink(_, p, name) => Made(s, Entry(p, name), Symlink)
    case MakeLink(ino, p, name) => Linked(s, Entry(p, name), ino)
    case UnlinkFile(p, name) => FileRemoved(s, Entry(p, name))
    case RemoveDirectory(p, name) => DirectoryRemoved(s, Entry(p, name))
    case Move(p, name, np, newname) => MovedTo(s, Entry(p, name), Entry(np, newname))
    case _ => s
  }

  ghost function NamesAfterAll(s: Names, requests: seq<Request>): Names {
    if requests == [] then s
    else NamesAfter(NamesAfterAll(s, requests[..|requests| - 1]), requests[|requests| - 1])
  }

  /** The tree of names right after the first mount. */
  const FIRST_NAMES := Names(map[], map[ROOT_INO := Dir], ROOT_INO + 1)

  /** kvbfs_create, ..., as one request.  Requests the kernel never sends (data on a
      directory, a move below itself) are skipped, and so is a rename over a file that has
      another name (see Namespace.RenameLinked). */
  method Step(g: Context, rq: Request)
    requires Healthy(g)
    modifies g
    ensures Healthy(g) && old(g.trail) <= g.trail
    ensures AllFollow(rq, old(g.db), old(g.inodes), old(g.history), g.db, g.inodes, g.history)
    ensures NamesOf(g.db, g.inodes, g.nextIno) == NamesAfter(NamesOf(old(g.db), old(g.inodes), old(g.nextIno)), rq)
  {
    hide Healthy, FsOk, AllFollow, NamesOf, Made, Linked, FileRemoved, DirectoryRemoved, MovedTo;
    match rq {
      case CreateFile(_, _) => MakeStep(g, rq);
      case MakeDir(_, _) => MakeStep(g, rq);
      case MakeSymlink(_, _, _) => MakeStep(g, rq);
      case Data(ino, op) => DataStep(g, ino, op);
      case CloseWritten(ino) => CloseStep(g, ino);
      case _ => NameStep(g, rq);
    }
  }

  method MakeStep(g: Context, rq: Request)
    requires Healthy(g) && (rq.CreateFile? || rq.MakeDir? || rq.MakeSymlink?)
    modifies g
    ensures Healthy(g) && old(g.trail) <= g.trail
    ensures AllFollow(rq, old(g.db), old(g.inodes), old(g.history), g.db, g.inodes, g.history)
    ensures NamesOf(g.db, g.inodes, g.nextIno) == NamesAfter(NamesOf(old(g.db), old(g.inodes), old(g.nextIno)), rq)
  {
    hide Healthy, FsOk, Recoverable, Registered, TreeOk, AllStored, EntriesOf, Outcome, AllFollow;
    hide AddAnswer, AddStatus, NamesOf, Made;
    HealthyParts(g);
    FreshIno(g.db, g.inodes, g.nextIno);
    var r: Status;
    ghost var ino := g.nextIno;
    ghost var node, data;
    match rq {
      case CreateFile(p, name) => {
        r := Create(g, p, name);
        node, data := Inode(Regular, 1, 0, 0), map[];
      }
      case MakeDir(p, name) => {
        r := Mkdir(g, p, name);
        node, data := Inode(Dir, 2, 0, 0), map[];
      }
      case MakeSymlink(target, p, name) => {
        r := SymbolicLink(g, target, p, name);
        node, data := Inode(Symlink, 1, |target|, 1), map[Block(ino, 0) := Bytes(target)];
      }
    }
    OutcomeFollows(rq, r, old(g.db), old(g.inodes), ino, old(g.history),
                   g.db, g.inodes, g.nextIno, g.history, rq.p, rq.name, node, data);
    MadeExact(r, old(g.db), old(g.inodes), ino, old(g.history),
              g.db, g.inodes, g.nextIno, g.history, rq.p, rq.name, node, data);
  }

  method NameStep(g: Context, rq: Request)
    requires Healthy(g)
    requires rq.MakeLink? || rq.UnlinkFile? || rq.RemoveDirectory? || rq.Move? || rq.SetAttribute?
    modifies g
    ensures Healthy(g) && old(g.trail) <= g.trail
    ensures AllFollow(rq, old(g.db), old(g.inodes), old(g.history), g.db, g.inodes, g.history)
    ensures NamesOf(g.db, g.inodes, g.nextIno) == NamesAfter(NamesOf(old(g.db), old(g.inodes), old(g.nextIno)), rq)
  {
    hide Healthy, FsOk, AllKept, AllFollow, NamesOf, Linked, FileRemoved, DirectoryRemoved, MovedTo;
    KeysSame(g);
    match rq {
      case MakeLink(ino, p, name) => LinkStep(g, ino, p, name);
      case UnlinkFile(p, name) => UnlinkStep(g, p, name);
      case RemoveDirectory(p, name) => RmdirStep(g, p, name);
      case Move(p, name, np, newname) => MoveStep(g, p, name, np, newname);
      case SetAttribute(_, _, _, _, _) => {
        AttrStep(g, rq);
        return;
      }
    }
    AllKeptFollows(rq, old(g.db), old(g.inodes), old(g.history), g.db, g.inodes, g.history);
  }

  lemma KeysSame(g: Context)
    requires Healthy(g)
    ensures g.history.Keys == g.inodes.Keys
  {
  }

  method LinkStep(g: Context, ino: nat, p: nat, name: string)
    requires Healthy(g)
    modifies g
    ensures Healthy(g) && old(g.trail) <= g.trail
    ensures AllKept(old(g.db), old(g.inodes), old(g.history), g.db, g.inodes, g.history)
    ensures NamesOf(g.db, g.inodes, g.nextIno) == Linked(NamesOf(old(g.db), old(g.inodes), old(g.nextIno)), Entry(p, name), ino)
  {
    hide Healthy, FsOk, Recoverable, Registered, TreeOk, AllStored, EntriesOf, LinkStatus, LinkAnswer, AllKept, NamesOf, Linked;
    HealthyParts(g);
    NothingChanged(g.db, g.inodes, g.history);
    ghost var db, nodes := g.db, g.inodes;
    var r := Link(g, ino, p, name);
    LinkedExact(r, db, nodes, g.nextIno, ino, p, name);
    if r.Done? { LinkKept(db, nodes, g.history, ino, p, name); }
  }

  method UnlinkStep(g: Context, p: nat, name: string)
    requires Healthy(g)
    modifies g
    ensures Healthy(g) && old(g.trail) <= g.trail
    ensures AllKept(old(g.db), old(g.inodes), old(g.history), g.db, g.inodes, g.history)
    ensures NamesOf(g.db, g.inodes, g.nextIno) == FileRemoved(NamesOf(old(g.db), old(g.inodes), old(g.nextIno)), Entry(p, name))
  {
    hide Healthy, FsOk, Recoverable, Registered, TreeOk, AllStored, EntriesOf, UnlinkStatus, AllKept, NamesOf, FileRemoved;
    hide Dropped, Unlinked;
    HealthyParts(g);
    NothingChanged(g.db, g.inodes, g.history);
    LookupExact(g.db, g.inodes, g.nextIno, p, name);
    hide Lookup;
    ghost var db, nodes, history, c := g.db, g.inodes, g.history, Lookup(g.db, p, name);
    var r := Unlink(g, p, name);
    UnlinkedExact(r, db, nodes, g.nextIno, p, name, g.db, g.inodes);
    if r.Done? { UnlinkKept(db, nodes, history, p, name, c); }
  }

  method RmdirStep(g: Context, p: nat, name: string)
    requires Healthy(g)
    modifies g
    ensures Healthy(g) && old(g.trail) <= g.trail
    ensures AllKept(old(g.db), old(g.inodes), old(g.history), g.db, g.inodes, g.history)
    ensures NamesOf(g.db, g.inodes, g.nextIno)
      == DirectoryRemoved(NamesOf(old(g.db), old(g.inodes), old(g.nextIno)), Entry(p, name))
  {
    hide Healthy, FsOk, Recoverable, Registered, TreeOk, AllStored, EntriesOf, RmdirStatus, AllKept, NamesOf, DirectoryRemoved;
    hide Dropped, DirRemoved, FullDir, EmptyDir;
    HealthyParts(g);
    NothingChanged(g.db, g.inodes, g.history);
    LookupExact(g.db, g.inodes, g.nextIno, p, name);
    hide Lookup;
    ghost var db, nodes, history, c := g.db, g.inodes, g.history, Lookup(g.db, p, name);
    var r := Rmdir(g, p, name);
    DirRemovedExact(r, db, nodes, g.nextIno, p, name, g.db, g.inodes);
    if r.Done? { RmdirKept(db, nodes, history, p, name, c); }
  }

  method AttrStep(g: Context, rq: Request)
    requires Healthy(g) && rq.SetAttribute?
    modifies g
    ensures Healthy(g) && old(g.trail) <= g.trail
    ensures AllFollow(rq, old(g.db), old(g.inodes), old(g.history), g.db, g.inodes, g.history)
    ensures NamesOf(g.db, g.inodes, g.nextIno) == NamesOf(old(g.db), old(g.inodes), old(g.nextIno))
  {
    hide Healthy, FsOk, Recoverable, Registered, TreeOk, AllStored, EntriesOf, XattrStatus, AllKept, AllFollow;
    HealthyParts(g);
    NothingChanged(g.db, g.inodes, g.history);
    ghost var db, nodes, history := g.db, g.inodes, g.history;
    var r := Done;
    if rq.ino in g.inodes {
      r := SetXattr(g, rq.ino, rq.name, rq.value, rq.create, rq.replace);
      SameEntries(db, g.db);
      if r.Done? {
        XattrFollows(rq, db, nodes, history);
        return;
      }
      XattrRefused(rq, db);
    }
    AllKeptFollows(rq, db, nodes, history, g.db, g.inodes, g.history);
  }

  lemma LinkOk(db: Db, nodes: Nodes, ino: nat, p: nat, name: string)
    ensures LinkStatus(db, nodes, ino, p, name).Done? ==> ino in nodes
  {
  }

  method MoveStep(g: Context, p: nat, name: string, np: nat, newname: string)
    requires Healthy(g)
    modifies g
    ensures Healthy(g) && old(g.trail) <= g.trail
    ensures AllKept(old(g.db), old(g.inodes), old(g.history), g.db, g.inodes, g.history)
    ensures NamesOf(g.db, g.inodes, g.nextIno)
      == MovedTo(NamesOf(old(g.db), old(g.inodes), old(g.nextIno)), Entry(p, name), Entry(np, newname))
  {
    hide Healthy, FsOk, Recoverable, Registered, TreeOk, AllStored, EntriesOf, NamesOf, Movable;
    hide Under, Fits, AllKept, RenamedDb, RenamedNodes, RenameStatus, RenameAnswer, KindsOf;
    HealthyParts(g);
    NothingChanged(g.db, g.inodes, g.history);
    MovableExact(g.db, g.inodes, g.nextIno, p, name, np, newname);
    var src, dst := Lookup(g.db, p, name), Lookup(g.db, np, newname);
    if src == 0 || src == dst || np !in g.inodes || !g.inodes[np].kind.Dir? || !ReplacesLastName(g.inodes, dst) {
      return;
    }
    var below := false;
    if src in g.inodes && g.inodes[src].kind.Dir? {
      below := Below(g, src, np);
    }
    if !below {
      RenameKept(g.db, g.inodes, g.history, p, name, np, newname);
      ghost var db, nodes := g.db, g.inodes;
      if Movable(NamesOf(db, nodes, g.nextIno), Entry(p, name), Entry(np, newname)) {
        MovedExact(db, nodes, g.nextIno, p, name, np, newname);
      }
      hide MovedTo;
      var r := Rename(g, p, name, np, newname);
    }
  }

  method DataStep(g: Context, ino: nat, op: FileOp)
    requires Healthy(g)
    modifies g
    ensures Healthy(g) && old(g.trail) <= g.trail && g.history == old(g.history)
    ensures AllFollow(Data(ino, op), old(g.db), old(g.inodes), old(g.history), g.db, g.inodes, g.history)
    ensures NamesOf(g.db, g.inodes, g.nextIno) == NamesOf(old(g.db), old(g.inodes), old(g.nextIno))
  {
    hide FsOk, Recoverable, Registered, TreeOk, AllStored, EntriesOf, Content, Apply, AllFollow, AllKept, NamesOf;
    HealthyParts(g);
    if ino in g.inodes && g.inodes[ino].kind.Regular? {
      RegularFileOk(g.db, g.inodes, g.nextIno, g.history, ino);
      StepFileOp(g, ino, op);
      FileChangeHealthy(old(g.db), old(g.inodes), g.db, g.inodes, g.nextIno, g.history, ino);
      DataNames(old(g.db), old(g.inodes), g.db, g.inodes, g.nextIno, ino);
      DataFollows(old(g.db), old(g.inodes), g.db, g.inodes, g.history, ino, op);
    } else {
      NothingChanged(g.db, g.inodes, g.history);
      AllKeptFollows(Data(ino, op), g.db, g.inodes, g.history, g.db, g.inodes, g.history);
    }
  }

  lemma DataNames(db: Db, nodes: Nodes, db': Db, nodes': Nodes, nextIno: nat, ino: nat)
    requires OnlySlot(db, db', Live(ino)) && OnlySize(nodes, nodes', ino)
    ensures NamesOf(db', nodes', nextIno) == NamesOf(db, nodes, nextIno)
  {
    SameEntries(db, db');
    assert KindsOf(nodes') == KindsOf(nodes);
  }

  lemma DataFollows(db: Db, nodes: Nodes, db': Db, nodes': Nodes, history: History, ino: nat, op: FileOp)
    requires OnlySlot(db, db', Live(ino)) && OnlySize(nodes, nodes', ino)
    requires history.Keys == nodes.Keys && ino in nodes && nodes[ino].kind.Regular?
    requires Content(db', nodes', ino) == Apply(Content(db, nodes, ino), op)
    ensures AllFollow(Data(ino, op), db, nodes, history, db', nodes', history)
  {
    hide Content, Apply, AttrsOf, BlocksIn, LinkTarget;
    SameXattrs(db, db', ino);
    forall i | i in nodes' && i in history ensures Follows(Data(ino, op), db, nodes, history, db', nodes', history, i) {
      if i != ino {
        KeptFollows(Data(ino, op), db, nodes, history, db', nodes', history, i);
      }
    }
  }

  method CloseStep(g: Context, ino: nat)
    requires Healthy(g)
    modifies g
    ensures Healthy(g) && old(g.trail) <= g.trail && g.inodes == old(g.inodes)
    ensures AllFollow(CloseWritten(ino), old(g.db), old(g.inodes), old(g.history), g.db, g.inodes, g.history)
    ensures NamesOf(g.db, g.inodes, g.nextIno) == NamesOf(old(g.db), old(g.inodes), old(g.nextIno))
  {
    hide FsOk, Recoverable, Registered, TreeOk, AllStored, EntriesOf, Content, AllFollow, AllKept, NamesOf;
    HealthyParts(g);
    if ino in g.inodes && g.inodes[ino].kind.Regular? {
      RegularFileOk(g.db, g.inodes, g.nextIno, g.history, ino);
      var r := Snapshot(g, ino);
      SnapshotHealthy(old(g.db), g.inodes, g.db, g.nextIno, old(g.history), g.history, ino);
      CloseNames(old(g.db), g.inodes, g.db, g.nextIno, ino);
      CloseFollows(old(g.db), g.inodes, g.db, old(g.history), g.history, ino);
    } else {
      NothingChanged(g.db, g.inodes, g.history);
      AllKeptFollows(CloseWritten(ino), g.db, g.inodes, g.history, g.db, g.inodes, g.history);
    }
  }

  lemma CloseNames(db: Db, nodes: Nodes, db': Db, nextIno: nat, ino: nat)
    requires OnlyVersions(db, db', ino)
    ensures NamesOf(db', nodes, nextIno) == NamesOf(db, nodes, nextIno)
  {
    SameEntries(db, db');
  }

  lemma CloseFollows(db: Db, nodes: Nodes, db': Db, history: History, history': History, ino: nat)
    requires OnlyVersions(db, db', ino) && history.Keys == nodes.Keys && ino in nodes && nodes[ino].kind.Regular?
    requires Content(db', nodes, ino) == Content(db, nodes, ino)
    requires var c := Content(db, nodes, ino);
      history' == history[ino := if c == [] then history[ino] else history[ino] + [c]]
    ensures AllFollow(CloseWritten(ino), db, nodes, history, db', nodes, history')
  {
    hide Content, AttrsOf, BlocksIn, LinkTarget;
    SameAttrs(db, db', ino);
    forall i | i in nodes && i in history' ensures Follows(CloseWritten(ino), db, nodes, history, db', nodes, history', i) {
      if i != ino {
        KeptFollows(CloseWritten(ino), db, nodes, history, db', nodes, history', i);
      }
    }
  }

  // ---- runs ----

  lemma MountHealthy(g: Context)
    requires g.Safe() && g.nextIno == ROOT_INO + 1 && g.history == map[ROOT_INO := []]
    requires g.inodes == map[ROOT_INO := Inode(Dir, 2, 0, 0)]
    requires g.db == map[SuperKey := SuperValue(g.nextIno), InodeKey(ROOT_INO) := InodeValue(Inode(Dir, 2, 0, 0))]
    ensures Healthy(g)
  {
    hide TreeOk, EntriesOf, Stored, FsOk, Recoverable;
    MountEntries(g.db);
    MountTree(g.inodes);
    StoredEmpty(g.db, g.inodes, g.history, ROOT_INO);
    FsIntro(g.db, g.inodes, g.nextIno, g.history, map[]);
  }

  lemma MountEntries(db: Db)
    requires forall k :: k in db ==> !k.Dirent?
    ensures EntriesOf(db) == map[]
  {
  }

  lemma MountTree(nodes: Nodes)
    requires nodes == map[ROOT_INO := Inode(Dir, 2, 0, 0)]
    ensures TreeOk(map[], nodes)
  {
    assert Links(map[], ROOT_INO) == {} && Subdirs(map[], nodes, ROOT_INO) == {};
    assert Ranked(map[], nodes, map[ROOT_INO := 0]);
  }

  /** After the requests, inode i was made by request number born[i], and everything about its
      data follows from the requests since: a file is what those that name it made of an empty
      one, a symlink still has its first target, and the attributes are those set since. */
  ghost predicate Told(requests: seq<Request>, born: map<nat, nat>, db: Db, nodes: Nodes, history: History, i: nat)
    requires i in nodes && i in history
  {
    if i == ROOT_INO then AttrsOf(db, i) == AttrsLived(requests, i)
    else
      && i in born && born[i] < |requests|
      && var since := requests[born[i] + 1..];
         && AttrsOf(db, i) == AttrsLived(since, i)
         && match nodes[i].kind
            case Regular => requests[born[i]].CreateFile? && StateOf(db, nodes, history, i) == Lived(since, i)
            case Symlink => requests[born[i]].MakeSymlink? && LinkTarget(db, i) == requests[born[i]].target
            case Dir => requests[born[i]].MakeDir?
  }

  /** What a run of requests makes of no attributes. */
  function AttrsLived(requests: seq<Request>, i: nat): map<string, seq<byte>> {
    if requests == [] then map[]
    else AttrsAfter(AttrsLived(requests[..|requests| - 1], i), requests[|requests| - 1], i)
  }

  lemma ToldNext(requests: seq<Request>, rq: Request, born: map<nat, nat>, born': map<nat, nat>,
    db: Db, nodes: Nodes, history: History, db': Db, nodes': Nodes, history': History, i: nat)
    requires i in nodes' && i in history' && Follows(rq, db, nodes, history, db', nodes', history', i)
    requires history.Keys == nodes.Keys
    requires i in nodes ==> Told(requests, born, db, nodes, history, i)
    requires i in nodes && i in born ==> i in born' && born'[i] == born[i]
    requires ROOT_INO in nodes
    requires i !in nodes ==> i in born' && born'[i] == |requests|
    ensures Told(requests + [rq], born', db', nodes', history', i)
  {
    hide Content, LinkTarget, AttrsOf, AttrsAfter;
    if i == ROOT_INO {
      LivedStep(requests, rq, i);
    } else if i in nodes {
      var b := born[i];
      assert (requests + [rq])[b + 1..] == requests[b + 1..] + [rq];
      LivedStep(requests[b + 1..], rq, i);
    } else {
      assert (requests + [rq])[|requests| + 1..] == [];
    }
  }

  lemma LivedStep(requests: seq<Request>, rq: Request, i: nat)
    ensures Lived(requests + [rq], i) == After(Lived(requests, i), rq, i)
    ensures AttrsLived(requests + [rq], i) == AttrsAfter(AttrsLived(requests, i), rq, i)
  {
    hide AttrsAfter;
    assert (requests + [rq])[..|requests|] == requests;
  }

  /** Every state reachable from the first mount by any sequence of requests is sound: the
      tree and the link counts, the blocks, the version windows; every state the store was in
      on the way, after each single write, was recoverable; the names and inodes are those the
      same requests make of a bare tree of names; and each file holds exactly what the requests
      on it since its creation wrote, whatever was done to other inodes and names.
      A rename over a file that has another name is skipped by Step. */
  method Session(requests: seq<Request>) returns (g: Context, ghost born: map<nat, nat>)
    ensures fresh(g) && Healthy(g)
    ensures forall s :: s in g.trail ==> Recoverable(s)
    ensures NamesOf(g.db, g.inodes, g.nextIno) == NamesAfterAll(FIRST_NAMES, requests)
    ensures forall i :: i in g.inodes && i in g.history ==> Told(requests, born, g.db, g.inodes, g.history, i)
  {
    hide NamesOf, NamesAfter;
    hide Healthy, FsOk, Recoverable, Registered, TreeOk, AllStored, EntriesOf, Joined, Told, Follows;
    g := new Context.Mount();
    MountHealthy(g);
    born := map[];
    ToldRoot(born, g.db, g.inodes, g.history);
    FirstNames(g.db, g.inodes, g.nextIno);
    for k := 0 to |requests|
      invariant fresh(g) && Healthy(g)
      invariant NamesOf(g.db, g.inodes, g.nextIno) == NamesAfterAll(FIRST_NAMES, requests[..k])
      invariant forall i :: i in g.inodes && i in g.history ==> Told(requests[..k], born, g.db, g.inodes, g.history, i)
    {
      ghost var db, nodes, history, before := g.db, g.inodes, g.history, born;
      HealthyParts(g);
      Step(g, requests[k]);
      born := map i | i in before.Keys + g.inodes.Keys :: if i in before && i in nodes then before[i] else k;
      assert requests[..k + 1] == requests[..k] + [requests[k]];
      NamesStep(requests[..k], requests[k]);
      RootLives(db, nodes);
      forall i | i in g.inodes && i in g.history
        ensures Told(requests[..k + 1], born, g.db, g.inodes, g.history, i)
      {
        ToldNext(requests[..k], requests[k], before, born, db, nodes, history, g.db, g.inodes, g.history, i);
      }
    }
    assert requests[..|requests|] == requests;
    TrailSafe(g);
  }

  lemma ToldRoot(born: map<nat, nat>, db: Db, nodes: Nodes, history: History)
    requires nodes.Keys == {ROOT_INO} && forall n :: Xattr(ROOT_INO, n) !in db
    ensures forall i :: i in nodes && i in history ==> Told([], born, db, nodes, history, i)
  {
    assert AttrsOf(db, ROOT_INO) == map[];
  }

  lemma FirstNames(db: Db, nodes: Nodes, nextIno: nat)
    requires nodes == map[ROOT_INO := Inode(Dir, 2, 0, 0)] && nextIno == ROOT_INO + 1 && forall k :: k in db ==> !k.Dirent?
    ensures NamesOf(db, nodes, nextIno) == FIRST_NAMES
  {
    MountEntries(db);
    FirstKinds(nodes);
    hide EntriesOf, KindsOf;
  }

  lemma FirstKinds(nodes: Nodes)
    requires nodes == map[ROOT_INO := Inode(Dir, 2, 0, 0)]
    ensures KindsOf(nodes) == map[ROOT_INO := Dir]
  {
    var k := KindsOf(nodes);
    assert k.Keys == {ROOT_INO} && k[ROOT_INO] == Dir;
  }

  lemma NamesStep(requests: seq<Request>, rq: Request)
    ensures NamesAfterAll(FIRST_NAMES, requests + [rq]) == NamesAfter(NamesAfterAll(FIRST_NAMES, requests), rq)
  {
    hide NamesAfter;
    assert (requests + [rq])[..|requests|] == requests;
  }

  lemma RootLives(db: Db, nodes: Nodes)
    requires Joined(EntriesOf(db), nodes)
    ensures ROOT_INO in nodes
  {
    hide EntriesOf;
  }

  lemma TrailSafe(g: Context)
    requires Healthy(g)
    ensures forall s :: s in g.trail ==> Recoverable(s)
  {
    hide FsOk, Recoverable;
  }

  // ---- mounting again ----

  /** Numbers that a store does not mention. */
  ghost predicate Unknown(db: Db, n: nat) { InodeKey(n) !in db && Unused(db, n) }

  /** Mounting whatever a crash left, at any write of any operation: the counter is above every
      number in the store, so no number is used twice, and the root is there unless the crash was
      right after the first write of the very first mount. */
  method MountAfterCrash(g: Context, s: Db) returns (h: Context)
    requires Healthy(g) && s in g.trail
    ensures fresh(h) && h.Safe() && h.db == s && h.inodes == RecordsOf(s)
    ensures forall n: nat :: n >= h.nextIno ==> Unknown(s, n)
    ensures ROOT_INO in h.inodes <==> !FirstWrite(s)
  {
    hide FsOk;
    assert Recoverable(s) by { TrailSafe(g); }
    h := new Context.Load(s, map[]);
    forall n: nat | n >= h.nextIno ensures Unknown(s, n) {
      NumbersBelow(s, n);
    }
    RootRecord(s);
  }

  lemma NumbersBelow(db: Db, n: nat)
    requires Recoverable(db) && n >= db[SuperKey].nextIno
    ensures Unknown(db, n)
  {
    hide Fits;
    assert InodeKey(n) !in db;
    forall k | k in db && Owned(k) ensures k.ino != n {
      assert InodeKey(k.ino) in db;
    }
    forall k | k in db && k.Dirent? ensures k.parent != n && ChildOf(db[k]) != n {
      assert InodeKey(k.parent) in db && InodeKey(db[k].child) in db;
    }
  }

  lemma RootRecord(db: Db)
    requires Recoverable(db)
    ensures ROOT_INO in RecordsOf(db) <==> !FirstWrite(db)
  {
    hide Fits;
  }

  /** The first mount cut off after its first write: the next one finds a superblock and does
      not make the root. */
  method FirstMountInterrupted() returns (h: Context)
    ensures fresh(h) && ROOT_INO !in h.inodes && SuperKey in h.db
  {
    hide Healthy, FsOk, Recoverable;
    var g := new Context.Mount();
    MountHealthy(g);
    var cut: Db := map[SuperKey := SuperValue(ROOT_INO + 1)];
    assert g.trail[0] == cut;
    h := MountAfterCrash(g, cut);
  }

  /** Attributes changed since creation are only in memory: the write-back does nothing, as no
      entry is dirty (see InodeCache.CleanStays).  After an orderly unmount the next mount has the
      same inodes, names and counter; it has the same attributes exactly when none has changed
      since creation, and a file keeps its content exactly when it was empty. */
  method Remount(g: Context) returns (h: Context)
    requires Healthy(g)
    ensures fresh(h) && h.Safe() && h.db == g.db && h.nextIno == g.nextIno && h.inodes.Keys == g.inodes.Keys
    ensures h.inodes == g.inodes <==> forall i :: i in g.inodes ==> g.inodes[i] == Born(i, g.inodes[i].kind)
    ensures forall i :: i in g.inodes && g.inodes[i].kind.Regular? ==>
      (Content(h.db, h.inodes, i) == Content(g.db, g.inodes, i) <==> Content(g.db, g.inodes, i) == [])
  {
    hide FsOk, Content;
    HealthyParts(g);
    h := new Context.Load(g.db, g.history);
    RecordsAsBorn(g.db, g.inodes, g.nextIno);
    forall i | i in g.inodes && g.inodes[i].kind.Regular?
      ensures Content(h.db, h.inodes, i) == []
    {
      EmptyContent(h.db, h.inodes, i);
    }
  }

  lemma RecordsAsBorn(db: Db, nodes: Nodes, nextIno: nat)
    requires Registered(db, nodes, nextIno)
    ensures RecordsOf(db).Keys == nodes.Keys
    ensures forall i :: i in nodes ==> RecordsOf(db)[i] == Born(i, nodes[i].kind)
  {
  }

  lemma EmptyContent(db: Db, nodes: Nodes, i: nat)
    requires i in nodes && nodes[i].size == 0
    ensures Content(db, nodes, i) == []
  {
  }

  lemma ShortNameFits(name: string)
    requires |name| < 10
    ensures Fits(Dirent(ROOT_INO, name), KEY_MAX)
  {
    assert |Dec(ROOT_INO)| == 1;
  }

  /** A concrete case of the rename that breaks the file system: "b" and "c" are two names of
      one file; renaming "a" over "b" is a legal request and leaves "c" dangling. */
  method LinkedTargetLost() returns (g: Context, ghost before: Db, ghost nodes: Nodes, ghost history: History)
    ensures fresh(g) && FsOk(before, nodes, g.nextIno, history)
    ensures RenameAllowed(before, nodes, ROOT_INO, "a", ROOT_INO, "b")
    ensures Lookup(before, ROOT_INO, "a") == 2 && Lookup(before, ROOT_INO, "b") == Lookup(before, ROOT_INO, "c") == 3
    ensures g.db == MovedDb(Dropped(before, ROOT_INO, "b", 3), ROOT_INO, "a", ROOT_INO, "b", 2)
    ensures Lookup(g.db, ROOT_INO, "b") == 2 && Lookup(g.db, ROOT_INO, "c") == 3 && 3 !in g.inodes
    ensures !FsOk(g.db, g.inodes, g.nextIno, g.history)
  {
    hide Healthy, FsOk, Recoverable, Registered, TreeOk, AllStored, EntriesOf, Fits, Under;
    g := TwoFiles();
    ShortNameFits("b");
    ShortNameFits("c");
    var r := Link(g, 3, ROOT_INO, "c");
    HealthyParts(g);
    before, nodes, history := g.db, g.inodes, g.history;
    LostName(before, 2, 3);
    hide Lookup, Dropped, MovedDb;
    RenameLinked(g, ROOT_INO, "a", ROOT_INO, "b");
  }

  lemma LostName(db: Db, src: nat, dst: nat)
    requires Lookup(db, ROOT_INO, "c") == dst && Fits(Dirent(ROOT_INO, "b"), KEY_MAX)
    ensures var db' := MovedDb(Dropped(db, ROOT_INO, "b", dst), ROOT_INO, "a", ROOT_INO, "b", src);
      Lookup(db', ROOT_INO, "b") == src && Lookup(db', ROOT_INO, "c") == dst
  {
    hide Fits;
  }

  method TwoFiles() returns (g: Context)
    ensures fresh(g) && Healthy(g) && IsDir(g.inodes, ROOT_INO)
    ensures 2 in g.inodes && g.inodes[2] == Inode(Regular, 1, 0, 0)
    ensures 3 in g.inodes && g.inodes[3] == Inode(Regular, 1, 0, 0)
    ensures Lookup(g.db, ROOT_INO, "a") == 2 && Lookup(g.db, ROOT_INO, "b") == 3 && Lookup(g.db, ROOT_INO, "c") == 0
  {
    hide Healthy, FsOk, Recoverable, Registered, TreeOk, AllStored, EntriesOf, Fits, Under;
    g := new Context.Mount();
    MountHealthy(g);
    ShortNameFits("a");
    ShortNameFits("b");
    var r := Create(g, ROOT_INO, "a");
    assert Lookup(g.db, ROOT_INO, "a") == 2 && Lookup(g.db, ROOT_INO, "b") == 0 && Lookup(g.db, ROOT_INO, "c") == 0;
    r := Create(g, ROOT_INO, "b");
  }
}
