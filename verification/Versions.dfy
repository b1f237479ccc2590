/** Version snapshots (src/version.c) and the read side of a version file
    (src/fuse_ops.c:1505-1533).

    A snapshot copies the live blocks to versioned keys; a stored counter numbers the
    snapshots and a window of MAX_VERSIONS of them is kept. */
module Versions {
  import opened Keys
  import opened Sparse
  import opened Store
  import opened BlockLayer

  const MAX_VERSIONS: nat := 64

  /** The oldest version kept once n snapshots have been taken. */
  function Oldest(n: nat): nat { if n > MAX_VERSIONS then n - MAX_VERSIONS else 0 }

  /** version_get_current */
  function Current(db: Db, ino: nat): nat {
    if VerCounter(ino) in db && db[VerCounter(ino)].Counter? then db[VerCounter(ino)].count else 0
  }

  /** The stored version v of ino denotes the content c. */
  ghost predicate Holds(db: Db, ino: nat, v: nat, c: seq<byte>) {
    && VerMeta(ino, v) in db && db[VerMeta(ino, v)].MetaValue?
    && db[VerMeta(ino, v)].size == |c|
    && Ok(BlocksIn(db, Version(ino, v)), |c|, db[VerMeta(ino, v)].blocks)
    && Denote(BlocksIn(db, Version(ino, v)), |c|) == c
  }

  /** The versions of ino are exactly lo..|h|-1 and version v holds h[v]. */
  ghost predicate Window(db: Db, ino: nat, h: seq<seq<byte>>, lo: nat) {
    && (VerCounter(ino) in db <==> |h| > 0)
    && Current(db, ino) == |h|
    && (forall v: nat :: VerMeta(ino, v) in db <==> lo <= v < |h|)
    && (forall v: nat, b: nat :: VerBlock(ino, v, b) in db ==> lo <= v < |h|)
    && (forall v: nat :: lo <= v < |h| ==> Holds(db, ino, v, h[v]))
  }

  /** After snapshots of the contents h: versions max(0, c - 64) to c - 1 and no others. */
  ghost predicate VersionsOk(db: Db, ino: nat, h: seq<seq<byte>>) { Window(db, ino, h, Oldest(|h|)) }

  predicate VersionKey(k: Key, ino: nat) { (k.VerCounter? || k.VerMeta? || k.VerBlock?) && k.ino == ino }

  ghost predicate OnlyVersions(db: Db, db': Db, ino: nat) {
    forall k :: !VersionKey(k, ino) ==> (k in db <==> k in db') && (k in db ==> db[k] == db'[k])
  }

  ghost predicate SameVersions(db: Db, db': Db, ino: nat) {
    forall k :: VersionKey(k, ino) ==> (k in db <==> k in db') && (k in db ==> db[k] == db'[k])
  }

  /** Whatever is done to other keys, the live blocks of the same file included, every
      stored version keeps its meaning. */
  lemma VersionsFrame(db: Db, db': Db, ino: nat, h: seq<seq<byte>>, lo: nat)
    requires Window(db, ino, h, lo) && SameVersions(db, db', ino)
    ensures Window(db', ino, h, lo)
  {
    forall v | lo <= v < |h| ensures Holds(db', ino, v, h[v]) {
      assert Holds(db, ino, v, h[v]);
      SlotFrame(db, db', Version(ino, v));
    }
  }

  // ---- deleting ----

  /** The store without the keys a query selects. */
  function Unselected(db: Db, q: Query): Db { map k | k in db && !Selects(q, k) :: db[k] }

  lemma SelectsData(q: Query)
    ensures forall k :: Selects(q, k) ==> !k.SuperKey? && !k.InodeKey?
  {
  }

  /** The iterate-and-delete loop of xattr_delete_all and version_delete_one.  The iterator
      is a snapshot; the order it yields keys in does not matter. */
  method DeletePrefix(g: Context, q: Query)
    requires g.Safe() && (q.XattrsOf? || q.VerBlocksOf? || q.VectorsOf? || q.TextsOf? || q.HeadersOf?)
    modifies g`db, g`trail
    ensures g.Safe() && old(g.trail) <= g.trail
    ensures g.db == Unselected(old(g.db), q)
  {
    hide Recoverable;
    var todo := set k | k in g.db && Selects(q, k);
    SelectsData(q);
    hide Selects;
    while todo != {}
      invariant g.Safe() && old(g.trail) <= g.trail
      invariant forall k :: k in todo ==> Selects(q, k)
      invariant forall k :: k in g.db <==> k in old(g.db) && (Selects(q, k) ==> k in todo)
      invariant forall k :: k in g.db ==> g.db[k] == old(g.db)[k]
      decreases |todo|
    {
      var k :| k in todo;
      DeleteData(g.db, k);
      g.Delete(k);
      todo := todo - {k};
    }
  }

  /** What version_delete_one leaves. */
  function WithoutVersion(db: Db, ino: nat, ver: nat): Db {
    Unselected(db - {VerMeta(ino, ver)}, VerBlocksOf(ino, ver))
  }

  method VersionDeleteOne(g: Context, ino: nat, ver: nat)
    requires g.Safe()
    modifies g`db, g`trail
    ensures g.Safe() && old(g.trail) <= g.trail
    ensures g.db == WithoutVersion(old(g.db), ino, ver)
    ensures OnlyVersions(old(g.db), g.db, ino)
  {
    DeleteData(g.db, VerMeta(ino, ver));
    g.Delete(VerMeta(ino, ver));
    DeletePrefix(g, VerBlocksOf(ino, ver));
  }

  /** Pruning the oldest version narrows the window by one. */
  lemma PruneNarrows(db: Db, ino: nat, h: seq<seq<byte>>, lo: nat)
    requires Window(db, ino, h, lo) && lo < |h|
    ensures Window(WithoutVersion(db, ino, lo), ino, h, lo + 1)
  {
    var db' := WithoutVersion(db, ino, lo);
    forall v | lo + 1 <= v < |h| ensures Holds(db', ino, v, h[v]) {
      assert Holds(db, ino, v, h[v]);
      SlotFrame(db, db', Version(ino, v));
    }
  }

  // ---- taking a snapshot ----

  /** s' is the part of s below block i. */
  ghost predicate Copied(s': Blocks, s: Blocks, i: nat) {
    && (forall b :: b in s' <==> b in s && b < i)
    && (forall b :: b in s' ==> s'[b] == s[b])
  }

  method CopyBlocks(g: Context, ino: nat, ver: nat, blocks: nat)
    requires g.Safe() && InodeKey(ino) in g.db
    requires BlocksIn(g.db, Version(ino, ver)) == map[]
    requires forall b :: b in BlocksIn(g.db, Live(ino)) ==> b < blocks
    modifies g`db, g`trail
    ensures g.Safe() && old(g.trail) <= g.trail
    ensures OnlySlot(old(g.db), g.db, Version(ino, ver))
    ensures BlocksIn(g.db, Version(ino, ver)) == BlocksIn(old(g.db), Live(ino))
    ensures OnlyVersions(old(g.db), g.db, ino)
  {
    ghost var s := BlocksIn(g.db, Live(ino));
    for i := 0 to blocks
      invariant g.Safe() && old(g.trail) <= g.trail && InodeKey(ino) in g.db
      invariant OnlySlot(old(g.db), g.db, Version(ino, ver))
      invariant Copied(BlocksIn(g.db, Version(ino, ver)), s, i)
    {
      CopyBlock(g, ino, ver, i, s);
    }
  }

  method CopyBlock(g: Context, ino: nat, ver: nat, i: nat, ghost s: Blocks)
    requires g.Safe() && InodeKey(ino) in g.db
    requires Copied(BlocksIn(g.db, Version(ino, ver)), s, i)
    requires i in s <==> Block(ino, i) in g.db
    requires i in s ==> s[i] == BytesOf(g.db[Block(ino, i)])
    modifies g`db, g`trail
    ensures g.Safe() && old(g.trail) <= g.trail
    ensures OnlySlot(old(g.db), g.db, Version(ino, ver))
    ensures Copied(BlocksIn(g.db, Version(ino, ver)), s, i + 1)
  {
    if Block(ino, i) in g.db {
      var data := BytesOf(g.db[Block(ino, i)]);
      SlotPut(g.db, Version(ino, ver), i, data);
      PutOwned(g.db, VerBlock(ino, ver, i), Bytes(data));
      g.Put(VerBlock(ino, ver, i), Bytes(data));
    }
  }

  /** The store after the metadata and the advanced counter have been written. */
  function Recorded(db: Db, ino: nat, ver: nat, size: nat, blocks: nat): Db {
    db[VerMeta(ino, ver) := MetaValue(size, blocks)][VerCounter(ino) := Counter(ver + 1)]
  }

  lemma OldVersionHeld(db0: Db, db1: Db, ino: nat, n: nat, size: nat, blocks: nat, v: nat, c: seq<byte>)
    requires Holds(db0, ino, v, c) && v < n
    requires OnlySlot(db0, db1, Version(ino, n))
    ensures Holds(Recorded(db1, ino, n, size, blocks), ino, v, c)
  {
    OtherSlot(db0, db1, Version(ino, n), Version(ino, v));
    SlotFrame(db1, Recorded(db1, ino, n, size, blocks), Version(ino, v));
  }

  lemma NewVersionHeld(db1: Db, ino: nat, n: nat, c: seq<byte>, blocks: nat)
    requires Ok(BlocksIn(db1, Version(ino, n)), |c|, blocks)
    requires Denote(BlocksIn(db1, Version(ino, n)), |c|) == c
    ensures Holds(Recorded(db1, ino, n, |c|, blocks), ino, n, c)
  {
    SlotFrame(db1, Recorded(db1, ino, n, |c|, blocks), Version(ino, n));
  }

  /** After copying, storing the metadata and advancing the counter, one more version is
      held; the window has not been pruned yet. */
  lemma SnapshotExtends(db0: Db, db1: Db, ino: nat, h: seq<seq<byte>>, lo: nat, c: seq<byte>, blocks: nat)
    requires Window(db0, ino, h, lo) && lo <= |h|
    requires OnlySlot(db0, db1, Version(ino, |h|))
    requires Ok(BlocksIn(db1, Version(ino, |h|)), |c|, blocks)
    requires Denote(BlocksIn(db1, Version(ino, |h|)), |c|) == c
    ensures Window(Recorded(db1, ino, |h|, |c|, blocks), ino, h + [c], lo)
  {
    var n := |h|;
    forall v: nat | lo <= v < n + 1 ensures Holds(Recorded(db1, ino, n, |c|, blocks), ino, v, (h + [c])[v]) {
      if v < n {
        assert Holds(db0, ino, v, h[v]);
        OldVersionHeld(db0, db1, ino, n, |c|, blocks, v, h[v]);
      } else {
        NewVersionHeld(db1, ino, n, c, blocks);
      }
    }
    RecordedKeys(db0, db1, ino, n, |c|, blocks, lo);
  }

  lemma RecordedKeys(db0: Db, db1: Db, ino: nat, n: nat, size: nat, blocks: nat, lo: nat)
    requires lo <= n && OnlySlot(db0, db1, Version(ino, n))
    requires forall v: nat :: VerMeta(ino, v) in db0 <==> lo <= v < n
    requires forall v: nat, b: nat :: VerBlock(ino, v, b) in db0 ==> lo <= v < n
    ensures var db2 := Recorded(db1, ino, n, size, blocks);
      && (forall v: nat :: VerMeta(ino, v) in db2 <==> lo <= v < n + 1)
      && (forall v: nat, b: nat :: VerBlock(ino, v, b) in db2 ==> lo <= v < n + 1)
  {
    forall v: nat ensures !InSlot(Version(ino, n), VerMeta(ino, v)) {}
    forall v: nat, b: nat | v != n ensures !InSlot(Version(ino, n), VerBlock(ino, v, b)) {}
  }

  /** version_snapshot, run when a written file is released: stores the content as the next
      version and prunes the window; an empty file takes no snapshot. */
  method Snapshot(g: Context, ino: nat) returns (r: Status)
    requires g.Safe() && (ino in g.inodes ==> FileOk(g.db, g.inodes, ino))
    requires ino in g.inodes ==> ino in g.history && VersionsOk(g.db, ino, g.history[ino])
    modifies g`db, g`trail, g`history
    ensures g.Safe() && old(g.trail) <= g.trail && OnlyVersions(old(g.db), g.db, ino)
    ensures r == if ino in g.inodes then Done else ENOENT
    ensures r.Done? ==>
      var c := Content(old(g.db), g.inodes, ino);
      && g.history == old(g.history)[ino := if c == [] then old(g.history)[ino] else old(g.history)[ino] + [c]]
      && VersionsOk(g.db, ino, g.history[ino])
      && Content(g.db, g.inodes, ino) == c
    ensures !r.Done? ==> g.db == old(g.db) && g.history == old(g.history)
  {
    if ino !in g.inodes {
      return ENOENT;
    }
    var fileSize, fileBlocks := g.inodes[ino].size, g.inodes[ino].blocks;
    if fileSize == 0 {
      return Done;
    }
    ghost var c, h := Content(g.db, g.inodes, ino), g.history[ino];
    TakeSnapshot(g, ino, fileSize, fileBlocks, h, c);
    g.history := g.history[ino := h + [c]];
    SlotFrame(old(g.db), g.db, Live(ino));
    return Done;
  }

  method TakeSnapshot(g: Context, ino: nat, size: nat, blocks: nat, ghost h: seq<seq<byte>>, ghost c: seq<byte>)
    requires g.Safe() && InodeKey(ino) in g.db && VersionsOk(g.db, ino, h)
    requires Ok(BlocksIn(g.db, Live(ino)), size, blocks) && c == Denote(BlocksIn(g.db, Live(ino)), size)
    modifies g`db, g`trail
    ensures g.Safe() && old(g.trail) <= g.trail && OnlyVersions(old(g.db), g.db, ino)
    ensures VersionsOk(g.db, ino, h + [c])
  {
    var ver := Current(g.db, ino);
    NoBlocksYet(g.db, ino, h);
    CopyBlocks(g, ino, ver, blocks);
    SnapshotExtends(old(g.db), g.db, ino, h, Oldest(|h|), c, blocks);
    StoreVersion(g, ino, ver, size, blocks);
    Prune(g, ino, ver, h + [c]);
  }

  /** Drops the version that fell out of the window. */
  method Prune(g: Context, ino: nat, ver: nat, ghost h: seq<seq<byte>>)
    requires g.Safe() && |h| == ver + 1 && Window(g.db, ino, h, Oldest(ver))
    modifies g`db, g`trail
    ensures g.Safe() && old(g.trail) <= g.trail && OnlyVersions(old(g.db), g.db, ino)
    ensures VersionsOk(g.db, ino, h)
  {
    hide Window, Holds, WithoutVersion, Recoverable;
    if ver + 1 > MAX_VERSIONS {
      var oldest := ver + 1 - MAX_VERSIONS;
      PruneNarrows(g.db, ino, h, oldest - 1);
      VersionDeleteOne(g, ino, oldest - 1);
    }
  }

  lemma NoBlocksYet(db: Db, ino: nat, h: seq<seq<byte>>)
    requires VersionsOk(db, ino, h)
    ensures BlocksIn(db, Version(ino, |h|)) == map[]
  {
    assert forall b: nat :: SlotKey(Version(ino, |h|), b) == VerBlock(ino, |h|, b);
  }

  method StoreVersion(g: Context, ino: nat, ver: nat, size: nat, blocks: nat)
    requires g.Safe() && InodeKey(ino) in g.db
    modifies g`db, g`trail
    ensures g.Safe() && old(g.trail) <= g.trail
    ensures g.db == Recorded(old(g.db), ino, ver, size, blocks)
    ensures OnlyVersions(old(g.db), g.db, ino)
  {
    PutOwned(g.db, VerMeta(ino, ver), MetaValue(size, blocks));
    g.Put(VerMeta(ino, ver), MetaValue(size, blocks));
    PutOwned(g.db, VerCounter(ino), Counter(ver + 1));
    g.Put(VerCounter(ino), Counter(ver + 1));
  }

  /** version_delete_all: the counter first, then every version in the window. */
  method VersionDeleteAll(g: Context, ino: nat, ghost h: seq<seq<byte>>)
    requires g.Safe() && VersionsOk(g.db, ino, h)
    modifies g`db, g`trail
    ensures g.Safe() && old(g.trail) <= g.trail && OnlyVersions(old(g.db), g.db, ino)
    ensures forall k :: k in g.db ==> !VersionKey(k, ino)
  {
    var ver := Current(g.db, ino);
    if ver == 0 {
      return;
    }
    WindowKeys(g.db, ino, h);
    DeleteData(g.db, VerCounter(ino));
    g.Delete(VerCounter(ino));
    var start := if ver > MAX_VERSIONS then ver - MAX_VERSIONS else 0;
    for v := start to ver
      invariant g.Safe() && old(g.trail) <= g.trail && OnlyVersions(old(g.db), g.db, ino)
      invariant VersionsFrom(g.db, ino, v, ver)
    {
      DeleteOneStep(g.db, ino, v, ver);
      VersionDeleteOne(g, ino, v);
    }
  }

  lemma DeleteOneStep(db: Db, ino: nat, v: nat, hi: nat)
    requires VersionsFrom(db, ino, v, hi)
    ensures VersionsFrom(WithoutVersion(db, ino, v), ino, v + 1, hi)
  {
  }

  lemma WindowKeys(db: Db, ino: nat, h: seq<seq<byte>>)
    requires VersionsOk(db, ino, h)
    ensures VersionsFrom(db - {VerCounter(ino)}, ino, Oldest(|h|), |h|)
  {
  }

  /** The only version keys of ino left are those of versions lo..hi-1, and no counter. */
  ghost predicate VersionsFrom(db: Db, ino: nat, lo: nat, hi: nat) {
    forall k :: k in db && VersionKey(k, ino) ==> !k.VerCounter? && lo <= k.ver < hi
  }

  // ---- reading a version file ----

  /** The position at which a read starting in block lo stops: the end of the run of stored
      blocks from there on. */
  function Reach(s: Blocks, lo: nat, blocks: nat): nat {
    FirstHole(s, lo, Max(lo, blocks)) * BLOCK_SIZE
  }

  /** What reading n bytes of a version file at off returns: stored bytes up to the first
      hole, whatever the recorded size. */
  function RawRead(s: Blocks, blocks: nat, off: nat, n: nat): seq<byte> {
    BytesAt(s, off, Max(0, Min(off + n, Reach(s, off / BLOCK_SIZE, blocks)) - off))
  }

  /** The version-file branch of kvbfs_read. */
  method ReadVersion(g: Context, ino: nat, ver: nat, off: nat, n: nat, ghost blocks: nat) returns (out: seq<byte>)
    requires forall b :: b in BlocksIn(g.db, Version(ino, ver)) ==>
      b < blocks && |BlocksIn(g.db, Version(ino, ver))[b]| == BLOCK_SIZE
    ensures out == RawRead(BlocksIn(g.db, Version(ino, ver)), blocks, off, n)
  {
    ghost var s := BlocksIn(g.db, Version(ino, ver));
    var startBlock: nat := off / BLOCK_SIZE;
    var endBlock := (off + n - 1) / BLOCK_SIZE;
    out := [];
    var blk: nat := startBlock;
    while blk <= endBlock && |out| < n
      invariant startBlock <= blk && DenseFrom(s, startBlock, blk)
      invariant out == BytesAt(s, off, CopiedSoFar(off, n, blk))
      decreases endBlock + 1 - blk
    {
      assert SlotKey(Version(ino, ver), blk) == VerBlock(ino, ver, blk);
      if VerBlock(ino, ver, blk) !in g.db {
        break;
      }
      var blkOff: nat := if blk == startBlock then off % BLOCK_SIZE else 0;
      PiecePosition(off, n, blk);
      var piece := VersionPiece(g, ino, ver, blk, blkOff, n - |out|);
      BytesJoin(s, off, |out|, |piece|);
      out := out + piece;
      blk := blk + 1;
    }
    ReadStops(s, blocks, off, n, blk);
  }

  /** Bytes copied when the read loop is about to look at block blk. */
  function CopiedSoFar(off: nat, n: nat, blk: nat): nat { Min(n, Max(0, blk * BLOCK_SIZE - off)) }

  lemma PiecePosition(off: nat, n: nat, blk: nat)
    requires off / BLOCK_SIZE <= blk && CopiedSoFar(off, n, blk) < n
    ensures var blkOff := if blk == off / BLOCK_SIZE then off % BLOCK_SIZE else 0;
      && blk * BLOCK_SIZE + blkOff == off + CopiedSoFar(off, n, blk)
      && CopiedSoFar(off, n, blk) + Min(BLOCK_SIZE - blkOff, n - CopiedSoFar(off, n, blk)) == CopiedSoFar(off, n, blk + 1)
  {
  }

  predicate DenseFrom(s: Blocks, lo: nat, hi: nat) { forall b :: lo <= b < hi ==> b in s }

  /** Where the read loop stands when it stops: at a hole or past the requested range. */
  lemma ReadStops(s: Blocks, blocks: nat, off: nat, n: nat, blk: nat)
    requires forall b :: b in s ==> b < blocks
    requires off / BLOCK_SIZE <= blk && DenseFrom(s, off / BLOCK_SIZE, blk)
    requires blk !in s || n <= Max(0, blk * BLOCK_SIZE - off) || blk > (off + n - 1) / BLOCK_SIZE
    ensures CopiedSoFar(off, n, blk) == Max(0, Min(off + n, Reach(s, off / BLOCK_SIZE, blocks)) - off)
  {
    var lo := off / BLOCK_SIZE;
    var hole := FirstHole(s, lo, Max(lo, blocks));
    assert hole < blk ==> hole in s;
    if hole < blk {
      assert false;
    }
    if blk !in s && blk < hole {
      assert false;
    }
  }

  method VersionPiece(g: Context, ino: nat, ver: nat, blk: nat, blkOff: nat, left: nat) returns (piece: seq<byte>)
    requires VerBlock(ino, ver, blk) in g.db && |BytesOf(g.db[VerBlock(ino, ver, blk)])| == BLOCK_SIZE
    requires blkOff < BLOCK_SIZE
    ensures piece == BytesAt(BlocksIn(g.db, Version(ino, ver)), blk * BLOCK_SIZE + blkOff, Min(BLOCK_SIZE - blkOff, left))
  {
    assert SlotKey(Version(ino, ver), blk) == VerBlock(ino, ver, blk);
    var data := BytesOf(g.db[VerBlock(ino, ver, blk)]);
    var avail := if |data| > blkOff then |data| - blkOff else 0;
    var toCopy := if avail < left then avail else left;
    piece := data[blkOff..blkOff + toCopy];
    BlockBytes(BlocksIn(g.db, Version(ino, ver)), blk, blkOff, toCopy, piece);
  }

  /** When a version read returns the slice of the recorded content: exactly when the run of
      stored blocks ends at the recorded size, or the request stays inside both, or it
      starts past both. */
  lemma VersionReadExact(s: Blocks, size: nat, blocks: nat, off: nat, n: nat)
    requires Ok(s, size, blocks) && n > 0
    ensures RawRead(s, blocks, off, n) == Slice(Denote(s, size), off, n)
      <==> var reach := Reach(s, off / BLOCK_SIZE, blocks);
           reach == size || off + n <= Min(size, reach) || off >= Max(size, reach)
  {
    var reach := Reach(s, off / BLOCK_SIZE, blocks);
    var got, want := RawRead(s, blocks, off, n), Slice(Denote(s, size), off, n);
    if |got| == |want| {
      if off < size {
        BytesOfDenotation(s, size, off, |want|);
      }
      assert got == want;
    }
  }

  /** The documented use fails: a version of a one-byte file, read as direct I/O asks for a
      whole page, comes back as a whole page with trailing zeros. */
  lemma VersionReadTooLong(x: seq<byte>)
    requires |x| == BLOCK_SIZE && forall i :: 1 <= i < BLOCK_SIZE ==> x[i] == 0
    ensures Ok(map[0 := x], 1, 1)
    ensures |RawRead(map[0 := x], 1, 0, BLOCK_SIZE)| == BLOCK_SIZE
    ensures Slice(Denote(map[0 := x], 1), 0, BLOCK_SIZE) == [x[0]]
  {
    var s: Blocks := map[0 := x];
    forall i: nat | i >= 1 ensures ByteAt(s, i) == 0 {
      if i / BLOCK_SIZE == 0 { assert i % BLOCK_SIZE == i; }
    }
    assert FirstHole(s, 0, 1) == FirstHole(s, 1, 1) == 1;
    assert Denote(s, 1) == [x[0]];
  }
}
