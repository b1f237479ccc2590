/** Reading and writing files through sparse blocks: kvbfs_read, kvbfs_write, the size part
    of kvbfs_setattr and O_TRUNC in src/fuse_ops.c; file_read_all, file_append and
    file_overwrite in src/llm.c. */
module BlockLayer {
  import opened Keys
  import opened Sparse
  import opened Store

  /** A live regular file whose stored blocks are well formed. */
  ghost predicate FileOk(db: Db, inodes: map<nat, Inode>, ino: nat) {
    && ino in inodes && inodes[ino].kind.Regular? && InodeKey(ino) in db
    && Ok(BlocksIn(db, Live(ino)), inodes[ino].size, inodes[ino].blocks)
  }

  /** The flat content of a live file. */
  function Content(db: Db, inodes: map<nat, Inode>, ino: nat): seq<byte>
    requires ino in inodes
  {
    Denote(BlocksIn(db, Live(ino)), inodes[ino].size)
  }

  /** Only the size and block count of ino may differ. */
  ghost predicate OnlySize(nodes: map<nat, Inode>, nodes': map<nat, Inode>, ino: nat) {
    && nodes'.Keys == nodes.Keys
    && (forall i :: i in nodes && i != ino ==> nodes'[i] == nodes[i])
    && (ino in nodes ==> nodes'[ino].kind == nodes[ino].kind && nodes'[ino].nlink == nodes[ino].nlink)
  }

  /** The effect of a block-layer call on everything but the content: only the blocks of
      ino and its size and block count change, and the store stays recoverable throughout. */
  twostate predicate OnlyFile(g: Context, ino: nat)
    reads g
  {
    && g.Safe() && old(g.trail) <= g.trail
    && g.nextIno == old(g.nextIno) && g.history == old(g.history)
    && OnlySlot(old(g.db), g.db, Live(ino))
    && OnlySize(old(g.inodes), g.inodes, ino)
  }

  /** memcpy of a block read from the store into a zeroed block, then of the new piece. */
  function BuildBlock(db: Db, k: Key, blockOff: nat, piece: seq<byte>): (x: seq<byte>)
    requires blockOff + |piece| <= BLOCK_SIZE
    ensures |x| == BLOCK_SIZE
  {
    var zeros := seq(BLOCK_SIZE, _ => 0 as byte);
    var block :=
      if k in db then
        var existing := BytesOf(db[k]);
        var n := Min(|existing|, BLOCK_SIZE);
        existing[..n] + zeros[n..]
      else zeros;
    block[..blockOff] + piece + block[blockOff + |piece|..]
  }

  lemma BuildsPatched(db: Db, ino: nat, b: nat, blockOff: nat, piece: seq<byte>)
    requires blockOff + |piece| <= BLOCK_SIZE
    ensures BuildBlock(db, Block(ino, b), blockOff, piece) == Patched(BlocksIn(db, Live(ino)), b, blockOff, piece)
  {
    assert SlotKey(Live(ino), b) == Block(ino, b);
  }

  /** The block loop shared by kvbfs_write and file_append. */
  method WriteBlocks(g: Context, ino: nat, data: seq<byte>, off: nat)
    requires g.Safe() && InodeKey(ino) in g.db
    modifies g`db, g`trail
    ensures g.Safe() && old(g.trail) <= g.trail
    ensures OnlySlot(old(g.db), g.db, Live(ino))
    ensures Written(BlocksIn(old(g.db), Live(ino)), BlocksIn(g.db, Live(ino)), off, data, |data|)
  {
    hide BlocksIn, BuildBlock, Patched;
    var slot := Live(ino);
    ghost var s0 := BlocksIn(g.db, slot);
    var written: nat, b: nat, blockOff: nat := 0, off / BLOCK_SIZE, off % BLOCK_SIZE;
    assert data[..0] == [];
    while written < |data|
      invariant written <= |data|
      invariant written < |data| ==> b * BLOCK_SIZE + blockOff == off + written && blockOff < BLOCK_SIZE
      invariant g.Safe() && old(g.trail) <= g.trail && InodeKey(ino) in g.db
      invariant OnlySlot(old(g.db), g.db, slot)
      invariant Written(s0, BlocksIn(g.db, slot), off, data, written)
    {
      var toWrite: nat := Min(BLOCK_SIZE - blockOff, |data| - written);
      var piece := data[written..written + toWrite];
      var block := BuildBlock(g.db, Block(ino, b), blockOff, piece);
      BuildsPatched(g.db, ino, b, blockOff, piece);
      WriteOneBlock(s0, BlocksIn(g.db, slot), off, data, written, b, blockOff, toWrite);
      SlotPut(g.db, slot, b, block);
      PutOwned(g.db, Block(ino, b), Bytes(block));
      g.Put(Block(ino, b), Bytes(block));
      written := written + toWrite;
      b := b + 1;
      blockOff := 0;
    }
  }

  /** kvbfs_write: overlays data at off, extending the file as needed. */
  method Write(g: Context, ino: nat, data: seq<byte>, off: nat) returns (r: Status)
    requires g.Safe() && (ino in g.inodes ==> FileOk(g.db, g.inodes, ino))
    modifies g
    ensures OnlyFile(g, ino)
    ensures r == if ino in old(g.inodes) then Done else ENOENT
    ensures !r.Done? ==> g.inodes == old(g.inodes) && g.db == old(g.db)
    ensures r.Done? ==> FileOk(g.db, g.inodes, ino)
    ensures r.Done? ==> Content(g.db, g.inodes, ino) == Overlay(old(Content(g.db, g.inodes, ino)), off, data)
  {
    if ino !in g.inodes {
      return ENOENT;
    }
    ghost var s0 := BlocksIn(g.db, Live(ino));
    WriteBlocks(g, ino, data, off);
    var node := g.inodes[ino];
    WriteDone(s0, BlocksIn(g.db, Live(ino)), node.size, node.blocks, off, data);
    if off + |data| > node.size {
      node := node.(size := off + |data|);
    }
    node := node.(blocks := CeilBlocks(node.size));
    g.inodes := g.inodes[ino := node];
    return Done;
  }

  /** One block's share of a read: at most want bytes of block b from blockOff on. */
  method FetchPiece(g: Context, ino: nat, b: nat, blockOff: nat, want: nat) returns (piece: seq<byte>)
    requires blockOff < BLOCK_SIZE
    requires forall x :: x in BlocksIn(g.db, Live(ino)) ==> |BlocksIn(g.db, Live(ino))[x]| == BLOCK_SIZE
    ensures piece == BytesAt(BlocksIn(g.db, Live(ino)), b * BLOCK_SIZE + blockOff, Min(BLOCK_SIZE - blockOff, want))
  {
    var k := Block(ino, b);
    assert SlotKey(Live(ino), b) == k;
    var toCopy: nat;
    if k !in g.db || |BytesOf(g.db[k])| <= blockOff {
      toCopy := Min(BLOCK_SIZE - blockOff, want);
      piece := seq(toCopy, _ => 0 as byte);
    } else {
      var data := BytesOf(g.db[k]);
      toCopy := Min(|data| - blockOff, want);
      piece := data[blockOff..blockOff + toCopy];
    }
    BlockBytes(BlocksIn(g.db, Live(ino)), b, blockOff, toCopy, piece);
  }

  /** kvbfs_read: exactly the slice of the content. */
  method Read(g: Context, ino: nat, off: nat, n: nat) returns (r: Status, out: seq<byte>)
    requires ino in g.inodes ==> FileOk(g.db, g.inodes, ino)
    ensures r == if ino in g.inodes then Done else ENOENT
    ensures out == if ino in g.inodes then Slice(Content(g.db, g.inodes, ino), off, n) else []
  {
    if ino !in g.inodes {
      return ENOENT, [];
    }
    var fileSize := g.inodes[ino].size;
    if off >= fileSize {
      return Done, [];
    }
    var size := if off + n > fileSize then fileSize - off else n;
    ghost var s := BlocksIn(g.db, Live(ino));
    BytesOfDenotation(s, fileSize, off, size);
    out := ReadBlocks(g, ino, off, size);
    return Done, out;
  }

  method ReadBlocks(g: Context, ino: nat, off: nat, size: nat) returns (out: seq<byte>)
    requires forall x :: x in BlocksIn(g.db, Live(ino)) ==> |BlocksIn(g.db, Live(ino))[x]| == BLOCK_SIZE
    ensures out == BytesAt(BlocksIn(g.db, Live(ino)), off, size)
  {
    ghost var s := BlocksIn(g.db, Live(ino));
    var b: nat, blockOff: nat := off / BLOCK_SIZE, off % BLOCK_SIZE;
    out := [];
    while |out| < size
      invariant |out| <= size
      invariant |out| < size ==> b * BLOCK_SIZE + blockOff == off + |out| && blockOff < BLOCK_SIZE
      invariant out == BytesAt(s, off, |out|)
    {
      var piece := FetchPiece(g, ino, b, blockOff, size - |out|);
      BytesJoin(s, off, |out|, |piece|);
      out := out + piece;
      b := b + 1;
      blockOff := 0;
    }
  }

  method DeleteBlock(g: Context, ino: nat, i: nat)
    requires g.Safe()
    modifies g`db, g`trail
    ensures g.Safe() && old(g.trail) <= g.trail
    ensures OnlySlot(old(g.db), g.db, Live(ino))
    ensures BlocksIn(g.db, Live(ino)) == BlocksIn(old(g.db), Live(ino)) - {i}
  {
    SlotDelete(g.db, Live(ino), i);
    DeleteData(g.db, Block(ino, i));
    g.Delete(Block(ino, i));
  }

  /** delete_file_blocks (and the truncation loop): blocks lo to hi - 1 of one file. */
  method DeleteFileBlocks(g: Context, ino: nat, lo: nat, hi: nat)
    requires g.Safe() && lo <= hi
    modifies g`db, g`trail
    ensures g.Safe() && old(g.trail) <= g.trail
    ensures OnlySlot(old(g.db), g.db, Live(ino))
    ensures BlocksIn(g.db, Live(ino)) == Without(BlocksIn(old(g.db), Live(ino)), lo, hi)
  {
    ghost var s0 := BlocksIn(g.db, Live(ino));
    for i := lo to hi
      invariant g.Safe() && old(g.trail) <= g.trail
      invariant OnlySlot(old(g.db), g.db, Live(ino))
      invariant Removed(BlocksIn(g.db, Live(ino)), s0, lo, i)
    {
      RemoveStep(BlocksIn(g.db, Live(ino)), s0, lo, i);
      DeleteBlock(g, ino, i);
    }
    RemoveDone(BlocksIn(g.db, Live(ino)), s0, lo, hi);
  }

  /** kvbfs_setattr with a size: deletes the blocks past the new end and zeroes the tail of
      the last one kept, so that bytes cut off can never reappear. */
  method SetSize(g: Context, ino: nat, newSize: nat) returns (r: Status)
    requires g.Safe() && (ino in g.inodes ==> FileOk(g.db, g.inodes, ino))
    modifies g
    ensures OnlyFile(g, ino)
    ensures r == if ino in old(g.inodes) then Done else ENOENT
    ensures !r.Done? ==> g.inodes == old(g.inodes) && g.db == old(g.db)
    ensures r.Done? ==> FileOk(g.db, g.inodes, ino)
    ensures r.Done? ==> Content(g.db, g.inodes, ino) == Resize(old(Content(g.db, g.inodes, ino)), newSize)
    ensures r.Done? ==> g.inodes[ino].size == newSize && g.inodes[ino].blocks == CeilBlocks(newSize)
    ensures r.Done? && newSize >= old(g.inodes)[ino].size ==> g.db == old(g.db)
  {
    if ino !in g.inodes {
      return ENOENT;
    }
    var node := g.inodes[ino];
    TruncateResizes(BlocksIn(g.db, Live(ino)), node.size, node.blocks, newSize);
    if newSize < node.size {
      Shrink(g, ino, node.size, newSize);
    }
    node := node.(size := newSize, blocks := CeilBlocks(newSize));
    g.inodes := g.inodes[ino := node];
    return Done;
  }

  method Shrink(g: Context, ino: nat, oldSize: nat, newSize: nat)
    requires g.Safe() && InodeKey(ino) in g.db && newSize < oldSize
    requires Ok(BlocksIn(g.db, Live(ino)), oldSize, CeilBlocks(oldSize))
    modifies g`db, g`trail
    ensures g.Safe() && old(g.trail) <= g.trail
    ensures OnlySlot(old(g.db), g.db, Live(ino))
    ensures BlocksIn(g.db, Live(ino)) == Truncated(BlocksIn(old(g.db), Live(ino)), newSize)
  {
    DroppedAll(BlocksIn(g.db, Live(ino)), CeilBlocks(newSize), CeilBlocks(oldSize));
    var newBlocks := CeilBlocks(newSize);
    DeleteFileBlocks(g, ino, newBlocks, CeilBlocks(oldSize));
    LastKeptBlock(newSize);
    if newSize % BLOCK_SIZE > 0 && newBlocks > 0 {
      ZeroTailOf(g, ino, newBlocks - 1, newSize);
    }
  }

  method ZeroTailOf(g: Context, ino: nat, last: nat, newSize: nat)
    requires g.Safe() && InodeKey(ino) in g.db
    requires last == newSize / BLOCK_SIZE && newSize % BLOCK_SIZE > 0
    modifies g`db, g`trail
    ensures g.Safe() && old(g.trail) <= g.trail
    ensures OnlySlot(old(g.db), g.db, Live(ino))
    ensures BlocksIn(g.db, Live(ino)) == TailZeroed(BlocksIn(old(g.db), Live(ino)), newSize)
  {
    var k, tailOff := Block(ino, last), newSize % BLOCK_SIZE;
    assert SlotKey(Live(ino), last) == k;
    if k in g.db {
      var data := BytesOf(g.db[k]);
      if |data| > tailOff {
        var zeroed := data[..tailOff] + seq(|data| - tailOff, _ => 0 as byte);
        assert zeroed == ZeroTail(data, tailOff);
        SlotPut(g.db, Live(ino), last, zeroed);
        PutOwned(g.db, k, Bytes(zeroed));
        g.Put(k, Bytes(zeroed));
      }
    }
  }

  /** Deleting every block below the count and zeroing the attributes empties a file. */
  method Empty(g: Context, ino: nat)
    requires g.Safe() && FileOk(g.db, g.inodes, ino)
    modifies g
    ensures OnlyFile(g, ino) && FileOk(g.db, g.inodes, ino)
    ensures Content(g.db, g.inodes, ino) == []
  {
    var node := g.inodes[ino];
    ghost var s0 := BlocksIn(g.db, Live(ino));
    if node.blocks > 0 {
      DeleteFileBlocks(g, ino, 0, node.blocks);
    }
    assert BlocksIn(g.db, Live(ino)) == map[];
    g.inodes := g.inodes[ino := node.(size := 0, blocks := 0)];
  }

  /** kvbfs_open: O_TRUNC empties a regular file; anything else leaves it alone. */
  method Open(g: Context, ino: nat, trunc: bool) returns (r: Status)
    requires g.Safe() && (ino in g.inodes && g.inodes[ino].kind.Regular? ==> FileOk(g.db, g.inodes, ino))
    modifies g
    ensures OnlyFile(g, ino)
    ensures r == if ino !in old(g.inodes) then ENOENT else if !old(g.inodes)[ino].kind.Regular? then EISDIR else Done
    ensures r.Done? ==> FileOk(g.db, g.inodes, ino)
    ensures r.Done? ==> Content(g.db, g.inodes, ino) == if trunc then [] else old(Content(g.db, g.inodes, ino))
    ensures !r.Done? || !trunc ==> g.inodes == old(g.inodes) && g.db == old(g.db)
  {
    if ino !in g.inodes {
      return ENOENT;
    }
    if !g.inodes[ino].kind.Regular? {
      return EISDIR;
    }
    if trunc {
      Empty(g, ino);
    }
    return Done;
  }

  /** file_append: the data follow the old content. */
  method FileAppend(g: Context, ino: nat, data: seq<byte>) returns (r: Status)
    requires g.Safe() && (ino in g.inodes ==> FileOk(g.db, g.inodes, ino))
    modifies g
    ensures OnlyFile(g, ino)
    ensures r == if ino in old(g.inodes) then Done else ENOENT
    ensures !r.Done? ==> g.inodes == old(g.inodes) && g.db == old(g.db)
    ensures r.Done? ==> FileOk(g.db, g.inodes, ino)
    ensures r.Done? ==> Content(g.db, g.inodes, ino) == old(Content(g.db, g.inodes, ino)) + data
  {
    if ino !in g.inodes {
      return ENOENT;
    }
    var node := g.inodes[ino];
    var off := node.size;
    ghost var s0 := BlocksIn(g.db, Live(ino));
    WriteBlocks(g, ino, data, off);
    WriteDone(s0, BlocksIn(g.db, Live(ino)), node.size, node.blocks, off, data);
    node := node.(size := off + |data|, blocks := CeilBlocks(off + |data|));
    g.inodes := g.inodes[ino := node];
    OverlayAtEnd(Denote(s0, off), data);
    return Done;
  }

  /** file_overwrite: the data replace the old content. */
  method FileOverwrite(g: Context, ino: nat, data: seq<byte>) returns (r: Status)
    requires g.Safe() && (ino in g.inodes ==> FileOk(g.db, g.inodes, ino))
    modifies g
    ensures OnlyFile(g, ino)
    ensures r == if ino in old(g.inodes) then Done else ENOENT
    ensures !r.Done? ==> g.inodes == old(g.inodes) && g.db == old(g.db)
    ensures r.Done? ==> FileOk(g.db, g.inodes, ino)
    ensures r.Done? ==> Content(g.db, g.inodes, ino) == data
  {
    if ino !in g.inodes {
      return ENOENT;
    }
    Empty(g, ino);
    r := Done;
    if |data| > 0 {
      r := FileAppend(g, ino, data);
    }
  }

  /** One block's share of file_read_all: at most left bytes, a hole as zeros. */
  method FetchBlock(g: Context, ino: nat, i: nat, left: nat) returns (piece: seq<byte>)
    requires forall x :: x in BlocksIn(g.db, Live(ino)) ==> |BlocksIn(g.db, Live(ino))[x]| == BLOCK_SIZE
    ensures piece == BytesAt(BlocksIn(g.db, Live(ino)), i * BLOCK_SIZE, Min(BLOCK_SIZE, left))
  {
    var k := Block(ino, i);
    assert SlotKey(Live(ino), i) == k;
    if k in g.db {
      var block := BytesOf(g.db[k]);
      piece := block[..if |block| > left then left else |block|];
    } else {
      piece := seq(if BLOCK_SIZE > left then left else BLOCK_SIZE, _ => 0 as byte);
    }
    BlockBytes(BlocksIn(g.db, Live(ino)), i, 0, |piece|, piece);
  }

  /** file_read_all: the whole content, holes filled with zeros. */
  method FileReadAll(g: Context, ino: nat) returns (r: Status, out: seq<byte>)
    requires ino in g.inodes ==> FileOk(g.db, g.inodes, ino)
    ensures r == if ino in g.inodes then Done else ENOENT
    ensures out == if ino in g.inodes then Content(g.db, g.inodes, ino) else []
  {
    if ino !in g.inodes {
      return ENOENT, [];
    }
    var fileSize := g.inodes[ino].size;
    ghost var s := BlocksIn(g.db, Live(ino));
    out := [];
    if fileSize == 0 {
      return Done, [];
    }
    var i := 0;
    while i < g.inodes[ino].blocks && |out| < fileSize
      invariant i <= g.inodes[ino].blocks
      invariant |out| == Min(i * BLOCK_SIZE, fileSize)
      invariant out == BytesAt(s, 0, |out|)
    {
      var piece := FetchBlock(g, ino, i, fileSize - |out|);
      BytesJoin(s, 0, |out|, |piece|);
      out := out + piece;
      i := i + 1;
    }
    BytesOfDenotation(s, fileSize, 0, fileSize);
    return Done, out;
  }

  // ---- runs ----

  datatype FileOp =
    | WriteOp(off: nat, data: seq<byte>)
    | SetSizeOp(size: nat)
    | OpenOp(trunc: bool)
    | AppendOp(data: seq<byte>)
    | OverwriteOp(data: seq<byte>)

  /** What one operation does to the flat byte array. */
  function Apply(c: seq<byte>, op: FileOp): seq<byte> {
    match op
    case WriteOp(off, data) => Overlay(c, off, data)
    case SetSizeOp(n) => Resize(c, n)
    case OpenOp(trunc) => if trunc then [] else c
    case AppendOp(data) => c + data
    case OverwriteOp(data) => data
  }

  function ApplyAll(c: seq<byte>, ops: seq<FileOp>): seq<byte>
    decreases |ops|
  {
    if ops == [] then c else ApplyAll(Apply(c, ops[0]), ops[1..])
  }

  lemma {:induction false} ApplyAllStep(c: seq<byte>, ops: seq<FileOp>, op: FileOp)
    ensures ApplyAll(c, ops + [op]) == Apply(ApplyAll(c, ops), op)
    decreases |ops|
  {
    if ops == [] {
      assert ops + [op] == [op];
    } else {
      assert (ops + [op])[1..] == ops[1..] + [op];
      ApplyAllStep(Apply(c, ops[0]), ops[1..], op);
    }
  }

  method StepFileOp(g: Context, ino: nat, op: FileOp)
    requires g.Safe() && FileOk(g.db, g.inodes, ino)
    modifies g
    ensures OnlyFile(g, ino) && FileOk(g.db, g.inodes, ino)
    ensures Content(g.db, g.inodes, ino) == Apply(old(Content(g.db, g.inodes, ino)), op)
  {
    var r;
    match op {
      case WriteOp(off, data) => r := Write(g, ino, data, off);
      case SetSizeOp(n) => r := SetSize(g, ino, n);
      case OpenOp(trunc) => r := Open(g, ino, trunc);
      case AppendOp(data) => r := FileAppend(g, ino, data);
      case OverwriteOp(data) => r := FileOverwrite(g, ino, data);
    }
  }

  /** Any sequence of writes, truncations, O_TRUNC opens, appends and overwrites acts on the
      sparse blocks as it acts on one flat byte array, and both readers return that array. */
  method RunFileOps(g: Context, ino: nat, ops: seq<FileOp>) returns (all: seq<byte>)
    requires g.Safe() && FileOk(g.db, g.inodes, ino)
    modifies g
    ensures OnlyFile(g, ino) && FileOk(g.db, g.inodes, ino)
    ensures all == Content(g.db, g.inodes, ino) == ApplyAll(old(Content(g.db, g.inodes, ino)), ops)
  {
    hide Content, ApplyAll, Apply, Recoverable, Ok, BlocksIn, InSlot;
    ghost var c0 := Content(g.db, g.inodes, ino);
    NoOps(c0);
    var i := 0;
    while i < |ops|
      invariant i <= |ops|
      invariant OnlyFile(g, ino) && FileOk(g.db, g.inodes, ino)
      invariant Content(g.db, g.inodes, ino) == ApplyAll(c0, ops[..i])
    {
      StepFileOp(g, ino, ops[i]);
      ApplyAllStep(c0, ops[..i], ops[i]);
      assert ops[..i + 1] == ops[..i] + [ops[i]];
      i := i + 1;
    }
    assert ops[..|ops|] == ops;
    var st;
    st, all := FileReadAll(g, ino);
  }

  /** A block-layer call on one file leaves every other file as it was. */
  lemma OtherFile(db: Db, db': Db, nodes: map<nat, Inode>, nodes': map<nat, Inode>, ino: nat, other: nat)
    requires OnlySlot(db, db', Live(ino)) && OnlySize(nodes, nodes', ino) && other != ino
    requires FileOk(db, nodes, other)
    ensures FileOk(db', nodes', other) && Content(db', nodes', other) == Content(db, nodes, other)
  {
    OtherSlot(db, db', Live(ino), Live(other));
    assert !InSlot(Live(ino), InodeKey(other));
  }

  /** The operations of a run that name one file. */
  function OpsOn(ops: seq<(nat, FileOp)>, ino: nat): seq<FileOp> {
    if ops == [] then []
    else
      var last := ops[|ops| - 1];
      OpsOn(ops[..|ops| - 1], ino) + if last.0 == ino then [last.1] else []
  }

  /** In a run over several files, each file's content is what its own operations make of it. */
  method RunManyFiles(g: Context, files: set<nat>, ops: seq<(nat, FileOp)>)
    requires g.Safe() && forall f :: f in files ==> FileOk(g.db, g.inodes, f)
    requires forall i :: 0 <= i < |ops| ==> ops[i].0 in files
    modifies g
    ensures g.Safe() && forall f :: f in files ==> FileOk(g.db, g.inodes, f)
    ensures forall f :: f in files ==> f in g.inodes && f in old(g.inodes)
    ensures forall f :: f in files ==> Content(g.db, g.inodes, f) == ApplyAll(Content(old(g.db), old(g.inodes), f), OpsOn(ops, f))
  {
    hide Content, ApplyAll, Apply, FileOk, OnlySlot, OnlySize, Context.Safe;
    ghost var db0, nodes0 := g.db, g.inodes;
    FilesKnown(g.db, g.inodes, files);
    var i := 0;
    forall f | f in files
      ensures Content(g.db, g.inodes, f) == ApplyAll(Content(db0, nodes0, f), OpsOn(ops[..0], f))
    {
      assert OpsOn(ops[..0], f) == [];
      NoOps(Content(db0, nodes0, f));
    }
    while i < |ops|
      invariant i <= |ops| && g.Safe()
      invariant forall f :: f in files ==> f in g.inodes && FileOk(g.db, g.inodes, f)
      invariant forall f :: f in files ==> Content(g.db, g.inodes, f) == ApplyAll(Content(db0, nodes0, f), OpsOn(ops[..i], f))
    {
      ghost var db, nodes := g.db, g.inodes;
      var (ino, op) := ops[i];
      StepFileOp(g, ino, op);
      assert ops[..i + 1][..i] == ops[..i] && ops[..i + 1][i] == (ino, op);
      forall f | f in files
        ensures f in g.inodes && FileOk(g.db, g.inodes, f)
        ensures Content(g.db, g.inodes, f) == ApplyAll(Content(db0, nodes0, f), OpsOn(ops[..i + 1], f))
      {
        if f == ino {
          FilesKnown(g.db, g.inodes, {f});
          assert OpsOn(ops[..i + 1], f) == OpsOn(ops[..i], f) + [op];
          ApplyAllStep(Content(db0, nodes0, f), OpsOn(ops[..i], f), op);
        } else {
          OtherFile(db, g.db, nodes, g.inodes, ino, f);
          FilesKnown(g.db, g.inodes, {f});
          assert OpsOn(ops[..i + 1], f) == OpsOn(ops[..i], f) + [] == OpsOn(ops[..i], f);
        }
      }
      i := i + 1;
    }
    assert ops[..|ops|] == ops;
  }

  lemma FilesKnown(db: Db, nodes: map<nat, Inode>, files: set<nat>)
    requires forall f :: f in files ==> FileOk(db, nodes, f)
    ensures forall f :: f in files ==> f in nodes
  {
  }

  lemma NoOps(c: seq<byte>)
    ensures ApplyAll(c, []) == c
  {
  }
}
