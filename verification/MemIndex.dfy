/** Indexing a file for search (src/mem.c:138-156, 235-437): the content assembled from its
    blocks, the overlapping chunks, their sequence numbers, and the queue they go to. */
module MemIndex {
  import opened Keys
  import opened Sparse
  import opened Store
  import opened BlockLayer
  import opened Versions
  import opened TaskQueue
  import N = Namespace
  import F = FileSystem

  const CHUNK_SIZE: nat := 1600
  const CHUNK_OVERLAP: nat := 200
  const TEXT_PROBE: nat := 512
  const NEWLINE: byte := 10

  type Text = seq<byte>

  /** A C string ends before its first NUL. */
  function CStr(t: Text): (r: Text)
    ensures r <= t && 0 !in r
    ensures r == t <==> 0 !in t
    ensures |r| < |t| ==> t[|r|] == 0
  {
    if t == [] || t[0] == 0 then [] else [t[0]] + CStr(t[1..])
  }

  // ---- chunks ----

  /** The last newline at or before position scan and at or after lo, else lo. */
  function ScanBack(c: Text, lo: nat, scan: nat): (q: nat)
    requires lo <= scan < |c|
    ensures lo <= q <= scan
    ensures forall i :: q < i <= scan ==> c[i] != NEWLINE
    ensures q == lo || c[q] == NEWLINE
    decreases scan
  {
    if scan > lo && c[scan] != NEWLINE then ScanBack(c, lo, scan - 1) else scan
  }

  /** A newline in the second half of the chunk that starts at pos, or just after it. */
  ghost predicate NewlineAt(c: Text, pos: nat, i: nat) {
    pos + CHUNK_SIZE / 2 <= i <= pos + CHUNK_SIZE && i < |c| && c[i] == NEWLINE
  }

  /** The chunk that starts at pos takes the rest when it is short enough, else ends just after
      the last newline there is, else at the full size. */
  ghost predicate EndsRight(c: Text, pos: nat, e: nat)
    requires pos < |c|
  {
    if pos + CHUNK_SIZE >= |c| then e == |c|
    else
      && ((exists i: nat :: NewlineAt(c, pos, i)) ==> e > 0 && NewlineAt(c, pos, e - 1))
      && (forall i: nat :: NewlineAt(c, pos, i) ==> i < e)
      && ((forall i: nat :: !NewlineAt(c, pos, i)) ==> e == pos + CHUNK_SIZE)
  }

  /** Where the chunk that starts at pos ends. */
  function ChunkEnd(c: Text, pos: nat): (e: nat)
    requires pos < |c|
    ensures pos < e <= |c| && e <= pos + CHUNK_SIZE + 1
    ensures e < |c| ==> e > pos + CHUNK_SIZE / 2
    ensures EndsRight(c, pos, e)
  {
    if pos + CHUNK_SIZE >= |c| then |c|
    else
      var q := ScanBack(c, pos + CHUNK_SIZE / 2, pos + CHUNK_SIZE);
      assert forall i: nat :: NewlineAt(c, pos, i) ==> i <= q;
      assert c[q] == NEWLINE <==> NewlineAt(c, pos, q);
      if c[q] == NEWLINE then q + 1 else pos + CHUNK_SIZE
  }

  /** The chunks of the content from pos on. */
  function Chunks(c: Text, pos: nat): seq<Text>
    requires pos < |c|
    decreases |c| - pos
  {
    var e := ChunkEnd(c, pos);
    [c[pos..e]] + if e >= |c| then [] else Chunks(c, e - CHUNK_OVERLAP)
  }

  function ChunksOf(c: Text): seq<Text> { if c == [] then [] else Chunks(c, 0) }

  /** A text without the part it shares with the previous chunk. */
  function Fresh(t: Text): Text { if |t| < CHUNK_OVERLAP then [] else t[CHUNK_OVERLAP..] }

  /** The first text and the new parts of the others. */
  function Join(ts: seq<Text>): Text {
    if ts == [] then [] else ts[0] + JoinRest(ts[1..])
  }

  function JoinRest(ts: seq<Text>): Text {
    if ts == [] then [] else Fresh(ts[0]) + JoinRest(ts[1..])
  }

  /** The shape of every chunk list: at most CHUNK_SIZE + 1 bytes each, all but the last
      longer than half a chunk, consecutive ones sharing exactly CHUNK_OVERLAP bytes. */
  predicate WellChunked(ts: seq<Text>) {
    && (forall i :: 0 <= i < |ts| ==> 0 < |ts[i]| <= CHUNK_SIZE + 1)
    && (forall i :: 0 <= i < |ts| - 1 ==> |ts[i]| > CHUNK_SIZE / 2)
    && (forall i :: 0 < i < |ts| ==> |ts[i]| > CHUNK_OVERLAP)
    && (forall i :: 0 < i < |ts| ==> ts[i][..CHUNK_OVERLAP] == ts[i - 1][|ts[i - 1]| - CHUNK_OVERLAP..])
  }

  lemma WellChunkedCons(t: Text, ts: seq<Text>)
    requires WellChunked(ts) && ts != [] && CHUNK_SIZE / 2 < |t| <= CHUNK_SIZE + 1
    requires |ts[0]| > CHUNK_OVERLAP && ts[0][..CHUNK_OVERLAP] == t[|t| - CHUNK_OVERLAP..]
    ensures WellChunked([t] + ts)
  {
    var us := [t] + ts;
    assert forall i :: 0 < i < |us| ==> us[i] == ts[i - 1];
    assert us[0] == t && us[1] == ts[0];
  }

  /** The chunks ts of the content from pos on: each ends where it should, and each but the first
      starts CHUNK_OVERLAP bytes before the end of the one before it. */
  ghost predicate CutRight(c: Text, pos: nat, ts: seq<Text>)
    requires pos < |c|
    decreases |ts|
  {
    && ts != [] && pos < pos + |ts[0]| <= |c| && ts[0] == c[pos..pos + |ts[0]|] && EndsRight(c, pos, pos + |ts[0]|)
    && if |ts| == 1 then pos + |ts[0]| == |c|
       else pos + |ts[0]| < |c| && |ts[0]| > CHUNK_OVERLAP && CutRight(c, pos + |ts[0]| - CHUNK_OVERLAP, ts[1..])
  }

  lemma {:induction false} ChunksCut(c: Text, pos: nat)
    requires pos < |c|
    ensures CutRight(c, pos, Chunks(c, pos))
    decreases |c| - pos
  {
    hide ChunkEnd, Chunks, EndsRight;
    var e := ChunkEnd(c, pos);
    var ts := Chunks(c, pos);
    ChunksStep(c, pos);
    if e < |c| {
      ChunksCut(c, e - CHUNK_OVERLAP);
      assert ts[1..] == Chunks(c, e - CHUNK_OVERLAP);
    } else {
      assert c[pos..e] == c[pos..];
    }
  }

  /** Every chunk but the last ends with a newline, or has the full size and no newline in its
      second half. */
  lemma {:induction false} ChunksEndLines(c: Text, pos: nat, ts: seq<Text>)
    requires pos < |c| && CutRight(c, pos, ts)
    ensures forall i :: 0 <= i < |ts| - 1 ==> ts[i] != []
    ensures forall i :: 0 <= i < |ts| - 1 ==> EndsLine(ts[i])
    decreases |ts|
  {
    if |ts| > 1 {
      FirstEndsLine(c, pos, |ts[0]|);
      hide EndsRight, EndsLine;
      ChunksEndLines(c, pos + |ts[0]| - CHUNK_OVERLAP, ts[1..]);
      assert forall i :: 0 < i < |ts| - 1 ==> ts[i] == ts[1..][i - 1];
    }
  }

  ghost predicate EndsLine(t: Text) {
    t != [] && (t[|t| - 1] == NEWLINE || (|t| == CHUNK_SIZE && NEWLINE !in t[CHUNK_SIZE / 2..]))
  }

  lemma FirstEndsLine(c: Text, pos: nat, n: nat)
    requires pos < pos + n < |c| && EndsRight(c, pos, pos + n)
    ensures EndsLine(c[pos..pos + n])
  {
    var t := c[pos..pos + n];
    if i: nat :| NewlineAt(c, pos, i) {
      assert NewlineAt(c, pos, pos + n - 1);
    } else {
      forall k | CHUNK_SIZE / 2 <= k < n ensures t[k] != NEWLINE {
        assert !NewlineAt(c, pos, pos + k);
      }
    }
  }

  lemma ChunksStep(c: Text, pos: nat)
    requires pos < |c|
    ensures var e := ChunkEnd(c, pos);
      Chunks(c, pos) == if e < |c| then [c[pos..e]] + Chunks(c, e - CHUNK_OVERLAP) else [c[pos..]]
  {
    hide ChunkEnd;
    assert c[pos..|c|] == c[pos..];
  }

  lemma Overlaps(c: Text, pos: nat, e: nat, f: nat)
    requires pos + CHUNK_OVERLAP <= e < f <= |c|
    ensures c[e - CHUNK_OVERLAP..f][..CHUNK_OVERLAP] == c[pos..e][e - pos - CHUNK_OVERLAP..]
  {
  }

  lemma OneChunk(t: Text)
    requires 0 < |t| <= CHUNK_SIZE + 1
    ensures WellChunked([t])
  {
  }

  lemma {:induction false} ChunksShape(c: Text, pos: nat)
    requires pos < |c|
    ensures WellChunked(Chunks(c, pos))
    ensures Chunks(c, pos) != [] && Chunks(c, pos)[0] == c[pos..ChunkEnd(c, pos)]
    decreases |c| - pos
  {
    hide ChunkEnd, Chunks, WellChunked;
    var e := ChunkEnd(c, pos);
    ChunksStep(c, pos);
    if e < |c| {
      var next := e - CHUNK_OVERLAP;
      ChunksShape(c, next);
      Overlaps(c, pos, e, ChunkEnd(c, next));
      WellChunkedCons(c[pos..e], Chunks(c, next));
    } else {
      assert c[pos..e] == c[pos..];
      OneChunk(c[pos..]);
    }
  }

  lemma Slices(c: Text, pos: nat, e: nat)
    requires pos <= e <= |c|
    ensures c[pos..e] + c[e..] == c[pos..]
    ensures pos + CHUNK_OVERLAP <= e ==> Fresh(c[pos..e]) + c[e..] == c[pos + CHUNK_OVERLAP..]
  {
  }

  lemma WholeTail(c: Text, pos: nat)
    requires pos <= |c|
    ensures |c| - pos >= CHUNK_OVERLAP ==> Fresh(c[pos..]) == c[pos + CHUNK_OVERLAP..]
  {
  }

  lemma JoinCons(t: Text, ts: seq<Text>)
    ensures Join([t] + ts) == t + JoinRest(ts)
    ensures JoinRest([t] + ts) == Fresh(t) + JoinRest(ts)
  {
    hide Fresh;
    assert ([t] + ts)[1..] == ts;
  }

  lemma JoinOne(t: Text)
    ensures Join([t]) == t && JoinRest([t]) == Fresh(t)
  {
    hide Fresh;
    assert [t][1..] == [];
  }

  /** The chunks rebuild the content. */
  lemma {:induction false} ChunksRebuild(c: Text, pos: nat)
    requires pos < |c|
    ensures Join(Chunks(c, pos)) == c[pos..]
    ensures |c| - pos >= CHUNK_OVERLAP ==> JoinRest(Chunks(c, pos)) == c[pos + CHUNK_OVERLAP..]
    decreases |c| - pos
  {
    hide ChunkEnd, Fresh, Chunks, Join, JoinRest;
    var e := ChunkEnd(c, pos);
    ChunksStep(c, pos);
    if e >= |c| {
      WholeTail(c, pos);
      JoinOne(c[pos..]);
    } else {
      var next := e - CHUNK_OVERLAP;
      ChunksRebuild(c, next);
      JoinCons(c[pos..e], Chunks(c, next));
      Slices(c, pos, e);
    }
  }

  // ---- the texts that are stored ----

  function Texts(ts: seq<Text>): (us: seq<Text>)
    ensures |us| == |ts| && forall i :: 0 <= i < |ts| ==> us[i] == CStr(ts[i])
  {
    seq(|ts|, i requires 0 <= i < |ts| => CStr(ts[i]))
  }

  lemma FreshShorter(t: Text)
    requires |t| > CHUNK_OVERLAP
    ensures |Fresh(CStr(t))| <= |Fresh(t)|
    ensures |Fresh(CStr(t))| == |Fresh(t)| ==> 0 !in t
  {
    if |CStr(t)| == |t| { assert CStr(t) == t; }
  }

  lemma {:induction false} JoinRestLength(ts: seq<Text>)
    requires forall i :: 0 <= i < |ts| ==> |ts[i]| > CHUNK_OVERLAP
    ensures |JoinRest(Texts(ts))| <= |JoinRest(ts)|
    ensures |JoinRest(Texts(ts))| == |JoinRest(ts)| ==> forall i :: 0 <= i < |ts| ==> 0 !in ts[i]
  {
    if ts != [] {
      assert Texts(ts)[1..] == Texts(ts[1..]);
      assert forall i :: 0 <= i < |ts[1..]| ==> ts[1..][i] == ts[i + 1];
      FreshShorter(ts[0]);
      JoinRestLength(ts[1..]);
      if |JoinRest(Texts(ts))| == |JoinRest(ts)| {
        forall i | 0 <= i < |ts|
          ensures 0 !in ts[i]
        {
          if i > 0 { assert ts[i] == ts[1..][i - 1]; }
        }
      }
    }
  }

  lemma {:induction false} JoinHas(ts: seq<Text>, b: byte)
    requires b in JoinRest(ts)
    ensures exists i :: 0 <= i < |ts| && b in ts[i]
  {
    if b in Fresh(ts[0]) {
      assert b in ts[0];
    } else {
      JoinHas(ts[1..], b);
      var i :| 0 <= i < |ts[1..]| && b in ts[1..][i];
      assert b in ts[i + 1];
    }
  }

  lemma CStrLength(t: Text)
    ensures |CStr(t)| <= |t|
    ensures |CStr(t)| == |t| ==> 0 !in t
  {
    if |CStr(t)| == |t| { assert CStr(t) == t; }
  }

  /** The stored texts, being C strings, rebuild the content if and only if it has no NUL. */
  lemma TextsRebuildExact(c: Text)
    requires c != []
    ensures Join(Texts(Chunks(c, 0))) == c <==> 0 !in c
  {
    hide Chunks, CStr;
    ChunksShape(c, 0);
    ChunksRebuild(c, 0);
    assert c[0..] == c;
    var ts := Chunks(c, 0);
    if 0 !in c {
      ChunksPlain(c, 0);
      assert Texts(ts) == ts;
    } else {
      NulShortens(ts);
    }
  }

  lemma NulShortens(ts: seq<Text>)
    requires ts != [] && WellChunked(ts) && 0 in Join(ts)
    ensures |Join(Texts(ts))| < |Join(ts)|
  {
    hide CStr;
    var us := Texts(ts);
    assert us[1..] == Texts(ts[1..]);
    CStrLength(ts[0]);
    assert forall i :: 0 <= i < |ts[1..]| ==> ts[1..][i] == ts[i + 1];
    JoinRestLength(ts[1..]);
    if 0 !in ts[0] {
      assert 0 in JoinRest(ts[1..]);
      JoinHas(ts[1..], 0);
    }
  }

  lemma {:induction false} ChunksPlain(c: Text, pos: nat)
    requires pos < |c| && 0 !in c
    ensures forall i :: 0 <= i < |Chunks(c, pos)| ==> 0 !in Chunks(c, pos)[i]
    decreases |c| - pos
  {
    var e := ChunkEnd(c, pos);
    if e < |c| { ChunksPlain(c, e - CHUNK_OVERLAP); }
  }

  /** Content that the test for text lets through, and that its stored texts do not rebuild. */
  lemma HiddenNul() returns (c: Text)
    ensures LooksLikeText(c) && 0 in c
    ensures Join(Texts(ChunksOf(c))) != c
  {
    c := seq(TEXT_PROBE, _ => 97 as byte) + [0];
    assert c[TEXT_PROBE] == 0;
    TextsRebuildExact(c);
  }

  // ---- the content ----

  /** The content up to the first missing block. */
  function Assembled(s: Blocks, size: nat, blocks: nat): Text {
    Denote(s, size)[..Min(size, FirstHole(s, 0, blocks) * BLOCK_SIZE)]
  }

  /** The assembled text is the whole content if and only if the file has no hole; otherwise it
      is what the blocks before the first hole hold. */
  lemma AssembledExact(s: Blocks, size: nat, blocks: nat)
    requires Ok(s, size, blocks)
    ensures Assembled(s, size, blocks) == Denote(s, size) <==> DenseBelow(s, blocks)
    ensures forall h: nat :: h < blocks && h !in s && DenseBelow(s, h) ==>
      Assembled(s, size, blocks) == Denote(s, size)[..h * BLOCK_SIZE]
  {
    var k := FirstHole(s, 0, blocks);
    if k == blocks {
      assert Denote(s, size)[..size] == Denote(s, size);
    } else {
      HoleInside(k, size, blocks);
      assert |Assembled(s, size, blocks)| == k * BLOCK_SIZE;
    }
    forall h: nat | h < blocks && h !in s && DenseBelow(s, h) ensures h == k && k * BLOCK_SIZE < size {
      HoleInside(h, size, blocks);
    }
  }

  /** A reachable file with a hole: a new file that is made one byte long by truncation has
      no block, and nothing of it is assembled. */
  method HoleReached() returns (g: Context)
    ensures fresh(g) && N.Healthy(g) && 2 in g.inodes && g.inodes[2].kind.Regular?
    ensures Content(g.db, g.inodes, 2) == [0]
    ensures Assembled(BlocksIn(g.db, Live(2)), g.inodes[2].size, g.inodes[2].blocks) == []
  {
    hide N.FsOk, Recoverable, BlocksIn;
    g := F.TwoFiles();
    F.RegularFileOk(g.db, g.inodes, g.nextIno, g.history, 2);
    ghost var db, nodes := g.db, g.inodes;
    var r := SetSize(g, 2, 1);
    F.FileChangeHealthy(db, nodes, g.db, g.inodes, g.nextIno, g.history, 2);
  }

  lemma HoleInside(k: nat, size: nat, blocks: nat)
    requires k < blocks == CeilBlocks(size)
    ensures k * BLOCK_SIZE < size
  {
  }

  /** The loop that copies block after block. */
  method Assemble(g: Context, ino: nat, size: nat, blocks: nat) returns (content: Text)
    requires Ok(BlocksIn(g.db, Live(ino)), size, blocks)
    ensures content == Assembled(BlocksIn(g.db, Live(ino)), size, blocks)
  {
    ghost var s := BlocksIn(g.db, Live(ino));
    content := [];
    var b: nat := 0;
    assert Denote(s, size)[..0] == [];
    while b < blocks && |content| < size
      invariant b <= blocks && forall i :: 0 <= i < b ==> i in s
      invariant content == Denote(s, size)[..Min(size, b * BLOCK_SIZE)]
    {
      assert SlotKey(Live(ino), b) == Block(ino, b);
      if Block(ino, b) !in g.db { break; }
      var data := BytesOf(g.db[Block(ino, b)]);
      var copyLen := if |content| + |data| > size then size - |content| else |data|;
      CopyBlock(s, size, b, data, copyLen);
      content := content + data[..copyLen];
      b := b + 1;
    }
    StopsAtHole(s, size, blocks, b);
  }

  lemma CopyBlock(s: Blocks, size: nat, b: nat, data: Text, copyLen: nat)
    requires b in s && data == s[b] && |data| == BLOCK_SIZE && b * BLOCK_SIZE < size
    requires copyLen == if b * BLOCK_SIZE + |data| > size then size - b * BLOCK_SIZE else |data|
    ensures Denote(s, size)[..Min(size, b * BLOCK_SIZE)] + data[..copyLen] == Denote(s, size)[..Min(size, (b + 1) * BLOCK_SIZE)]
  {
    var at := b * BLOCK_SIZE;
    forall i | 0 <= i < copyLen
      ensures Denote(s, size)[at + i] == data[i]
    {
      assert (at + i) / BLOCK_SIZE == b && (at + i) % BLOCK_SIZE == i;
    }
  }

  lemma StopsAtHole(s: Blocks, size: nat, blocks: nat, b: nat)
    requires Ok(s, size, blocks) && b <= blocks && forall i :: 0 <= i < b ==> i in s
    requires b == blocks || size <= b * BLOCK_SIZE || b !in s
    ensures Min(size, b * BLOCK_SIZE) == Min(size, FirstHole(s, 0, blocks) * BLOCK_SIZE)
  {
    var k := FirstHole(s, 0, blocks);
    assert k < b ==> k in s;
    assert b <= k;
    if b < k { HoleInside(b, size, blocks); }
  }

  predicate LooksLikeText(c: Text) { 0 !in c[..Min(TEXT_PROBE, |c|)] }

  /** mem_is_text. */
  method IsText(data: Text) returns (text: bool)
    ensures text <==> LooksLikeText(data)
  {
    var probe := if |data| < TEXT_PROBE then |data| else TEXT_PROBE;
    var i := 0;
    while i < probe
      invariant 0 <= i <= probe
      invariant 0 !in data[..i]
    {
      if data[i] == 0 {
        assert data[..probe][i] == 0;
        return false;
      }
      assert data[..i + 1] == data[..i] + [data[i]];
      i := i + 1;
    }
    return true;
  }

  // ---- embeddings of one inode ----

  /** The keys mem_delete_embeddings removes. */
  predicate EmbeddingKey(k: Key, ino: nat) {
    (k.MemVector? && k.ino == ino) || (k.MemText? && k.ino == ino) || (k.MemHeader? && k.ino == ino) || k == MemSeq(ino)
  }

  function WithoutEmbeddings(db: Db, ino: nat): Db { map k | k in db && !EmbeddingKey(k, ino) :: db[k] }

  lemma RemovesEmbeddings(db: Db, ino: nat)
    ensures Unselected(Unselected(Unselected(db, VectorsOf(ino)), TextsOf(ino)), HeadersOf(ino)) - {MemSeq(ino)}
      == WithoutEmbeddings(db, ino)
  {
  }

  /** mem_delete_embeddings: summaries and archives stay. */
  method DeleteEmbeddings(g: Context, ino: nat)
    requires g.Safe()
    modifies g`db, g`trail
    ensures g.Safe() && old(g.trail) <= g.trail
    ensures g.db == WithoutEmbeddings(old(g.db), ino)
  {
    hide Recoverable;
    RemovesEmbeddings(g.db, ino);
    DeletePrefix(g, VectorsOf(ino));
    DeletePrefix(g, TextsOf(ino));
    DeletePrefix(g, HeadersOf(ino));
    DeleteData(g.db, MemSeq(ino));
    g.Delete(MemSeq(ino));
  }

  // ---- sequence numbers and the queue ----

  datatype Task = Task(ino: nat, seqno: nat, text: Text, role: string)

  const WRAP: nat := 0x1_0000_0000

  /** The next sequence number of an inode. */
  function SeqOf(db: Db, ino: nat): nat {
    if MemSeq(ino) in db && db[MemSeq(ino)].Counter? then db[MemSeq(ino)].count else 0
  }

  lemma PutCounter(db: Db, ino: nat, n: nat)
    requires Recoverable(db) && InodeKey(ROOT_INO) in db
    ensures Recoverable(db[MemSeq(ino) := Counter(n)])
  {
  }

  /** mem_next_seq: a 32-bit counter. */
  method NextSeq(g: Context, ino: nat) returns (seqno: nat)
    requires g.Safe() && InodeKey(ROOT_INO) in g.db
    modifies g`db, g`trail
    ensures g.Safe() && old(g.trail) <= g.trail && seqno == SeqOf(old(g.db), ino)
    ensures g.db == old(g.db)[MemSeq(ino) := Counter((seqno + 1) % WRAP)]
  {
    hide Recoverable;
    seqno := SeqOf(g.db, ino);
    PutCounter(g.db, ino, (seqno + 1) % WRAP);
    g.Put(MemSeq(ino), Counter((seqno + 1) % WRAP));
  }

  /** mem_memorize: the text is copied up to its first NUL and queued. */
  method Memorize(g: Context, queue: Queue<Task>, ino: nat, text: Text, role: string)
    requires g.Safe() && InodeKey(ROOT_INO) in g.db && queue.Valid()
    modifies g`db, g`trail, queue, queue.nodes
    ensures g.Safe() && old(g.trail) <= g.trail && queue.Valid()
    ensures g.db == old(g.db)[MemSeq(ino) := Counter((SeqOf(old(g.db), ino) + 1) % WRAP)]
    ensures queue.Items() == old(queue.Items()) + [Task(ino, SeqOf(old(g.db), ino), CStr(text), role)]
    ensures forall n :: n in queue.nodes ==> n in old(queue.nodes) || fresh(n)
  {
    hide Recoverable, Queue.Valid;
    var seqno := NextSeq(g, ino);
    queue.Append(Task(ino, seqno, CStr(text), role));
  }

  /** The tasks of one file: its chunks, numbered from 0. */
  function TasksOf(ino: nat, chunks: seq<Text>): (ts: seq<Task>)
    ensures |ts| == |chunks|
    ensures forall i :: 0 <= i < |ts| ==> ts[i] == Task(ino, i % WRAP, CStr(chunks[i]), "content")
  {
    seq(|chunks|, i requires 0 <= i < |chunks| => Task(ino, i % WRAP, CStr(chunks[i]), "content"))
  }

  lemma TasksAppend(ino: nat, done: seq<Text>, t: Text)
    ensures TasksOf(ino, done + [t]) == TasksOf(ino, done) + [Task(ino, |done| % WRAP, CStr(t), "content")]
  {
    hide CStr;
    var ts := done + [t];
    assert forall i :: 0 <= i < |done| ==> ts[i] == done[i];
  }

  /** The end of one chunk: the target size, moved back to just after a newline when there is
      one in its second half. */
  method FindChunkEnd(content: Text, pos: nat) returns (chunkEnd: nat)
    requires pos < |content|
    ensures chunkEnd == ChunkEnd(content, pos) && EndsRight(content, pos, chunkEnd)
  {
    hide EndsRight;
    chunkEnd := pos + CHUNK_SIZE;
    if chunkEnd > |content| { chunkEnd := |content|; }
    if chunkEnd < |content| {
      var scan := chunkEnd;
      while scan > pos + CHUNK_SIZE / 2 && content[scan] != NEWLINE
        invariant pos + CHUNK_SIZE / 2 <= scan <= pos + CHUNK_SIZE
        invariant ScanBack(content, pos + CHUNK_SIZE / 2, pos + CHUNK_SIZE) == ScanBack(content, pos + CHUNK_SIZE / 2, scan)
      {
        scan := scan - 1;
      }
      if content[scan] == NEWLINE { chunkEnd := scan + 1; }
    }
  }

  /** db' differs from db at most in the sequence counter of ino. */
  ghost predicate OnlySeq(db: Db, db': Db, ino: nat) {
    forall k :: k != MemSeq(ino) ==> (k in db' <==> k in db) && (k in db ==> db'[k] == db[k])
  }

  lemma OnlySeqTwice(a: Db, b: Db, c: Db, ino: nat)
    requires OnlySeq(a, b, ino) && OnlySeq(b, c, ino)
    ensures OnlySeq(a, c, ino)
  {
  }

  /** What queueing chunks has done so far, from a given store and queue. */
  ghost predicate Progress(g: Context, queue: Queue<Task>, ino: nat, db: Db, tasks: seq<Task>, done: seq<Text>)
    reads g, queue, queue.nodes
  {
    && g.Safe() && InodeKey(ROOT_INO) in g.db && queue.Valid()
    && queue.Items() == tasks + TasksOf(ino, done)
    && SeqOf(g.db, ino) == |done| % WRAP && OnlySeq(db, g.db, ino)
  }

  lemma ProgressStart(g: Context, queue: Queue<Task>, ino: nat)
    requires g.Safe() && InodeKey(ROOT_INO) in g.db && queue.Valid() && MemSeq(ino) !in g.db
    ensures Progress(g, queue, ino, g.db, queue.Items(), [])
  {
    hide Recoverable, Queue.Valid;
    NoTasks(ino);
    assert queue.Items() == queue.Items() + [];
  }

  method SubmitNext(g: Context, queue: Queue<Task>, ino: nat, chunk: Text, ghost db: Db, ghost tasks: seq<Task>, ghost done: seq<Text>)
    requires Progress(g, queue, ino, db, tasks, done)
    modifies g`db, g`trail, queue, queue.nodes
    ensures Progress(g, queue, ino, db, tasks, done + [chunk]) && old(g.trail) <= g.trail
    ensures forall n :: n in queue.nodes ==> n in old(queue.nodes) || fresh(n)
  {
    hide Context.Safe, Queue.Valid, Queue.Items, CStr, TasksOf, OnlySeq, SeqOf;
    TasksAppend(ino, done, chunk);
    SubmitOne(g, queue, ino, chunk);
    OnlySeqTwice(db, old(g.db), g.db, ino);
    ghost var t := Task(ino, |done| % WRAP, CStr(chunk), "content");
    assert tasks + TasksOf(ino, done) + [t] == tasks + (TasksOf(ino, done) + [t]);
  }

  /** Back by the overlap; the other branch is never taken (ChunkEnd). */
  function NextPos(chunkEnd: nat): nat { if chunkEnd > CHUNK_OVERLAP then chunkEnd - CHUNK_OVERLAP else 0 }

  /** The chunks before pos are done. */
  ghost predicate Partial(content: Text, pos: nat, done: seq<Text>) {
    pos < |content| && done + Chunks(content, pos) == Chunks(content, 0)
  }

  lemma PartialStep(content: Text, pos: nat, done: seq<Text>)
    requires Partial(content, pos, done)
    ensures var e := ChunkEnd(content, pos); var done' := done + [content[pos..e]];
      if e < |content| then Partial(content, NextPos(e), done') else done' == Chunks(content, 0)
  {
    hide Chunks, ChunkEnd;
    ChunksNext(content, pos, done);
  }

  lemma PartialStart(content: Text)
    requires content != []
    ensures Partial(content, 0, [])
  {
    hide Chunks;
  }

  /** One round of the chunk loop. */
  method SubmitAt(g: Context, queue: Queue<Task>, ino: nat, content: Text, pos: nat, ghost db: Db, ghost tasks: seq<Task>, ghost done: seq<Text>)
    returns (chunkEnd: nat, ghost done': seq<Text>)
    requires Progress(g, queue, ino, db, tasks, done) && Partial(content, pos, done)
    modifies g`db, g`trail, queue, queue.nodes
    ensures old(g.trail) <= g.trail && pos < chunkEnd <= |content|
    ensures Progress(g, queue, ino, db, tasks, done')
    ensures if chunkEnd < |content| then Partial(content, NextPos(chunkEnd), done') && NextPos(chunkEnd) > pos else done' == Chunks(content, 0)
    ensures forall n :: n in queue.nodes ==> n in old(queue.nodes) || fresh(n)
  {
    hide Progress, Chunks, ChunkEnd;
    chunkEnd := FindChunkEnd(content, pos);
    PartialStep(content, pos, done);
    SubmitNext(g, queue, ino, content[pos..chunkEnd], db, tasks, done);
    done' := done + [content[pos..chunkEnd]];
  }

  /** The chunk loop. */
  method SubmitChunks(g: Context, queue: Queue<Task>, ino: nat, content: Text)
    requires g.Safe() && InodeKey(ROOT_INO) in g.db && queue.Valid() && MemSeq(ino) !in g.db && content != []
    modifies g`db, g`trail, queue, queue.nodes
    ensures Progress(g, queue, ino, old(g.db), old(queue.Items()), Chunks(content, 0)) && old(g.trail) <= g.trail
    ensures forall n :: n in queue.nodes ==> n in old(queue.nodes) || fresh(n)
  {
    ghost var db, tasks := g.db, queue.Items();
    ProgressStart(g, queue, ino);
    PartialStart(content);
    hide *;
    var pos: nat := 0;
    ghost var done: seq<Text> := [];
    while pos < |content|
      invariant Progress(g, queue, ino, db, tasks, done) && old(g.trail) <= g.trail
      invariant forall n :: n in queue.nodes ==> n in old(queue.nodes) || fresh(n)
      invariant pos < |content| && Partial(content, pos, done)
      decreases |content| - pos
    {
      assert forall i :: 0 <= i < |queue.nodes| ==> queue.nodes[i] in queue.nodes;
      var chunkEnd;
      chunkEnd, done := SubmitAt(g, queue, ino, content, pos, db, tasks, done);
      if chunkEnd >= |content| { break; }
      pos := NextPos(chunkEnd);
    }
  }

  lemma ChunksNext(c: Text, pos: nat, done: seq<Text>)
    requires pos < |c|
    ensures var e := ChunkEnd(c, pos);
      done + Chunks(c, pos) == if e < |c| then done + [c[pos..e]] + Chunks(c, e - CHUNK_OVERLAP) else done + [c[pos..e]]
  {
    hide Chunks, ChunkEnd, EndsRight;
    ChunksStep(c, pos);
    var e := ChunkEnd(c, pos);
    if e < |c| {
      Regroup(done, [c[pos..e]], Chunks(c, e - CHUNK_OVERLAP));
    } else {
      assert c[pos..e] == c[pos..];
    }
  }

  lemma Regroup<T>(a: seq<T>, b: seq<T>, c: seq<T>)
    ensures a + b + c == a + (b + c)
  {
  }

  method SubmitOne(g: Context, queue: Queue<Task>, ino: nat, chunk: Text)
    requires g.Safe() && InodeKey(ROOT_INO) in g.db && queue.Valid()
    modifies g`db, g`trail, queue, queue.nodes
    ensures g.Safe() && old(g.trail) <= g.trail && queue.Valid()
    ensures queue.Items() == old(queue.Items()) + [Task(ino, SeqOf(old(g.db), ino), CStr(chunk), "content")]
    ensures SeqOf(g.db, ino) == (SeqOf(old(g.db), ino) + 1) % WRAP
    ensures OnlySeq(old(g.db), g.db, ino) && InodeKey(ROOT_INO) in g.db
    ensures forall n :: n in queue.nodes ==> n in old(queue.nodes) || fresh(n)
  {
    hide Recoverable, Queue.Valid;
    Memorize(g, queue, ino, chunk, "content");
  }

  lemma NoTasks(ino: nat)
    ensures TasksOf(ino, []) == []
  {
  }

  /** Nothing is indexed: an opt-out attribute, an empty file, or data that is not text. */
  predicate Skipped(db: Db, inodes: map<nat, Inode>, ino: nat)
    requires ino in inodes
  {
    || Xattr(ino, "agentfs.noindex") in db
    || inodes[ino].size == 0
    || !LooksLikeText(Assembled(BlocksIn(db, Live(ino)), inodes[ino].size, inodes[ino].blocks))
  }

  /** The opt-out attribute has a reserved name: kvbfs_setxattr refuses it, so no store on the way
      of any run holds it, and a file is skipped exactly when it is empty or not text. */
  lemma OptOutNeverSet(db: Db, inodes: map<nat, Inode>, ino: nat, create: bool, replace: bool)
    requires Recoverable(db) && ino in inodes
    ensures F.XattrStatus(db, ino, "agentfs.noindex", create, replace).EPERM?
    ensures Xattr(ino, "agentfs.noindex") !in db
    ensures Skipped(db, inodes, ino) <==>
      inodes[ino].size == 0 || !LooksLikeText(Assembled(BlocksIn(db, Live(ino)), inodes[ino].size, inodes[ino].blocks))
  {
    hide LooksLikeText, Assembled, BlocksIn, Fits;
    assert "agentfs." <= "agentfs.noindex";
    assert Reserved(Xattr(ino, "agentfs.noindex").name);
  }

  /** mem_index_file.  The chunks of the file are queued as tasks numbered from 0, after the
      embeddings of its earlier content are gone. */
  method IndexFile(g: Context, queue: Queue<Task>, ino: nat) returns (rc: int)
    requires g.Safe() && InodeKey(ROOT_INO) in g.db && queue.Valid()
    requires ino in g.inodes ==> Ok(BlocksIn(g.db, Live(ino)), g.inodes[ino].size, g.inodes[ino].blocks)
    modifies g`db, g`trail, queue, queue.nodes
    ensures g.Safe() && old(g.trail) <= g.trail && queue.Valid()
    ensures rc == if Xattr(ino, "agentfs.noindex") !in old(g.db) && ino !in g.inodes then -1 else 0
    ensures ino !in g.inodes || Skipped(old(g.db), g.inodes, ino) ==> g.db == old(g.db) && queue.Items() == old(queue.Items())
    ensures ino in g.inodes && !Skipped(old(g.db), g.inodes, ino) ==>
      Indexed(old(g.db), g.db, ino, old(queue.Items()), queue.Items(), Assembled(BlocksIn(old(g.db), Live(ino)), g.inodes[ino].size, g.inodes[ino].blocks))
  {
    hide Recoverable, Queue.Valid, Assembled, LooksLikeText, Chunks, TasksOf, Indexed;
    if Xattr(ino, "agentfs.noindex") in g.db { return 0; }
    if ino !in g.inodes { return -1; }
    var node := g.inodes[ino];
    if node.size == 0 { return 0; }
    var content := Assemble(g, ino, node.size, node.blocks);
    var text := IsText(content);
    if !text { return 0; }
    rc := 0;
    Reindex(g, queue, ino, content);
  }

  /** The effect of indexing: other keys keep their values, the file's embeddings are gone,
      and the queue has grown by one task per chunk. */
  ghost predicate Indexed(db: Db, db': Db, ino: nat, tasks: seq<Task>, tasks': seq<Task>, content: Text) {
    && (forall k :: !EmbeddingKey(k, ino) ==> (k in db <==> k in db') && (k in db ==> db'[k] == db[k]))
    && (forall k :: k in db' && EmbeddingKey(k, ino) ==> k == MemSeq(ino))
    && tasks' == tasks + TasksOf(ino, ChunksOf(content))
    && SeqOf(db', ino) == |ChunksOf(content)| % WRAP
  }

  method Reindex(g: Context, queue: Queue<Task>, ino: nat, content: Text)
    requires g.Safe() && InodeKey(ROOT_INO) in g.db && queue.Valid()
    modifies g`db, g`trail, queue, queue.nodes
    ensures g.Safe() && old(g.trail) <= g.trail && queue.Valid()
    ensures Indexed(old(g.db), g.db, ino, old(queue.Items()), queue.Items(), content)
  {
    hide Recoverable, Queue.Valid, Chunks, TasksOf;
    DeleteEmbeddings(g, ino);
    assert MemSeq(ino) !in g.db;
    NoTasks(ino);
    if content != [] { SubmitChunks(g, queue, ino, content); }
  }
}
