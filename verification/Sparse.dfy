/** Sparse files: a file is a size and a partial map from block index to a block of
    BLOCK_SIZE bytes; a missing block reads as zeros (src/fuse_ops.c, src/llm.c).
    This module is the theory the block layer is proved against: the flat byte array a
    sparse file denotes, and what patching, dropping and zeroing blocks does to it. */
module Sparse {

  newtype byte = x: int | 0 <= x < 256

  const BLOCK_SIZE: nat := 4096

  type Blocks = map<nat, seq<byte>>

  function CeilBlocks(size: nat): (n: nat)
    ensures n * BLOCK_SIZE >= size && (n > 0 ==> (n - 1) * BLOCK_SIZE < size)
  {
    (size + BLOCK_SIZE - 1) / BLOCK_SIZE
  }

  /** The byte a sparse file holds at position i; holes and short blocks read as zero. */
  function ByteAt(s: Blocks, i: nat): byte {
    var b := i / BLOCK_SIZE;
    if b in s && i % BLOCK_SIZE < |s[b]| then s[b][i % BLOCK_SIZE] else 0
  }

  /** The flat content of a sparse file of the given size. */
  function Denote(s: Blocks, size: nat): (c: seq<byte>)
    ensures |c| == size
    ensures forall i :: 0 <= i < size ==> c[i] == ByteAt(s, i)
  {
    seq(size, i requires 0 <= i < size => ByteAt(s, i))
  }

  /** Every stored block is full, lies below the block count, and is zero past the size. */
  ghost predicate Ok(s: Blocks, size: nat, blocks: nat) {
    && blocks == CeilBlocks(size)
    && (forall b :: b in s ==> b < blocks && |s[b]| == BLOCK_SIZE)
    && (forall i: nat :: i >= size ==> ByteAt(s, i) == 0)
  }

  // ---- flat byte arrays: the specification of every file operation ----

  function Min(a: int, b: int): int { if a < b then a else b }
  function Max(a: int, b: int): int { if a < b then b else a }

  /** data written over c at off; a gap between the old end and off becomes zeros. */
  function Overlay(c: seq<byte>, off: nat, data: seq<byte>): (r: seq<byte>)
    ensures |r| == Max(|c|, off + |data|)
  {
    seq(Max(|c|, off + |data|), i requires 0 <= i < Max(|c|, off + |data|) =>
      if off <= i < off + |data| then data[i - off] else if i < |c| then c[i] else 0)
  }

  /** c cut, or extended with zeros, to n bytes. */
  function Resize(c: seq<byte>, n: nat): (r: seq<byte>)
    ensures |r| == n
  {
    seq(n, i requires 0 <= i < n => if i < |c| then c[i] else 0)
  }

  /** What a read of n bytes at off returns. */
  function Slice(c: seq<byte>, off: nat, n: nat): seq<byte> {
    if off >= |c| then [] else c[off..Min(off + n, |c|)]
  }

  /** Reading back what was just written gives exactly the data, and bytes outside the
      written range are those of before. */
  lemma ReadYourWrites(c: seq<byte>, off: nat, data: seq<byte>, at: nat, n: nat)
    ensures Slice(Overlay(c, off, data), off, |data|) == data
    ensures at + n <= off && at + n <= |c| ==> Slice(Overlay(c, off, data), at, n) == Slice(c, at, n)
    ensures off + |data| <= at ==> Slice(Overlay(c, off, data), at, n) == Slice(c, at, n)
  {
    WrittenPart(c, off, data);
    if (at + n <= off && at + n <= |c|) || off + |data| <= at { KeptPart(c, off, data, at, n); }
  }

  lemma WrittenPart(c: seq<byte>, off: nat, data: seq<byte>)
    ensures Slice(Overlay(c, off, data), off, |data|) == data
  {
    var r := Overlay(c, off, data);
    if data == [] {
      assert Slice(r, off, 0) == [];
    } else {
      assert r[off..off + |data|] == data;
    }
  }

  lemma KeptPart(c: seq<byte>, off: nat, data: seq<byte>, at: nat, n: nat)
    requires (at + n <= off && at + n <= |c|) || off + |data| <= at
    ensures Slice(Overlay(c, off, data), at, n) == Slice(c, at, n)
  {
    var r := Overlay(c, off, data);
    var got, want := Slice(r, at, n), Slice(c, at, n);
    assert |got| == |want|;
    assert forall i :: 0 <= i < |want| ==> got[i] == r[at + i] && want[i] == c[at + i];
  }

  /** A shrink followed by a growth never exposes the bytes that were cut off. */
  lemma ShrinkThenGrow(c: seq<byte>, n: nat, m: nat)
    requires n <= |c|
    ensures Resize(Resize(c, n), m) == if m <= n then c[..m] else c[..n] + seq(m - n, _ => 0 as byte)
  {
  }

  /** A later write hides an earlier one it covers. */
  lemma OverlayCovers(c: seq<byte>, off: nat, a: seq<byte>, off': nat, b: seq<byte>)
    requires off' <= off && off + |a| <= off' + |b|
    ensures Overlay(Overlay(c, off, a), off', b) == Overlay(c, off', b)
  {
  }

  // ---- effect of one stored block ----

  lemma PutBlock(s: Blocks, b: nat, x: seq<byte>, i: nat)
    ensures ByteAt(s[b := x], i)
         == if i / BLOCK_SIZE == b then (if i - b * BLOCK_SIZE < |x| then x[i - b * BLOCK_SIZE] else 0) else ByteAt(s, i)
  {
  }

  /** A full block patched at block_off with piece, as the write loops build it. */
  function Patched(s: Blocks, b: nat, blockOff: nat, piece: seq<byte>): (x: seq<byte>)
    requires blockOff + |piece| <= BLOCK_SIZE
    ensures |x| == BLOCK_SIZE
  {
    seq(BLOCK_SIZE, j requires 0 <= j < BLOCK_SIZE =>
      if blockOff <= j < blockOff + |piece| then piece[j - blockOff]
      else if b in s && j < |s[b]| then s[b][j] else 0)
  }

  /** The byte at i once piece has been written over s at position at. */
  function OverlaidAt(s: Blocks, at: nat, piece: seq<byte>, i: nat): byte {
    if at <= i < at + |piece| then piece[i - at] else ByteAt(s, i)
  }

  ghost predicate Overlays(s': Blocks, s: Blocks, at: nat, piece: seq<byte>) {
    forall i: nat :: ByteAt(s', i) == OverlaidAt(s, at, piece, i)
  }

  /** Storing a patched block overlays exactly the piece. */
  lemma PatchOverlays(s: Blocks, b: nat, blockOff: nat, piece: seq<byte>)
    requires blockOff + |piece| <= BLOCK_SIZE
    ensures Overlays(s[b := Patched(s, b, blockOff, piece)], s, b * BLOCK_SIZE + blockOff, piece)
  {
    var x := Patched(s, b, blockOff, piece);
    var at := b * BLOCK_SIZE + blockOff;
    forall i: nat
      ensures ByteAt(s[b := x], i) == OverlaidAt(s, at, piece, i)
    {
      PutBlock(s, b, x, i);
      if i / BLOCK_SIZE == b {
        assert i - b * BLOCK_SIZE == i % BLOCK_SIZE;
      }
    }
  }

  /** s after the first w bytes of data have been written at off. */
  ghost predicate Written(s0: Blocks, s: Blocks, off: nat, data: seq<byte>, w: nat) {
    && w <= |data|
    && Overlays(s, s0, off, data[..w])
    && (forall b :: b in s ==>
         (b in s0 && |s0[b]| == |s[b]|) || (|s[b]| == BLOCK_SIZE && off / BLOCK_SIZE <= b && b * BLOCK_SIZE < off + w))
  }

  lemma WriteOneBlock(s0: Blocks, s: Blocks, off: nat, data: seq<byte>, w: nat, b: nat, blockOff: nat, n: nat)
    requires Written(s0, s, off, data, w)
    requires b * BLOCK_SIZE + blockOff == off + w && blockOff < BLOCK_SIZE
    requires 0 < n && w + n <= |data| && blockOff + n <= BLOCK_SIZE
    ensures Written(s0, s[b := Patched(s, b, blockOff, data[w..w + n])], off, data, w + n)
  {
    var piece := data[w..w + n];
    var s' := s[b := Patched(s, b, blockOff, piece)];
    PatchOverlays(s, b, blockOff, piece);
    forall i: nat
      ensures ByteAt(s', i) == OverlaidAt(s0, off, data[..w + n], i)
    {
      assert ByteAt(s', i) == OverlaidAt(s, b * BLOCK_SIZE + blockOff, piece, i);
      assert ByteAt(s, i) == OverlaidAt(s0, off, data[..w], i);
    }
    assert b == (off + w) / BLOCK_SIZE;
  }

  /** A finished write leaves a well-formed file holding the overlaid content. */
  lemma WriteDone(s0: Blocks, s: Blocks, size: nat, blocks: nat, off: nat, data: seq<byte>)
    requires Ok(s0, size, blocks) && Written(s0, s, off, data, |data|)
    ensures Ok(s, Max(size, off + |data|), CeilBlocks(Max(size, off + |data|)))
    ensures Denote(s, Max(size, off + |data|)) == Overlay(Denote(s0, size), off, data)
  {
    var n: nat := Max(size, off + |data|);
    assert CeilBlocks(size) <= CeilBlocks(n);
    var c := Overlay(Denote(s0, size), off, data);
    assert data[..|data|] == data;
    forall i: nat
      ensures i < n ==> ByteAt(s, i) == c[i]
      ensures i >= n ==> ByteAt(s, i) == 0
    {
      assert ByteAt(s, i) == OverlaidAt(s0, off, data[..|data|], i);
    }
  }

  /** Blocks from index lo up, dropped. */
  function DropFrom(s: Blocks, lo: nat): Blocks { map b | b in s && b < lo :: s[b] }

  /** Blocks lo..hi-1 removed. */
  function Without(s: Blocks, lo: nat, hi: nat): Blocks { map b | b in s && !(lo <= b < hi) :: s[b] }

  /** s' is s after the blocks lo..i-1 have been removed one by one. */
  ghost predicate Removed(s': Blocks, s: Blocks, lo: nat, i: nat) {
    && (forall b :: b in s' <==> b in s && !(lo <= b < i))
    && (forall b :: b in s' ==> s'[b] == s[b])
  }

  lemma RemoveStep(s': Blocks, s: Blocks, lo: nat, i: nat)
    requires lo <= i && Removed(s', s, lo, i)
    ensures Removed(s' - {i}, s, lo, i + 1)
  {
  }

  lemma RemoveDone(s': Blocks, s: Blocks, lo: nat, hi: nat)
    requires Removed(s', s, lo, hi)
    ensures s' == Without(s, lo, hi)
  {
  }

  /** The tail of a block, from offset t on, zeroed. */
  function ZeroTail(x: seq<byte>, t: nat): (r: seq<byte>)
    requires t <= |x|
    ensures |r| == |x|
  {
    seq(|x|, j requires 0 <= j < |x| => if j < t then x[j] else 0)
  }

  lemma DroppedAll(s: Blocks, lo: nat, hi: nat)
    requires forall b :: b in s ==> b < hi
    ensures Without(s, lo, hi) == DropFrom(s, lo)
  {
  }

  /** The block holding position n with everything from n on zeroed, if it is stored. */
  function TailZeroed(s: Blocks, n: nat): Blocks {
    var t, last := n % BLOCK_SIZE, n / BLOCK_SIZE;
    if t > 0 && last in s && t < |s[last]| then s[last := ZeroTail(s[last], t)] else s
  }

  /** What truncation to n leaves: later blocks gone, the tail of the last kept one zero. */
  function Truncated(s: Blocks, n: nat): Blocks { TailZeroed(DropFrom(s, CeilBlocks(n)), n) }

  /** Shrinking a file cuts its content; growing one extends it with zeros. */
  lemma TruncateResizes(s: Blocks, size: nat, blocks: nat, n: nat)
    requires Ok(s, size, blocks)
    ensures n < size ==> Ok(Truncated(s, n), n, CeilBlocks(n))
    ensures n < size ==> Denote(Truncated(s, n), n) == Resize(Denote(s, size), n)
    ensures n >= size ==> Ok(s, n, CeilBlocks(n))
    ensures n >= size ==> Denote(s, n) == Resize(Denote(s, size), n)
  {
    if n < size {
      TruncatedBytes(s, n);
      var s' := Truncated(s, n);
      assert forall i: nat :: i < n ==> ByteAt(s', i) == Resize(Denote(s, size), n)[i];
      forall b | b in s' ensures b < CeilBlocks(n) && |s'[b]| == BLOCK_SIZE {
        assert b in s && |s'[b]| == |s[b]|;
      }
    } else {
      assert CeilBlocks(size) <= CeilBlocks(n);
      assert forall i: nat :: i < n ==> ByteAt(s, i) == Resize(Denote(s, size), n)[i];
    }
  }

  lemma TruncatedBytes(s: Blocks, n: nat)
    ensures forall i: nat :: ByteAt(Truncated(s, n), i) == if i < n then ByteAt(s, i) else 0
  {
    var kept := DropFrom(s, CeilBlocks(n));
    var t, last := n % BLOCK_SIZE, n / BLOCK_SIZE;
    forall i: nat ensures ByteAt(Truncated(s, n), i) == if i < n then ByteAt(s, i) else 0 {
      if t > 0 && last in kept && t < |kept[last]| {
        PutBlock(kept, last, ZeroTail(kept[last], t), i);
      }
      if i < n { assert i / BLOCK_SIZE < CeilBlocks(n); }
    }
  }

  lemma LastKeptBlock(n: nat)
    ensures n % BLOCK_SIZE > 0 ==> CeilBlocks(n) == n / BLOCK_SIZE + 1
  {
  }

  /** The n bytes of a sparse file from position at on. */
  function BytesAt(s: Blocks, at: nat, n: nat): (p: seq<byte>)
    ensures |p| == n
    ensures forall j :: 0 <= j < n ==> p[j] == ByteAt(s, at + j)
  {
    seq(n, j requires 0 <= j < n => ByteAt(s, at + j))
  }

  lemma BytesOfDenotation(s: Blocks, size: nat, at: nat, n: nat)
    requires at + n <= size
    ensures BytesAt(s, at, n) == Denote(s, size)[at..at + n]
  {
  }

  lemma BytesJoin(s: Blocks, at: nat, n: nat, m: nat)
    ensures BytesAt(s, at, n) + BytesAt(s, at + n, m) == BytesAt(s, at, n + m)
  {
  }

  /** A block handed to the reader, holes and short blocks as zeros, holds the file's bytes. */
  lemma BlockBytes(s: Blocks, b: nat, blockOff: nat, n: nat, piece: seq<byte>)
    requires blockOff + n <= BLOCK_SIZE && |piece| == n
    requires if b !in s || |s[b]| <= blockOff then forall j :: 0 <= j < n ==> piece[j] == 0
             else blockOff + n <= |s[b]| && piece == s[b][blockOff..blockOff + n]
    ensures piece == BytesAt(s, b * BLOCK_SIZE + blockOff, n)
  {
    var at := b * BLOCK_SIZE + blockOff;
    forall j | 0 <= j < n ensures piece[j] == ByteAt(s, at + j) {
      assert (at + j) / BLOCK_SIZE == b && (at + j) % BLOCK_SIZE == blockOff + j;
    }
  }

  lemma OverlayAtEnd(c: seq<byte>, data: seq<byte>)
    ensures Overlay(c, |c|, data) == c + data
  {
  }

  /** No hole below block k. */
  predicate DenseBelow(s: Blocks, k: nat) { forall b :: 0 <= b < k ==> b in s }

  /** The first missing block at or after lo; blocks at or past hi are missing. */
  function FirstHole(s: Blocks, lo: nat, hi: nat): (k: nat)
    requires lo <= hi
    ensures lo <= k <= hi
    ensures forall b :: lo <= b < k ==> b in s
    ensures k < hi ==> k !in s
    decreases hi - lo
  {
    if lo == hi || lo !in s then lo else FirstHole(s, lo + 1, hi)
  }
}
