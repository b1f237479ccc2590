/** uthash (src/uthash.h:138-173, 278-284, 397-477, 745-883): bucket chains and the list of
    elements in insertion order, both doubly linked and relinked in place, over a bucket array
    that doubles when a chain grows too long.  The hash value is an arbitrary function of the
    key; allocation always succeeds. */
module HashTable {
  import opened Sparse

  type Bytes = seq<byte>

  // ---- masks and shifts ----

  function Pow2(k: nat): (p: nat)
    ensures p > 0
  {
    if k == 0 then 1 else 2 * Pow2(k - 1)
  }

  /** Bitwise and. */
  function And(x: nat, y: nat): nat {
    if x == 0 || y == 0 then 0
    else (if x % 2 == 1 && y % 2 == 1 then 1 else 0) + 2 * And(x / 2, y / 2)
  }

  /** Shift right. */
  function Shr(x: nat, k: nat): nat { if k == 0 then x else Shr(x / 2, k - 1) }

  /** HASH_TO_BKT: masking with a power of two less one takes the remainder. */
  lemma {:induction false} MaskIsMod(x: nat, k: nat)
    ensures And(x, Pow2(k) - 1) == x % Pow2(k)
  {
    if k == 0 {
      assert Pow2(k) == 1 && And(x, 0) == 0;
    } else {
      hide And;
      var p := Pow2(k - 1);
      assert Pow2(k) == 2 * p;
      MaskIsMod(x / 2, k - 1);
      hide Pow2;
      HalfMod(x, p);
      MaskHalf(x, p);
    }
  }

  lemma MaskHalf(x: nat, p: nat)
    requires p > 0
    ensures And(x, 2 * p - 1) == x % 2 + 2 * And(x / 2, p - 1)
  {
    var y := 2 * p - 1;
    assert y / 2 == p - 1 && y % 2 == 1;
  }

  lemma HalfMod(x: nat, p: nat)
    requires p > 0
    ensures x / (2 * p) == x / 2 / p && x % (2 * p) == x % 2 + 2 * (x / 2 % p)
  {
    var q, r := x / 2 / p, x / 2 % p;
    DivMod(x / 2, p);
    MulDouble(p, q);
    DivUnique(x, 2 * p, q, x % 2 + 2 * r);
  }

  lemma MulDouble(p: nat, q: nat)
    ensures 2 * p * q == 2 * (p * q)
  {
  }

  lemma DivMod(x: nat, p: nat)
    requires p > 0
    ensures x == p * (x / p) + x % p
  {
  }

  lemma DivUnique(x: nat, m: nat, q: nat, r: nat)
    requires m > 0 && r < m && x == m * q + r
    ensures x / m == q && x % m == r
  {
    DivMod(x, m);
    var q', r' := x / m, x % m;
    MulGap(m, q, q');
    MulGap(m, q', q);
  }

  lemma MulGap(m: nat, a: nat, b: nat)
    requires m > 0
    ensures a < b ==> m * a + m <= m * b
  {
    if a < b {
      var d := b - a - 1;
      assert m * b == m * a + m + m * d;
    }
  }

  lemma {:induction false} ShrIsDiv(x: nat, k: nat)
    ensures Shr(x, k) == x / Pow2(k)
  {
    if k > 0 {
      ShrIsDiv(x / 2, k - 1);
      HalfMod(x, Pow2(k - 1));
    }
  }

  /** The ideal chain length as the code computes it. */
  function Ideal(items: nat, k: nat): nat {
    Shr(items, k) + if And(items, Pow2(k) - 1) != 0 then 1 else 0
  }

  predicate IsCeil(l: nat, items: nat, n: nat) { l * n >= items && (l > 0 ==> (l - 1) * n < items) }

  /** The shift-and-mask formula is the quotient rounded up. */
  lemma IdealIsCeil(items: nat, k: nat)
    ensures IsCeil(Ideal(items, k), items, Pow2(k))
  {
    ShrIsDiv(items, k);
    MaskIsMod(items, k);
    CeilOf(items, Pow2(k));
  }

  lemma CeilOf(items: nat, n: nat)
    requires n > 0
    ensures IsCeil(items / n + if items % n != 0 then 1 else 0, items, n)
  {
    DivMod(items, n);
    var q := items / n;
    Distribute(q, n);
    Distribute(q - 1, n);
  }

  lemma Distribute(q: int, n: nat)
    ensures (q + 1) * n == n * q + n && q * n == n * q
  {
  }

  // ---- the specification: entries in insertion order, and the map they stand for ----

  type Pairs = seq<(Bytes, Bytes)>

  predicate UniqueKeys(ps: Pairs) { forall i, j :: 0 <= i < j < |ps| ==> ps[i].0 != ps[j].0 }

  function MapOf(ps: Pairs): map<Bytes, Bytes> {
    if ps == [] then map[] else MapOf(ps[..|ps| - 1])[ps[|ps| - 1].0 := ps[|ps| - 1].1]
  }

  /** A map with exactly these entries. */
  ghost predicate Maps(m: map<Bytes, Bytes>, ps: Pairs) {
    && (forall k :: k in m ==> exists i :: 0 <= i < |ps| && ps[i].0 == k)
    && (forall i :: 0 <= i < |ps| ==> ps[i].0 in m && m[ps[i].0] == ps[i].1)
  }

  lemma {:induction false} MapOfMaps(ps: Pairs)
    requires UniqueKeys(ps)
    ensures Maps(MapOf(ps), ps)
  {
    if ps != [] {
      var front, last := ps[..|ps| - 1], ps[|ps| - 1];
      MapOfMaps(front);
      assert ps == front + [last];
      assert forall i :: 0 <= i < |front| ==> front[i] == ps[i];
      MapsAppend(MapOf(front), front, last.0, last.1);
    }
  }

  lemma MapsAppend(m: map<Bytes, Bytes>, ps: Pairs, k: Bytes, v: Bytes)
    requires Maps(m, ps) && forall i :: 0 <= i < |ps| ==> ps[i].0 != k
    ensures Maps(m[k := v], ps + [(k, v)])
  {
    var ps' := ps + [(k, v)];
    assert ps'[|ps|].0 == k;
    forall x | x in m ensures exists i :: 0 <= i < |ps'| && ps'[i].0 == x {
      var i :| 0 <= i < |ps| && ps[i].0 == x;
      assert ps'[i].0 == x;
    }
  }

  lemma MapsUnique(m: map<Bytes, Bytes>, m': map<Bytes, Bytes>, ps: Pairs)
    requires Maps(m, ps) && Maps(m', ps)
    ensures m == m'
  {
    forall k
      ensures k in m <==> k in m'
      ensures k in m && k in m' ==> m[k] == m'[k]
    {
      if k in m { var i :| 0 <= i < |ps| && ps[i].0 == k; }
      if k in m' { var i :| 0 <= i < |ps| && ps[i].0 == k; }
    }
  }

  function PairsWithout(ps: Pairs, i: nat): Pairs
    requires i < |ps|
  {
    ps[..i] + ps[i + 1..]
  }

  /** What the three changes to the entry list do to the map. */
  lemma AppendMaps(ps: Pairs, k: Bytes, v: Bytes)
    requires UniqueKeys(ps) && forall i :: 0 <= i < |ps| ==> ps[i].0 != k
    ensures UniqueKeys(ps + [(k, v)]) && k !in MapOf(ps)
    ensures MapOf(ps + [(k, v)]) == MapOf(ps)[k := v]
  {
    var ps' := ps + [(k, v)];
    assert ps'[..|ps|] == ps;
    MapOfMaps(ps);
  }

  lemma UpdateMaps(ps: Pairs, i: nat, v: Bytes)
    requires UniqueKeys(ps) && i < |ps|
    ensures UniqueKeys(ps[i := (ps[i].0, v)]) && ps[i].0 in MapOf(ps)
    ensures MapOf(ps[i := (ps[i].0, v)]) == MapOf(ps)[ps[i].0 := v]
  {
    hide MapOf;
    var ps' := ps[i := (ps[i].0, v)];
    assert forall j :: 0 <= j < |ps'| ==> ps'[j].0 == ps[j].0;
    MapOfMaps(ps);
    MapOfMaps(ps');
    UpdatedMaps(MapOf(ps), ps, i, v);
    MapsUnique(MapOf(ps'), MapOf(ps)[ps[i].0 := v], ps');
  }

  lemma UpdatedMaps(m: map<Bytes, Bytes>, ps: Pairs, i: nat, v: Bytes)
    requires UniqueKeys(ps) && i < |ps| && Maps(m, ps)
    ensures Maps(m[ps[i].0 := v], ps[i := (ps[i].0, v)])
  {
    var ps' := ps[i := (ps[i].0, v)];
    forall k | k in m
      ensures exists j :: 0 <= j < |ps'| && ps'[j].0 == k
    {
      var j :| 0 <= j < |ps| && ps[j].0 == k;
      assert ps'[j].0 == k;
    }
  }

  lemma RemoveMaps(ps: Pairs, i: nat)
    requires UniqueKeys(ps) && i < |ps|
    ensures UniqueKeys(PairsWithout(ps, i)) && ps[i].0 in MapOf(ps)
    ensures MapOf(PairsWithout(ps, i)) == MapOf(ps) - {ps[i].0}
  {
    hide MapOf, PairsWithout;
    var ps' := PairsWithout(ps, i);
    PairsWithoutAt(ps, i);
    MapOfMaps(ps);
    MapOfMaps(ps');
    RemovedMaps(MapOf(ps), ps, i);
    MapsUnique(MapOf(ps'), MapOf(ps) - {ps[i].0}, ps');
  }

  lemma PairsWithoutAt(ps: Pairs, i: nat)
    requires i < |ps|
    ensures |PairsWithout(ps, i)| == |ps| - 1
    ensures forall j :: 0 <= j < |ps| - 1 ==> PairsWithout(ps, i)[j] == ps[if j < i then j else j + 1]
    ensures UniqueKeys(ps) ==> UniqueKeys(PairsWithout(ps, i))
  {
  }

  lemma RemovedMaps(m: map<Bytes, Bytes>, ps: Pairs, i: nat)
    requires UniqueKeys(ps) && i < |ps| && Maps(m, ps)
    ensures Maps(m - {ps[i].0}, PairsWithout(ps, i))
  {
    hide PairsWithout;
    var ps' := PairsWithout(ps, i);
    PairsWithoutAt(ps, i);
    forall k | k in m && k != ps[i].0
      ensures exists j :: 0 <= j < |ps'| && ps'[j].0 == k
    {
      var j :| 0 <= j < |ps| && ps[j].0 == k;
      assert ps'[if j < i then j else j - 1].0 == k;
    }
  }

  // ---- elements, chains and buckets ----

  /** The bucket of a hash value among n. */
  function Slot(hashv: nat, n: nat): (b: nat)
    requires n > 0
    ensures b < n
  {
    hashv % n
  }

  /** An element with its hash handle. */
  class Handle {
    const key: Bytes
    var value: Bytes
    const hashv: nat
    var prev: Handle?
    var next: Handle?
    var hhPrev: Handle?
    var hhNext: Handle?

    constructor (key: Bytes, value: Bytes, hashv: nat)
      ensures this.key == key && this.value == value && this.hashv == hashv
    {
      this.key, this.value, this.hashv := key, value, hashv;
      prev, next, hhPrev, hhNext := null, null, null, null;
    }
  }

  datatype Bucket = Bucket(head: Handle?, count: nat, expandMult: nat)

  ghost predicate Distinct(c: seq<Handle>) { forall i, j :: 0 <= i < j < |c| ==> c[i] != c[j] }

  ghost function At(c: seq<Handle>, i: int): Handle? { if 0 <= i < |c| then c[i] else null }

  /** The handles of a chain point at their neighbours. */
  ghost predicate Chained(c: seq<Handle>)
    reads c`hhPrev, c`hhNext
  {
    && (forall i {:trigger c[i].hhPrev} :: 0 <= i < |c| ==> c[i].hhPrev == At(c, i - 1))
    && (forall i {:trigger c[i].hhNext} :: 0 <= i < |c| ==> c[i].hhNext == At(c, i + 1))
  }

  /** A bucket holds exactly this chain. */
  ghost predicate Holds(bk: Bucket, c: seq<Handle>)
    reads c`hhPrev, c`hhNext
  {
    Distinct(c) && Chained(c) && bk.count == |c| && bk.head == At(c, 0)
  }

  /** Every element of a chain belongs to that bucket, and is one of the given elements. */
  ghost predicate Homed(cs: seq<seq<Handle>>, all: set<Handle>) {
    forall a, h :: 0 <= a < |cs| && h in cs[a] ==> h in all && Slot(h.hashv, |cs|) == a
  }

  ghost predicate HoldAll(bs: seq<Bucket>, cs: seq<seq<Handle>>, all: set<Handle>)
    reads all`hhPrev, all`hhNext
  {
    && |bs| == |cs| && Homed(cs, all)
    && forall a :: 0 <= a < |cs| ==> Holds(bs[a], cs[a])
  }

  ghost function Total(cs: seq<seq<Handle>>): nat { if cs == [] then 0 else |cs[0]| + Total(cs[1..]) }

  lemma {:induction false} TotalUpdate(cs: seq<seq<Handle>>, b: nat, c: seq<Handle>)
    requires b < |cs|
    ensures Total(cs[b := c]) == Total(cs) - |cs[b]| + |c|
  {
    if b == 0 {
      assert cs[b := c][1..] == cs[1..];
    } else {
      assert cs[b := c][1..] == cs[1..][b - 1 := c];
      TotalUpdate(cs[1..], b - 1, c);
    }
  }

  /** The linking part of HASH_ADD_TO_BKT and of the loop in HASH_EXPAND_BUCKETS: an element
      becomes the head of a bucket. */
  method LinkFront(bk: Bucket, h: Handle, ghost c: seq<Handle>) returns (bk': Bucket)
    requires Holds(bk, c) && h !in c
    modifies h`hhPrev, h`hhNext, c`hhPrev
    ensures bk' == Bucket(h, bk.count + 1, bk.expandMult) && Holds(bk', [h] + c)
  {
    h.hhNext := bk.head;
    h.hhPrev := null;
    if bk.head != null { bk.head.hhPrev := h; }
    bk' := Bucket(h, bk.count + 1, bk.expandMult);
    PushedShape(h, c);
    ghost var c' := [h] + c;
    assert forall i {:trigger c'[i]} :: 1 <= i < |c'| ==> c'[i] == c[i - 1] && c[i - 1].hhNext == old(c[i - 1].hhNext);
    assert forall i {:trigger c'[i]} :: 2 <= i < |c'| ==> c[i - 1].hhPrev == old(c[i - 1].hhPrev);
  }

  lemma PushedShape(h: Handle, c: seq<Handle>)
    requires Distinct(c) && h !in c
    ensures Distinct([h] + c)
    ensures At([h] + c, 0) == h && At([h] + c, -1) == null
    ensures forall i :: 0 < i ==> At([h] + c, i) == At(c, i - 1)
  {
  }

  lemma HoldsHead(bk: Bucket, c: seq<Handle>)
    requires Holds(bk, c)
    ensures bk.head == At(c, 0) && bk.count == |c| && Distinct(c)
  {
  }

  lemma HomedApart(cs: seq<seq<Handle>>, all: set<Handle>, a: nat, b: nat)
    requires Homed(cs, all) && a < |cs| && b < |cs| && a != b
    ensures forall i :: 0 <= i < |cs[a]| ==> cs[a][i] in all && cs[a][i] !in cs[b]
  {
    HomeOf(cs, all, a);
    HomeOf(cs, all, b);
    hide Homed, Slot;
  }

  method PushFront(bs: array<Bucket>, b: nat, h: Handle, ghost cs: seq<seq<Handle>>, ghost all: set<Handle>)
    requires b < bs.Length && HoldAll(bs[..], cs, all) && b == Slot(h.hashv, |cs|)
    requires h !in all
    modifies bs, h`hhPrev, h`hhNext, cs[b]`hhPrev
    ensures HoldAll(bs[..], cs[b := [h] + cs[b]], all + {h})
    ensures forall a :: 0 <= a < bs.Length ==> bs[a].expandMult == old(bs[a].expandMult)
    ensures forall a :: 0 <= a < bs.Length && a != b ==> bs[a] == old(bs[a])
    ensures bs[b].count == old(bs[b].count) + 1
  {
    hide Holds;
    ghost var c := cs[b];
    assert Holds(bs[b], c);
    HoldsHead(bs[b], c);
    var bk := LinkFront(bs[b], h, c);
    forall a | 0 <= a < |cs| && a != b
      ensures Holds(bs[a], cs[a])
    {
      ghost var d := cs[a];
      assert old(Holds(bs[a], d));
      HomedApart(cs, all, a, b);
    }
    bs[b] := bk;
    assert Homed(cs[b := [h] + c], all + {h});
  }

  ghost function Cut(c: seq<Handle>, k: nat): seq<Handle>
    requires k < |c|
  {
    c[..k] + c[k + 1..]
  }

  lemma CutShape(c: seq<Handle>, k: nat)
    requires Distinct(c) && k < |c|
    ensures Distinct(Cut(c, k)) && |Cut(c, k)| == |c| - 1
    ensures forall i :: i < k ==> At(Cut(c, k), i) == At(c, i)
    ensures forall i :: k <= i ==> At(Cut(c, k), i) == At(c, i + 1)
    ensures forall i :: 0 <= i < k ==> Cut(c, k)[i] == c[i]
    ensures forall i :: k <= i < |c| - 1 ==> Cut(c, k)[i] == c[i + 1]
    ensures forall x :: x in Cut(c, k) <==> x in c && x != c[k]
  {
    var c' := Cut(c, k);
    assert forall i :: 0 <= i < |c'| ==> c'[i] == c[if i < k then i else i + 1];
    forall x | x in c && x != c[k]
      ensures x in c'
    {
      var i :| 0 <= i < |c| && c[i] == x;
      assert c'[if i < k then i else i - 1] == x;
    }
  }

  /** HASH_DEL_IN_BKT: the neighbours of an element are joined. */
  method Unlink(bk: Bucket, h: Handle, ghost c: seq<Handle>, ghost k: nat) returns (bk': Bucket)
    requires Holds(bk, c) && k < |c| && c[k] == h
    modifies c`hhPrev, c`hhNext
    ensures bk'.count == bk.count - 1 && bk'.expandMult == bk.expandMult
    ensures Holds(bk', Cut(c, k))
  {
    bk' := bk.(count := bk.count - 1);
    if bk.head == h { bk' := bk'.(head := h.hhNext); }
    if h.hhPrev != null { h.hhPrev.hhNext := h.hhNext; }
    if h.hhNext != null { h.hhNext.hhPrev := h.hhPrev; }
    CutShape(c, k);
    ghost var c' := Cut(c, k);
    assert forall i {:trigger c'[i]} :: 0 <= i < k ==> c'[i] == c[i] && (i + 1 < k ==> c[i].hhNext == old(c[i].hhNext)) && c[i].hhPrev == old(c[i].hhPrev);
    assert forall i {:trigger c'[i]} :: k <= i < |c'| ==> c'[i] == c[i + 1] && c[i + 1].hhNext == old(c[i + 1].hhNext) && (i > k ==> c[i + 1].hhPrev == old(c[i + 1].hhPrev));
  }

  method RemoveFrom(bs: array<Bucket>, b: nat, h: Handle, ghost cs: seq<seq<Handle>>, ghost all: set<Handle>, ghost k: nat)
    requires b < bs.Length && HoldAll(bs[..], cs, all)
    requires k < |cs[b]| && cs[b][k] == h
    modifies bs, cs[b]`hhPrev, cs[b]`hhNext
    ensures HoldAll(bs[..], cs[b := Cut(cs[b], k)], all - {h})
    ensures forall a :: 0 <= a < bs.Length ==> bs[a].expandMult == old(bs[a].expandMult)
    ensures forall a :: 0 <= a < bs.Length ==> bs[a].count <= old(bs[a].count)
  {
    hide Holds;
    ghost var c := cs[b];
    assert Holds(bs[b], c);
    HoldsHead(bs[b], c);
    assert h in c;
    var bk := Unlink(bs[b], h, c, k);
    forall a | 0 <= a < |cs| && a != b
      ensures Holds(bs[a], cs[a])
    {
      ghost var d := cs[a];
      assert old(Holds(bs[a], d));
      HomedApart(cs, all, a, b);
    }
    bs[b] := bk;
    CutShape(c, k);
    HomedCut(cs, all, b, k);
  }

  lemma HomedCut(cs: seq<seq<Handle>>, all: set<Handle>, b: nat, k: nat)
    requires Homed(cs, all) && b < |cs| && k < |cs[b]| && Distinct(cs[b])
    ensures Homed(cs[b := Cut(cs[b], k)], all - {cs[b][k]})
  {
    var h := cs[b][k];
    CutShape(cs[b], k);
    assert h in cs[b];
    var cs' := cs[b := Cut(cs[b], k)];
    forall a, x | 0 <= a < |cs'| && x in cs'[a]
      ensures x in all - {h} && Slot(x.hashv, |cs'|) == a
    {
      if a == b {
        assert x in Cut(cs[b], k);
      }
      assert x in cs[a];
      assert Slot(h.hashv, |cs|) == b;
    }
  }

  /** Every one of the given elements is in the chain of its own bucket. */
  ghost predicate Complete(cs: seq<seq<Handle>>, all: set<Handle>) {
    |cs| > 0 && forall h :: h in all ==> h in cs[Slot(h.hashv, |cs|)]
  }

  /** The elements of the chains before i, and the first k of chain i. */
  ghost predicate Passed(cs: seq<seq<Handle>>, done: set<Handle>, i: nat, k: nat) {
    forall a, j :: 0 <= a < |cs| && 0 <= j < |cs[a]| ==> (cs[a][j] in done <==> a < i || (a == i && j < k))
  }

  /** The multiplier of a bucket that received so many elements, one by one. */
  function MultFor(count: nat, ideal: nat): nat {
    if count <= ideal then 0
    else
      var m := MultFor(count - 1, ideal);
      if count > m * ideal then m + 1 else m
  }

  ghost predicate Tallied(bs: seq<Bucket>, ideal: nat) {
    forall a :: 0 <= a < |bs| ==> bs[a].expandMult == MultFor(bs[a].count, ideal)
  }

  /** How many elements lie beyond the ideal length of their chain. */
  function Excess(bs: seq<Bucket>, ideal: nat): nat {
    if bs == [] then 0
    else (if bs[0].count > ideal then bs[0].count - ideal else 0) + Excess(bs[1..], ideal)
  }

  lemma {:induction false} ExcessStep(bs: seq<Bucket>, bs': seq<Bucket>, b: nat, ideal: nat)
    requires |bs'| == |bs| && b < |bs| && bs'[b].count == bs[b].count + 1
    requires forall a :: 0 <= a < |bs| && a != b ==> bs'[a] == bs[a]
    ensures Excess(bs', ideal) == Excess(bs, ideal) + if bs'[b].count > ideal then 1 else 0
  {
    if b == 0 {
      assert bs'[1..] == bs[1..];
    } else {
      ExcessStep(bs[1..], bs'[1..], b - 1, ideal);
    }
  }

  /** The multiplier bounds the chain. */
  lemma {:induction false} MultBound(count: nat, ideal: nat)
    requires ideal > 0
    ensures count <= (MultFor(count, ideal) + 1) * ideal
  {
    if count <= ideal {
      MulAtLeast(ideal, 1);
    } else {
      MultBound(count - 1, ideal);
      MultStep(count, MultFor(count - 1, ideal), ideal);
    }
  }

  lemma MulAtLeast(ideal: nat, m: nat)
    requires m > 0
    ensures m * ideal >= ideal
  {
  }

  lemma PassedOne(cs: seq<seq<Handle>>, all: set<Handle>, done: set<Handle>, i: nat, k: nat)
    requires Homed(cs, all) && Passed(cs, done, i, k) && i < |cs| && k < |cs[i]|
    requires forall a :: 0 <= a < |cs| ==> Distinct(cs[a])
    ensures Passed(cs, done + {cs[i][k]}, i, k + 1) && cs[i][k] in all && cs[i][k] !in done
  {
    var h := cs[i][k];
    forall a, j | 0 <= a < |cs| && 0 <= j < |cs[a]|
      ensures cs[a][j] == h <==> a == i && j == k
    {
      assert cs[a][j] in cs[a] && h in cs[i];
      assert Slot(cs[a][j].hashv, |cs|) == a && Slot(h.hashv, |cs|) == i;
      assert a == i && j < k ==> cs[i][j] != cs[i][k];
      assert a == i && j > k ==> cs[i][k] != cs[i][j];
    }
  }

  /** The count, multiplier and nonideal bookkeeping for one element, and its link. */
  method MoveOne(nb: array<Bucket>, b: nat, h: Handle, ideal: nat, ghost cs: seq<seq<Handle>>, ghost done: set<Handle>)
    returns (over: bool)
    requires b < nb.Length && HoldAll(nb[..], cs, done) && Complete(cs, done) && b == Slot(h.hashv, |cs|)
    requires h !in done && Tallied(nb[..], ideal) && ideal > 0
    modifies nb, h`hhPrev, h`hhNext, cs[b]`hhPrev
    ensures HoldAll(nb[..], cs[b := [h] + cs[b]], done + {h}) && Complete(cs[b := [h] + cs[b]], done + {h})
    ensures Tallied(nb[..], ideal)
    ensures Excess(nb[..], ideal) == Excess(old(nb[..]), ideal) + if over then 1 else 0
  {
    hide Holds, MultFor, Excess;
    ghost var bs := nb[..];
    PushFront(nb, b, h, cs, done);
    over := nb[b].count > ideal;
    MultNext(bs[b].count, ideal);
    label Pushed:
    if over && nb[b].count > nb[b].expandMult * ideal {
      nb[b] := nb[b].(expandMult := nb[b].expandMult + 1);
      HoldsMult(old@Pushed(nb[b]), nb[b], cs[b := [h] + cs[b]][b]);
    }
    CompletePush(cs, done, b, h);
    ExcessStep(bs, nb[..], b, ideal);
  }

  lemma MultNext(count: nat, ideal: nat)
    ensures var m := MultFor(count, ideal);
      MultFor(count + 1, ideal) == if count + 1 > ideal && count + 1 > m * ideal then m + 1 else m
  {
  }

  lemma MultStep(count: nat, mult: nat, ideal: nat)
    requires ideal > 0 && 0 < count <= (mult + 1) * ideal + 1
    ensures count > mult * ideal ==> count <= (mult + 2) * ideal
    ensures count <= mult * ideal ==> count <= (mult + 1) * ideal
  {
    assert (mult + 1) * ideal == mult * ideal + ideal && (mult + 2) * ideal == mult * ideal + 2 * ideal;
  }

  lemma HoldsMult(bk: Bucket, bk': Bucket, c: seq<Handle>)
    requires Holds(bk, c) && bk'.head == bk.head && bk'.count == bk.count
    ensures Holds(bk', c)
  {
  }

  lemma CompletePush(cs: seq<seq<Handle>>, done: set<Handle>, b: nat, h: Handle)
    requires Complete(cs, done) && b < |cs| && b == Slot(h.hashv, |cs|)
    ensures Complete(cs[b := [h] + cs[b]], done + {h})
  {
  }

  lemma IdealPositive(items: nat, k: nat)
    requires items > 0
    ensures Ideal(items, k) > 0
  {
    hide Ideal;
    IdealIsCeil(items, k);
  }

  lemma {:induction false} TotalEmpty(cs: seq<seq<Handle>>)
    requires forall a :: 0 <= a < |cs| ==> cs[a] == []
    ensures Total(cs) == 0
  {
    if cs != [] { TotalEmpty(cs[1..]); }
  }

  lemma EmptyBuckets(bs: seq<Bucket>, cs: seq<seq<Handle>>, ideal: nat)
    requires |bs| == |cs| > 0 && forall a :: 0 <= a < |cs| ==> cs[a] == [] && bs[a] == Bucket(null, 0, 0)
    ensures Rehashed(bs, cs, {}, ideal, 0)
  {
    TotalEmpty(cs);
    NoExcess(bs, ideal);
  }

  lemma RehashedParts(bs: seq<Bucket>, cs: seq<seq<Handle>>, done: set<Handle>, ideal: nat, nonideal: nat)
    requires Rehashed(bs, cs, done, ideal, nonideal)
    ensures HoldAll(bs, cs, done) && Complete(cs, done) && Total(cs) == |done| && |bs| == |cs|
    ensures Tallied(bs, ideal) && nonideal == Excess(bs, ideal)
  {
  }

  lemma {:induction false} NoExcess(bs: seq<Bucket>, ideal: nat)
    requires forall a :: 0 <= a < |bs| ==> bs[a].count == 0
    ensures Excess(bs, ideal) == 0
  {
    if bs != [] { NoExcess(bs[1..], ideal); }
  }

  lemma OldChains(bs: seq<Bucket>, cs: seq<seq<Handle>>, all: set<Handle>)
    requires HoldAll(bs, cs, all)
    ensures forall a :: 0 <= a < |cs| ==> bs[a].head == At(cs[a], 0) && Distinct(cs[a])
    ensures forall a, j {:trigger cs[a][j]} :: 0 <= a < |cs| && 0 <= j < |cs[a]| ==> cs[a][j].hhNext == At(cs[a], j + 1)
  {
    forall a, j | 0 <= a < |cs| && 0 <= j < |cs[a]|
      ensures cs[a][j].hhNext == At(cs[a], j + 1)
    {
      assert Holds(bs[a], cs[a]);
    }
  }

  lemma PassedChain(cs: seq<seq<Handle>>, done: set<Handle>, i: nat, k: nat)
    requires i < |cs| && k == |cs[i]| && Passed(cs, done, i, k)
    ensures Passed(cs, done, i + 1, 0)
  {
  }

  lemma AllPassed(cs: seq<seq<Handle>>, done: set<Handle>, all: set<Handle>)
    requires Passed(cs, done, |cs|, 0) && Complete(cs, all) && done <= all
    ensures done == all
  {
    forall h | h in all
      ensures h in done
    {
      var a := Slot(h.hashv, |cs|);
      var j :| 0 <= j < |cs[a]| && cs[a][j] == h;
      assert cs[a][j] in done;
    }
  }

  lemma HomeOf(cs: seq<seq<Handle>>, all: set<Handle>, a: nat)
    requires Homed(cs, all) && a < |cs|
    ensures forall h :: h in cs[a] ==> Slot(h.hashv, |cs|) == a
    ensures forall j :: 0 <= j < |cs[a]| ==> cs[a][j] in all && Slot(cs[a][j].hashv, |cs|) == a
  {
    assert forall j :: 0 <= j < |cs[a]| ==> cs[a][j] in cs[a];
  }

  lemma ChainMembers(bs: seq<Bucket>, cs: seq<seq<Handle>>, all: set<Handle>, b: nat)
    requires HoldAll(bs, cs, all) && b < |cs|
    ensures forall h :: h in cs[b] ==> h in all
  {
  }

  lemma BucketOf(hashv: nat, log2: nat)
    ensures And(hashv, Pow2(log2) - 1) == Slot(hashv, Pow2(log2))
  {
    MaskIsMod(hashv, log2);
  }

  ghost predicate Rehashed(nb: seq<Bucket>, ncs: seq<seq<Handle>>, done: set<Handle>, ideal: nat, nonideal: nat)
    reads done`hhPrev, done`hhNext
  {
    HoldAll(nb, ncs, done) && Complete(ncs, done) && Tallied(nb, ideal) && nonideal == Excess(nb, ideal) && Total(ncs) == |done|
  }

  /** One element goes to its new bucket. */
  method MoveHandle(nb: array<Bucket>, h: Handle, log2: nat, ideal: nat, ghost nonideal: nat, ghost ncs: seq<seq<Handle>>, ghost done: set<Handle>)
    returns (over: bool, ghost ncs': seq<seq<Handle>>)
    requires nb.Length == Pow2(log2) && Rehashed(nb[..], ncs, done, ideal, nonideal) && h !in done && ideal > 0
    modifies nb, h`hhPrev, h`hhNext, done`hhPrev
    ensures Rehashed(nb[..], ncs', done + {h}, ideal, nonideal + if over then 1 else 0)
  {
    hide Holds, Tallied, Excess, Homed, And, Pow2;
    var b := And(h.hashv, nb.Length - 1);
    BucketOf(h.hashv, log2);
    ChainMembers(nb[..], ncs, done, b);
    over := MoveOne(nb, b, h, ideal, ncs, done);
    TotalUpdate(ncs, b, [h] + ncs[b]);
    ncs' := ncs[b := [h] + ncs[b]];
  }

  /** The chain of one old bucket, element by element. */
  method MoveChain(head: Handle?, nb: array<Bucket>, log2: nat, ideal: nat, nonideal: nat,
                   ghost cs: seq<seq<Handle>>, ghost all: set<Handle>, ghost i: nat,
                   ghost ncs: seq<seq<Handle>>, ghost done: set<Handle>)
    returns (nonideal': nat, ghost ncs': seq<seq<Handle>>, ghost done': set<Handle>)
    requires nb.Length == Pow2(log2) && Rehashed(nb[..], ncs, done, ideal, nonideal) && ideal > 0
    requires done <= all && Homed(cs, all) && i < |cs| && Passed(cs, done, i, 0)
    requires forall a :: 0 <= a < |cs| ==> Distinct(cs[a])
    requires head == At(cs[i], 0)
    requires Threaded(cs[i])
    modifies nb, all`hhPrev, cs[i]`hhNext
    ensures Rehashed(nb[..], ncs', done', ideal, nonideal') && done' <= all && Passed(cs, done', i + 1, 0)
  {
    hide Rehashed, Homed, Passed;
    nonideal', ncs', done' := nonideal, ncs, done;
    var thh := head;
    ghost var k: nat := 0;
    while thh != null
      invariant k <= |cs[i]| && thh == At(cs[i], k)
      invariant Rehashed(nb[..], ncs', done', ideal, nonideal') && done' <= all && Passed(cs, done', i, k)
      invariant forall j :: k <= j < |cs[i]| ==> cs[i][j].hhNext == At(cs[i], j + 1)
      decreases |cs[i]| - k
    {
      PassedOne(cs, all, done', i, k);
      var nxt := thh.hhNext;
      var over;
      over, ncs' := MoveHandle(nb, thh, log2, ideal, nonideal', ncs', done');
      if over { nonideal' := nonideal' + 1; }
      done' := done' + {thh};
      k := k + 1;
      thh := nxt;
    }
    PassedChain(cs, done', i, k);
  }

  ghost predicate Threaded(c: seq<Handle>)
    reads c`hhNext
  {
    forall j :: 0 <= j < |c| ==> c[j].hhNext == At(c, j + 1)
  }

  /** The elements of the buckets from i on still have the given successors. */
  ghost predicate Kept(all: set<Handle>, n: nat, i: nat, nexts: map<Handle, Handle?>)
    reads all`hhNext
  {
    && n > 0 && all <= nexts.Keys
    && forall x: Handle {:trigger x in all} :: x in all && Slot(x.hashv, n) >= i ==> x.hhNext == nexts[x]
  }

  ghost predicate NextsOf(cs: seq<seq<Handle>>, nexts: map<Handle, Handle?>) {
    forall a, j {:trigger cs[a][j]} :: 0 <= a < |cs| && 0 <= j < |cs[a]| ==>
      cs[a][j] in nexts && nexts[cs[a][j]] == At(cs[a], j + 1)
  }

  lemma Successors(bs: seq<Bucket>, cs: seq<seq<Handle>>, all: set<Handle>, nexts: map<Handle, Handle?>)
    requires HoldAll(bs, cs, all) && nexts == map x | x in all :: x.hhNext
    ensures |bs| == |cs| && Homed(cs, all) && NextsOf(cs, nexts)
    ensures forall a :: 0 <= a < |cs| ==> bs[a].head == At(cs[a], 0) && Distinct(cs[a])
  {
    OldChains(bs, cs, all);
    forall a, j {:trigger cs[a][j]} | 0 <= a < |cs| && 0 <= j < |cs[a]|
      ensures cs[a][j] in nexts && nexts[cs[a][j]] == At(cs[a], j + 1)
    {
      assert cs[a][j] in cs[a];
    }
  }

  lemma StillThreaded(cs: seq<seq<Handle>>, all: set<Handle>, i: nat, nexts: map<Handle, Handle?>)
    requires Homed(cs, all) && i < |cs| && Kept(all, |cs|, i, nexts) && NextsOf(cs, nexts)
    ensures Threaded(cs[i])
    ensures forall x :: x in cs[i] ==> Slot(x.hashv, |cs|) == i
  {
    HomeOf(cs, all, i);
  }

  /** HASH_EXPAND_BUCKETS: twice as many buckets, every element moved to the one it now
      belongs to. */
  method ExpandBuckets(bs: array<Bucket>, items: nat, log2: nat, ghost cs: seq<seq<Handle>>, ghost all: set<Handle>)
    returns (nb: array<Bucket>, ideal: nat, nonideal: nat, ghost ncs: seq<seq<Handle>>)
    requires bs.Length == Pow2(log2) && HoldAll(bs[..], cs, all) && Complete(cs, all)
    requires items == |all| > 0
    modifies all`hhPrev, all`hhNext
    ensures fresh(nb) && nb.Length == Pow2(log2 + 1)
    ensures Rehashed(nb[..], ncs, all, ideal, nonideal)
    ensures ideal == Ideal(items, log2 + 1) > 0
  {
    hide Rehashed, HoldAll, Holds, Ideal, Passed, Slot, At, Distinct;
    var n := bs.Length;
    assert |cs| == n by { HoldsMany(bs[..], cs, all); }
    ideal := Ideal(items, log2 + 1);
    IdealPositive(items, log2 + 1);
    nb := new Bucket[2 * n](_ => Bucket(null, 0, 0));
    ncs := seq(2 * n, _ => []);
    EmptyBuckets(nb[..], ncs, ideal);
    ghost var done: set<Handle>;
    nonideal, ncs, done := MoveAll(bs, nb, log2 + 1, ideal, cs, all, ncs);
    AllPassed(cs, done, all);
  }

  lemma HoldsMany(bs: seq<Bucket>, cs: seq<seq<Handle>>, all: set<Handle>)
    requires HoldAll(bs, cs, all)
    ensures |bs| == |cs|
  {
  }

  lemma NothingPassed(cs: seq<seq<Handle>>)
    ensures Passed(cs, {}, 0, 0)
  {
  }

  method MoveAll(bs: array<Bucket>, nb: array<Bucket>, log2: nat, ideal: nat, ghost cs: seq<seq<Handle>>,
                 ghost all: set<Handle>, ghost ncs: seq<seq<Handle>>)
    returns (nonideal: nat, ghost ncs': seq<seq<Handle>>, ghost done: set<Handle>)
    requires bs != nb && nb.Length == Pow2(log2) && Rehashed(nb[..], ncs, {}, ideal, 0) && ideal > 0
    requires HoldAll(bs[..], cs, all) && |cs| > 0
    modifies nb, all`hhPrev, all`hhNext
    ensures Rehashed(nb[..], ncs', done, ideal, nonideal) && done <= all && Passed(cs, done, |cs|, 0)
  {
    NothingPassed(cs);
    hide Passed, Rehashed, HoldAll, Homed, NextsOf, Slot, At, Distinct, Pow2, Holds;
    nonideal, ncs', done := 0, ncs, {};
    var i := 0;
    var n := bs.Length;
    ghost var nexts := map x | x in all :: x.hhNext;
    Successors(bs[..], cs, all, nexts);
    while i < n
      invariant 0 <= i <= n && bs[..] == old(bs[..])
      invariant Rehashed(nb[..], ncs', done, ideal, nonideal) && done <= all && Passed(cs, done, i, 0)
      invariant Kept(all, n, i, nexts)
    {
      StillThreaded(cs, all, i, nexts);
      nonideal, ncs', done := MoveChain(bs[i].head, nb, log2, ideal, nonideal, cs, all, i, ncs', done);
      i := i + 1;
    }
  }

  // ---- the list in insertion order ----

  /** The elements point at their neighbours in insertion order. */
  ghost predicate Strung(c: seq<Handle>)
    reads c`prev, c`next
  {
    && Distinct(c)
    && (forall i {:trigger c[i].prev} :: 0 <= i < |c| ==> c[i].prev == At(c, i - 1))
    && (forall i {:trigger c[i].next} :: 0 <= i < |c| ==> c[i].next == At(c, i + 1))
  }

  ghost predicate Listed(head: Handle?, tail: Handle?, c: seq<Handle>)
    reads c`prev, c`next
  {
    Strung(c) && head == At(c, 0) && tail == At(c, |c| - 1)
  }

  lemma AppendShape(c: seq<Handle>, h: Handle)
    requires Distinct(c) && h !in c
    ensures Distinct(c + [h]) && At(c + [h], |c|) == h && At(c + [h], |c| + 1) == null
    ensures forall i :: i < |c| ==> At(c + [h], i) == At(c, i)
    ensures forall i :: 0 <= i < |c| ==> (c + [h])[i] == c[i] && At(c, i) == c[i]
  {
  }

  /** HASH_APPEND_LIST. */
  method AppendListed(tail: Handle, h: Handle, ghost c: seq<Handle>)
    requires c != [] && Strung(c) && tail == At(c, |c| - 1) && h !in c
    modifies h`prev, h`next, tail`next
    ensures Strung(c + [h])
  {
    hide Strung;
    hide At, Distinct;
    ghost var c' := c + [h];
    StrungAll(c);
    AppendShape(c, h);
    h.next := null;
    h.prev := tail;
    tail.next := h;
    forall i | 0 <= i < |c'|
      ensures c'[i].prev == At(c', i - 1) && c'[i].next == At(c', i + 1)
    {
      if i < |c| - 1 { assert c[i] != tail; }
    }
    StrungBy(c');
  }

  lemma StrungAll(c: seq<Handle>)
    requires Strung(c)
    ensures Distinct(c)
    ensures forall i {:trigger c[i]} :: 0 <= i < |c| ==> c[i].prev == At(c, i - 1) && c[i].next == At(c, i + 1)
    ensures forall i {:trigger c[i]} :: 0 <= i < |c| - 1 ==> c[i] != c[|c| - 1]
  {
    hide At;
  }

  lemma StrungBy(c: seq<Handle>)
    requires Distinct(c)
    requires forall i {:trigger c[i]} :: 0 <= i < |c| ==> c[i].prev == At(c, i - 1) && c[i].next == At(c, i + 1)
    ensures Strung(c)
  {
    hide At;
  }

  lemma StrungAt(c: seq<Handle>, k: nat)
    requires Strung(c) && k < |c|
    ensures c[k].prev == At(c, k - 1) && c[k].next == At(c, k + 1)
    ensures c[k].prev != c[k] && c[k].next != c[k]
    ensures (c[k].prev != null ==> c[k].prev in c) && (c[k].next != null ==> c[k].next in c)
  {
  }

  lemma StrungCut(c: seq<Handle>, k: nat, p: Handle?, n: Handle?)
    requires Distinct(c) && k < |c| && p == At(c, k - 1) && n == At(c, k + 1)
    requires forall j {:trigger c[j]} :: 0 <= j < |c| ==> c[j].prev == if c[j] == n then p else At(c, j - 1)
    requires forall j {:trigger c[j]} :: 0 <= j < |c| ==> c[j].next == if c[j] == p then n else At(c, j + 1)
    ensures Strung(Cut(c, k))
  {
    CutShape(c, k);
    DistinctNear(c, k);
    hide At, Cut, Distinct;
    var c' := Cut(c, k);
    forall i | 0 <= i < |c'|
      ensures c'[i].prev == At(c', i - 1) && c'[i].next == At(c', i + 1)
    {
      assert c'[i] == if i < k then c[i] else c[i + 1];
    }
    StrungBy(c');
  }

  lemma DistinctNear(c: seq<Handle>, k: nat)
    requires Distinct(c) && k < |c|
    ensures forall j :: 0 <= j < |c| ==> (c[j] == At(c, k - 1) <==> j == k - 1)
    ensures forall j :: 0 <= j < |c| ==> (c[j] == At(c, k + 1) <==> j == k + 1)
  {
  }

  /** The patch-up of the list in HASH_DELETE_HH. */
  method Unstring(h: Handle, ghost c: seq<Handle>, ghost k: nat)
    requires Strung(c) && k < |c| && c[k] == h
    modifies c`prev, c`next
    ensures Strung(Cut(c, k)) && h.prev == old(h.prev) && h.next == old(h.next)
  {
    hide Strung, Distinct, Cut, At;
    StrungAll(c);
    StrungAt(c, k);
    ghost var p, n := h.prev, h.next;
    if h.prev != null { h.prev.next := h.next; }
    if h.next != null { h.next.prev := h.prev; }
    assert forall j {:trigger c[j]} :: 0 <= j < |c| ==> c[j].prev == if c[j] == n then p else old(c[j].prev);
    assert forall j {:trigger c[j]} :: 0 <= j < |c| ==> c[j].next == if c[j] == p then n else old(c[j].next);
    StrungCut(c, k, p, n);
  }

  ghost function Elems(c: seq<Handle>): set<Handle> { set h | h in c }

  lemma {:induction false} ElemsCount(c: seq<Handle>)
    requires Distinct(c)
    ensures |Elems(c)| == |c|
  {
    if c != [] {
      ElemsCount(c[1..]);
      assert Elems(c) == {c[0]} + Elems(c[1..]);
      assert forall i :: 0 <= i < |c[1..]| ==> c[1..][i] == c[i + 1];
      assert c[0] !in Elems(c[1..]);
    }
  }

  // ---- the table ----

  const INITIAL_LOG2: nat := 5
  const BKT_CAPACITY_THRESH: nat := 10

  /** One more element takes the bucket of this hash value to its threshold. */
  predicate Overfull(bs: seq<Bucket>, hashv: nat)
    requires |bs| > 0
  {
    var bk := bs[Slot(hashv, |bs|)];
    bk.count + 1 >= (bk.expandMult + 1) * BKT_CAPACITY_THRESH
  }

  /** What bounds the chains while the table may still expand. */
  predicate ShortChains(bs: seq<Bucket>, ideal: nat) {
    forall a :: 0 <= a < |bs| ==> bs[a].count < (bs[a].expandMult + 1) * Max(BKT_CAPACITY_THRESH, ideal + 1)
  }

  lemma TalliedIsShort(bs: seq<Bucket>, ideal: nat)
    requires Tallied(bs, ideal) && ideal > 0
    ensures ShortChains(bs, ideal)
  {
    forall a | 0 <= a < |bs|
      ensures bs[a].count < (bs[a].expandMult + 1) * Max(BKT_CAPACITY_THRESH, ideal + 1)
    {
      MultBound(bs[a].count, ideal);
      MulBelow(bs[a].expandMult + 1, ideal, Max(BKT_CAPACITY_THRESH, ideal + 1));
    }
  }

  lemma MulBelow(m: nat, x: nat, y: nat)
    requires m > 0 && x < y
    ensures m * x < m * y
  {
  }

  lemma ShortPush(bs: seq<Bucket>, bs': seq<Bucket>, b: nat, ideal: nat)
    requires ShortChains(bs, ideal) && |bs'| == |bs| && b < |bs|
    requires forall a :: 0 <= a < |bs| && a != b ==> bs'[a] == bs[a]
    requires bs'[b].count < (bs'[b].expandMult + 1) * BKT_CAPACITY_THRESH
    ensures ShortChains(bs', ideal)
  {
    var m := bs'[b].expandMult + 1;
    var y := Max(BKT_CAPACITY_THRESH, ideal + 1);
    if BKT_CAPACITY_THRESH < y { MulBelow(m, BKT_CAPACITY_THRESH, y); }
  }

  lemma ShortRemove(bs: seq<Bucket>, bs': seq<Bucket>, ideal: nat)
    requires ShortChains(bs, ideal) && |bs'| == |bs|
    requires forall a :: 0 <= a < |bs| ==> bs'[a].count <= bs[a].count && bs'[a].expandMult == bs[a].expandMult
    ensures ShortChains(bs', ideal)
  {
    forall a | 0 <= a < |bs|
      ensures bs'[a].count < (bs'[a].expandMult + 1) * Max(BKT_CAPACITY_THRESH, ideal + 1)
    {
      assert bs[a].count < (bs[a].expandMult + 1) * Max(BKT_CAPACITY_THRESH, ideal + 1);
    }
  }

  /** The hash values are those of the keys, and no key occurs twice. */
  ghost predicate Keyed(c: seq<Handle>, hash: Bytes -> nat) {
    && (forall i :: 0 <= i < |c| ==> c[i].hashv == hash(c[i].key))
    && (forall i, j :: 0 <= i < j < |c| ==> c[i].key != c[j].key)
  }

  ghost function PairsOf(c: seq<Handle>): Pairs
    reads c`value
  {
    if c == [] then [] else PairsOf(c[..|c| - 1]) + [(c[|c| - 1].key, c[|c| - 1].value)]
  }

  lemma {:induction false} PairsAt(c: seq<Handle>)
    ensures |PairsOf(c)| == |c|
    ensures forall i :: 0 <= i < |c| ==> PairsOf(c)[i] == (c[i].key, c[i].value)
  {
    if c != [] { PairsAt(c[..|c| - 1]); }
  }

  lemma KeyedPairs(c: seq<Handle>, hash: Bytes -> nat)
    requires Keyed(c, hash)
    ensures UniqueKeys(PairsOf(c))
  {
    PairsAt(c);
  }

  lemma KeyedAppend(c: seq<Handle>, hash: Bytes -> nat, h: Handle)
    requires Keyed(c, hash) && h.hashv == hash(h.key)
    requires forall i :: 0 <= i < |c| ==> c[i].key != h.key
    ensures Keyed(c + [h], hash)
  {
  }

  lemma PairsAppend(c: seq<Handle>, h: Handle)
    ensures PairsOf(c + [h]) == PairsOf(c) + [(h.key, h.value)]
  {
    assert (c + [h])[..|c|] == c;
  }

  class Table {
    const hash: Bytes -> nat
    var head: Handle?
    var tail: Handle?
    var buckets: array<Bucket>
    var log2: nat
    var numItems: nat
    var idealChainMaxlen: nat
    var nonidealItems: nat
    var ineffExpands: nat
    var noexpand: bool
    ghost var order: seq<Handle>
    ghost var chains: seq<seq<Handle>>

    /** The buckets hold exactly these elements, each in the bucket its hash value names. */
    ghost predicate Stored(all: set<Handle>)
      reads `buckets, `chains, `log2, `idealChainMaxlen, `ineffExpands, `noexpand, buckets, all`hhPrev, all`hhNext
    {
      && buckets.Length == Pow2(log2) && log2 >= INITIAL_LOG2
      && HoldAll(buckets[..], chains, all) && Complete(chains, all) && Total(chains) == |all|
      && (noexpand <==> ineffExpands > 1)
    }

    ghost predicate Indexed(all: set<Handle>)
      reads `buckets, `chains, `log2, `idealChainMaxlen, `ineffExpands, `noexpand, buckets, all`hhPrev, all`hhNext
    {
      Stored(all) && (noexpand || ShortChains(buckets[..], idealChainMaxlen))
    }

    ghost function Items(): Pairs
      reads `order, order`value
    {
      PairsOf(order)
    }

    ghost predicate Valid()
      reads this, buckets, order
    {
      && Listed(head, tail, order) && Keyed(order, hash)
      && (order != [] ==> numItems == |order| && Indexed(Elems(order)))
    }

    constructor (hash: Bytes -> nat)
      ensures Valid() && Items() == [] && fresh(buckets) && this.hash == hash
    {
      this.hash := hash;
      head, tail, order, chains := null, null, [], [];
      buckets := new Bucket[0];
    }

    /** HASH_FIND. */
    method Find(key: Bytes) returns (out: Handle?)
      requires Valid()
      ensures out == null ==> forall i :: 0 <= i < |order| ==> order[i].key != key
      ensures out != null ==> out in order && out.key == key
    {
      out := null;
      if head != null {
        var hashv := hash(key);
        var b := And(hashv, Pow2(log2) - 1);
        BucketOf(hashv, log2);
        HeldChain(Elems(order), b);
        out := FindInBucket(buckets[b], key, hashv, chains[b]);
        if out == null {
          forall i | 0 <= i < |order|
            ensures order[i].key != key
          {
            assert order[i] in Elems(order);
          }
        }
      }
    }

    lemma HeldChain(all: set<Handle>, b: nat)
      requires Indexed(all) && b < buckets.Length
      ensures |chains| == buckets.Length && Holds(buckets[b], chains[b])
      ensures forall h :: h in chains[b] ==> h in all
    {
    }

    /** HASH_FIND_IN_BKT: along the chain to the first element with this hash value and key. */
    static method FindInBucket(bk: Bucket, key: Bytes, hashv: nat, ghost c: seq<Handle>) returns (out: Handle?)
      requires Holds(bk, c)
      ensures out == null ==> forall i :: 0 <= i < |c| ==> c[i].hashv != hashv || c[i].key != key
      ensures out != null ==> out in c && out.key == key
    {
      out := bk.head;
      ghost var k: nat := 0;
      while out != null
        invariant k <= |c| && out == At(c, k)
        invariant forall i :: 0 <= i < k ==> c[i].hashv != hashv || c[i].key != key
        decreases |c| - k
      {
        if out.hashv == hashv && out.key == key { break; }
        out := out.hhNext;
        k := k + 1;
      }
    }

    /** HASH_EXPAND_BUCKETS and what it records: two expansions in a row that leave more than
        half the elements in overlong chains are the last. */
    method Expand(ghost all: set<Handle>)
      requires Stored(all) && numItems == |all| > 0 && !noexpand
      modifies `buckets, `chains, `log2, `idealChainMaxlen, `nonidealItems, `ineffExpands, `noexpand
      modifies all`hhPrev, all`hhNext
      ensures Indexed(all) && fresh(buckets)
      ensures log2 == old(log2) + 1 && idealChainMaxlen == Ideal(numItems, log2)
      ensures Tallied(buckets[..], idealChainMaxlen) && nonidealItems == Excess(buckets[..], idealChainMaxlen)
      ensures ineffExpands == if nonidealItems > numItems / 2 then old(ineffExpands) + 1 else 0
    {
      hide HoldAll, Complete, Ideal, Slot, Tallied, Excess, Rehashed, ShortChains, Overfull, Pow2, Shr, Total;
      var nb, ideal, nonideal;
      ghost var cs;
      nb, ideal, nonideal, cs := ExpandBuckets(buckets, numItems, log2, chains, all);
      buckets, chains, log2, idealChainMaxlen, nonidealItems := nb, cs, log2 + 1, ideal, nonideal;
      HalfIsShr(numItems);
      ineffExpands := if nonidealItems > Shr(numItems, 1) then ineffExpands + 1 else 0;
      if ineffExpands > 1 { noexpand := true; }
      RehashedParts(buckets[..], cs, all, ideal, nonideal);
      TalliedIsShort(buckets[..], ideal);
    }

    static lemma HalfIsShr(n: nat)
      ensures Shr(n, 1) == n / 2
    {
      ShrIsDiv(n, 1);
      assert Pow2(0) == 1;
    }

    /** The element becomes the head of the chain of bucket b. */
    method JoinBucket(h: Handle, b: nat, ghost all: set<Handle>)
      requires Stored(all) && h !in all && b < buckets.Length && b == Slot(h.hashv, buckets.Length)
      modifies `chains, buckets, h`hhPrev, h`hhNext, all`hhPrev, all`hhNext
      ensures Stored(all + {h})
      ensures forall a :: 0 <= a < buckets.Length && a != b ==> buckets[a] == old(buckets[a])
      ensures buckets[b].expandMult == old(buckets[b].expandMult) && buckets[b].count == old(buckets[b].count) + 1
    {
      hide Holds, Homed, Slot, Distinct, Pow2;
      HoldsMany(buckets[..], chains, all);
      ChainMembers(buckets[..], chains, all, b);
      hide HoldAll;
      PushFront(buckets, b, h, chains, all);
      TotalUpdate(chains, b, [h] + chains[b]);
      CompletePush(chains, all, b, h);
      chains := chains[b := [h] + chains[b]];
    }

    /** HASH_ADD_TO_BKT: the element joins its bucket, and a bucket grown to its threshold
        doubles the table. */
    method AddToBucket(h: Handle, ghost all: set<Handle>)
      requires Indexed(all) && h !in all && numItems == |all| + 1
      modifies `buckets, `chains, `log2, `idealChainMaxlen, `nonidealItems, `ineffExpands, `noexpand
      modifies buckets, h`hhPrev, h`hhNext, all`hhPrev, all`hhNext
      ensures Indexed(all + {h}) && (buckets == old(buckets) || fresh(buckets))
      ensures log2 == old(log2) + if Overfull(old(buckets[..]), h.hashv) && !old(noexpand) then 1 else 0
    {
      hide HoldAll, Complete, Total, Slot, ShortChains, Ideal, Tallied, Excess, Pow2;
      var b := And(h.hashv, Pow2(log2) - 1);
      BucketOf(h.hashv, log2);
      JoinBucket(h, b, all);
      var bk := buckets[b];
      if bk.count >= (bk.expandMult + 1) * BKT_CAPACITY_THRESH && !noexpand {
        Expand(all + {h});
      } else if !noexpand {
        ShortPush(old(buckets[..]), buckets[..], b, idealChainMaxlen);
      }
    }

    /** A zeroed bucket array. */
    static method ZeroedBuckets(n: nat) returns (bs: array<Bucket>)
      ensures fresh(bs) && bs.Length == n
      ensures forall a :: 0 <= a < n ==> bs[a] == Bucket(null, 0, 0)
    {
      bs := new Bucket[n](_ => Bucket(null, 0, 0));
    }

    /** HASH_MAKE_TABLE. */
    method MakeTable()
      modifies `buckets, `chains, `log2, `numItems, `idealChainMaxlen, `nonidealItems, `ineffExpands, `noexpand
      ensures Indexed({}) && fresh(buckets) && numItems == 0
    {
      hide Rehashed, HoldAll, Complete, Total, ShortChains;
      log2, numItems, idealChainMaxlen, nonidealItems, ineffExpands, noexpand := INITIAL_LOG2, 0, 0, 0, 0, false;
      buckets := ZeroedBuckets(Pow2(log2));
      chains := seq(Pow2(log2), _ => []);
      EmptyBuckets(buckets[..], chains, 0);
      RehashedParts(buckets[..], chains, {}, 0, 0);
      EmptyShort(buckets[..], 0);
    }

    static lemma EmptyShort(bs: seq<Bucket>, ideal: nat)
      requires forall a :: 0 <= a < |bs| ==> bs[a].count == 0
      ensures ShortChains(bs, ideal)
    {
    }

    /** The list part of HASH_ADD_KEYPTR. */
    method Append(h: Handle)
      requires Valid() && h !in order
      modifies this, order`next, h`prev, h`next
      ensures head != null && tail != null && Listed(head, tail, old(order) + [h])
      ensures order == old(order) && Indexed(Elems(order)) && numItems == |order|
      ensures buckets == old(buckets) || fresh(buckets)
    {
      hide Indexed, Distinct, Keyed;
      ghost var c := order;
      ListedCount(head, tail, c);
      EndsAppend(c, h);
      if head == null {
        h.next := null;
        h.prev := null;
        MakeTable();
        head := h;
        AloneStrung(h);
      } else {
        assert h !in Elems(c);
        hide Strung;
        AppendListed(tail, h, c);
      }
      tail := h;
    }

    /** HASH_ADD_KEYPTR: the element goes to the end of the list and into its bucket. */
    method Insert(h: Handle)
      requires Valid() && h !in order && h.hashv == hash(h.key)
      requires forall i :: 0 <= i < |order| ==> order[i].key != h.key
      modifies this, buckets, order`prev, order`next, order`hhPrev, order`hhNext
      modifies h`prev, h`next, h`hhPrev, h`hhNext
      ensures Valid() && order == old(order) + [h]
      ensures buckets == old(buckets) || fresh(buckets)
    {
      hide Indexed, Listed, Strung, Distinct, Keyed, At, Elems, Overfull, Slot, Pow2;
      ghost var c := order;
      KeyedAppend(c, hash, h);
      ListedCount(head, tail, c);
      ElemsAppend(c, h);
      Append(h);
      numItems := numItems + 1;
      AddToBucket(h, Elems(c));
      order := c + [h];
    }

    /** What the insertion means for the entries. */
    method Add(h: Handle)
      requires Valid() && h !in order && h.hashv == hash(h.key)
      requires forall i :: 0 <= i < |order| ==> order[i].key != h.key
      modifies this, buckets, order`prev, order`next, order`hhPrev, order`hhNext
      modifies h`prev, h`next, h`hhPrev, h`hhNext
      ensures Valid() && order == old(order) + [h]
      ensures Items() == old(Items()) + [(h.key, h.value)]
      ensures buckets == old(buckets) || fresh(buckets)
    {
      PairsAppend(order, h);
      hide Valid, PairsOf;
      Insert(h);
    }

    /** The bucket part of HASH_DELETE_HH. */
    method DeleteFromBucket(h: Handle, ghost all: set<Handle>)
      requires Indexed(all) && h in all
      modifies `chains, buckets, all`hhPrev, all`hhNext
      ensures Indexed(all - {h})
    {
      hide Holds, Homed, Slot, Distinct, ShortChains;
      var b := And(h.hashv, Pow2(log2) - 1);
      BucketOf(h.hashv, log2);
      HoldsMany(buckets[..], chains, all);
      HeldChain(all, b);
      ghost var c := chains[b];
      ghost var k: nat :| k < |c| && c[k] == h;
      assert Distinct(c) by { HoldsHead(buckets[b], c); }
      CompleteCut(chains, all, b, k);
      hide HoldAll;
      RemoveFrom(buckets, b, h, chains, all, k);
      CutShape(c, k);
      TotalUpdate(chains, b, Cut(c, k));
      chains := chains[b := Cut(c, k)];
      hide Complete;
      if !noexpand { ShortRemove(old(buckets[..]), buckets[..], idealChainMaxlen); }
    }

    /** The list part of HASH_DELETE_HH, for an element that is not the last. */
    method RemoveFromList(h: Handle, ghost k: nat)
      requires Valid() && k < |order| && order[k] == h
      modifies `head, `tail, order`prev, order`next
      ensures Listed(head, tail, Cut(order, k))
      ensures Indexed(Elems(order))
    {
      hide Indexed, Strung, Distinct, Keyed;
      ghost var c := order;
      EndsCut(head, tail, c, k);
      if h == tail { tail := h.prev; }
      if h.prev == null { head := h.next; }
      Unstring(h, c, k);
    }

    /** The else branch of HASH_DELETE_HH. */
    method DeleteOne(h: Handle, ghost k: nat)
      requires Valid() && k < |order| && order[k] == h && |order| > 1
      modifies this, buckets, order`prev, order`next, order`hhPrev, order`hhNext
      ensures Valid() && order == Cut(old(order), k) && buckets == old(buckets)
    {
      hide Indexed, Strung, Distinct, Keyed, At;
      ghost var c, d := order, Cut(order, k);
      ListedCount(head, tail, c);
      KeyedCut(c, hash, k);
      ElemsCut(c, k);
      ghost var all := Elems(d);
      assert all == Elems(c) - {h};
      RemoveFromList(h, k);
      DeleteFromBucket(h, Elems(c));
      numItems := numItems - 1;
      order := d;
      assert Indexed(all);
    }

    /** HASH_DELETE_HH: the last element takes the table with it. */
    method Delete(h: Handle) returns (ghost k: nat)
      requires Valid() && h in order
      modifies this, buckets, order`prev, order`next, order`hhPrev, order`hhNext
      ensures Valid()
      ensures k < |old(order)| && old(order)[k] == h && order == Cut(old(order), k)
      ensures k < |old(Items())| && Items() == PairsWithout(old(Items()), k)
      ensures buckets == old(buckets) || fresh(buckets)
    {
      hide Indexed, Strung, Distinct, Keyed, PairsOf, PairsWithout;
      ghost var c := order;
      ghost var i: nat :| i < |c| && c[i] == h;
      k := i;
      PairsCut(c, k);
      EndsCut(head, tail, c, k);
      if h.prev == null && h.next == null {
        KeyedCut(c, hash, k);
        head, tail, chains := null, null, [];
        buckets := new Bucket[0];
        order := [];
        EmptyStrung(order);
        assert Cut(c, k) == [];
      } else {
        DeleteOne(h, k);
      }
    }
  }

  lemma EmptyStrung(c: seq<Handle>)
    requires |c| == 0
    ensures Strung(c)
  {
  }

  lemma CompleteCut(cs: seq<seq<Handle>>, all: set<Handle>, b: nat, k: nat)
    requires Complete(cs, all) && b < |cs| && k < |cs[b]| && Distinct(cs[b])
    ensures Complete(cs[b := Cut(cs[b], k)], all - {cs[b][k]})
  {
    CutShape(cs[b], k);
  }

  lemma KeyedCut(c: seq<Handle>, hash: Bytes -> nat, k: nat)
    requires Keyed(c, hash) && k < |c|
    ensures Keyed(Cut(c, k), hash)
  {
    var c' := Cut(c, k);
    assert forall i :: 0 <= i < |c'| ==> c'[i] == c[if i < k then i else i + 1];
  }

  lemma CutAt(c: seq<Handle>, k: nat)
    requires k < |c|
    ensures |Cut(c, k)| == |c| - 1
    ensures forall i :: 0 <= i < |c| - 1 ==> Cut(c, k)[i] == c[if i < k then i else i + 1]
  {
  }

  lemma PairsCut(c: seq<Handle>, k: nat)
    requires k < |c|
    ensures k < |PairsOf(c)| && PairsOf(Cut(c, k)) == PairsWithout(PairsOf(c), k)
  {
    hide PairsOf;
    PairsAt(c);
    PairsAt(Cut(c, k));
    PairsWithoutAt(PairsOf(c), k);
    CutAt(c, k);
    hide Cut, PairsWithout;
    var ps, qs := PairsOf(Cut(c, k)), PairsWithout(PairsOf(c), k);
    assert |ps| == |qs| && forall i :: 0 <= i < |ps| ==> ps[i] == qs[i];
  }

  lemma ElemsCut(c: seq<Handle>, k: nat)
    requires Distinct(c) && k < |c|
    ensures Elems(Cut(c, k)) == Elems(c) - {c[k]} && c[k] in Elems(c)
    ensures |Cut(c, k)| == |c| - 1 == |Elems(c)| - 1
    ensures forall x :: x in Elems(c) <==> x in c
  {
    CutShape(c, k);
    ElemsCount(c);
  }

  /** The neighbours of an element, and the ends of the list once it is gone. */
  lemma EndsCut(head: Handle?, tail: Handle?, c: seq<Handle>, k: nat)
    requires Listed(head, tail, c) && k < |c|
    ensures c[k].prev == null <==> k == 0
    ensures c[k].next == null <==> k == |c| - 1
    ensures c[k] == tail <==> k == |c| - 1
    ensures At(Cut(c, k), 0) == if k == 0 then c[k].next else head
    ensures At(Cut(c, k), |Cut(c, k)| - 1) == if k == |c| - 1 then c[k].prev else tail
  {
    StrungAt(c, k);
    CutShape(c, k);
  }

  lemma ElemsAppend(c: seq<Handle>, h: Handle)
    ensures Elems(c + [h]) == Elems(c) + {h}
    ensures forall x :: x in Elems(c) <==> x in c
    ensures h !in c ==> h !in Elems(c)
  {
  }

  lemma EndsAppend(c: seq<Handle>, h: Handle)
    ensures At(c + [h], 0) == if c == [] then h else At(c, 0)
    ensures At(c + [h], |c + [h]| - 1) == h
  {
  }

  lemma AloneStrung(h: Handle)
    requires h.prev == null && h.next == null
    ensures Strung([] + [h])
  {
    assert [] + [h] == [h];
  }

  lemma ListedCount(head: Handle?, tail: Handle?, c: seq<Handle>)
    requires Listed(head, tail, c)
    ensures Distinct(c) && |Elems(c)| == |c| && (head == null <==> c == [])
    ensures c == [] ==> Elems(c) == {}
    ensures tail == At(c, |c| - 1)
  {
    ElemsCount(c);
  }
}
