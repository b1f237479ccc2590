/** The simulator's store (sim/kv_mem.c): entries in the hash table, and the sorted prefix list. */
module KvMem {
  import opened Sparse
  import opened HashTable

  // ---- byte order ----

  /** a and b agree below k, where a ends or has the smaller byte. */
  predicate LessAt(a: Bytes, b: Bytes, k: nat) {
    k <= |a| && k < |b| && a[..k] == b[..k] && (k == |a| || a[k] < b[k])
  }

  /** The order of bytes, a key before its extensions. */
  ghost predicate Less(a: Bytes, b: Bytes) { exists k: nat :: LessAt(a, b, k) }

  /** entry_cmp as written: the first difference within the shorter length, else the lengths. */
  method EntryCmp(a: Bytes, b: Bytes) returns (r: int)
    ensures r < 0 <==> Less(a, b)
    ensures r == 0 <==> a == b
    ensures r > 0 <==> Less(b, a)
  {
    hide Less;
    var minLen := if |a| < |b| then |a| else |b|;
    var i := 0;
    while i < minLen && a[i] == b[i]
      invariant 0 <= i <= minLen
      invariant a[..i] == b[..i]
    {
      assert a[..i + 1] == a[..i] + [a[i]] && b[..i + 1] == b[..i] + [b[i]];
      i := i + 1;
    }
    LessDecided(a, b, i);
    if i < minLen { return a[i] as int - b[i] as int; }
    if |a| < |b| { return -1; }
    if |a| > |b| { return 1; }
    return 0;
  }

  /** Where two keys stop to agree decides their order. */
  lemma LessDecided(a: Bytes, b: Bytes, i: nat)
    requires i <= |a| && i <= |b| && a[..i] == b[..i] && (i == |a| || i == |b| || a[i] != b[i])
    ensures Less(a, b) <==> i < |b| && (i == |a| || a[i] < b[i])
    ensures Less(b, a) <==> i < |a| && (i == |b| || b[i] < a[i])
    ensures a == b <==> i == |a| == |b|
  {
    assert i == |a| == |b| ==> a[..i] == a && b[..i] == b;
    DecidedOneWay(a, b, i);
    DecidedOneWay(b, a, i);
  }

  lemma DecidedOneWay(a: Bytes, b: Bytes, i: nat)
    requires i <= |a| && i <= |b| && a[..i] == b[..i] && (i == |a| || i == |b| || a[i] != b[i])
    ensures Less(a, b) <==> i < |b| && (i == |a| || a[i] < b[i])
  {
    if i < |b| && (i == |a| || a[i] < b[i]) {
      assert LessAt(a, b, i);
    }
    if k: nat :| LessAt(a, b, k) {
      assert forall j :: 0 <= j < i ==> a[j] == a[..i][j] && b[j] == b[..i][j];
      assert forall j :: 0 <= j < k ==> a[j] == a[..k][j] && b[j] == b[..k][j];
    }
  }

  /** What the order is on concrete keys: a smaller byte at the first difference comes first, and
      a key comes before its extensions. */
  lemma ByteOrder(c: Bytes, x: byte, y: byte, s: Bytes, t: Bytes)
    ensures x < y ==> Less(c + [x] + s, c + [y] + t) && !Less(c + [y] + t, c + [x] + s)
    ensures Less(c, c + [x] + s) && !Less(c + [x] + s, c)
  {
    hide Less;
    var a, b := c + [x] + s, c + [y] + t;
    assert a[..|c|] == c == b[..|c|] && a[|c|] == x && b[|c|] == y && c[..|c|] == c;
    if x < y { LessDecided(a, b, |c|); }
    LessDecided(c, a, |c|);
  }

  lemma LessIrreflexive(a: Bytes)
    ensures !Less(a, a)
  {
    DecidedOneWay(a, a, |a|);
  }

  lemma LessTrans(a: Bytes, b: Bytes, c: Bytes)
    requires Less(a, b) && Less(b, c)
    ensures Less(a, c)
  {
    var j: nat :| LessAt(a, b, j);
    var k: nat :| LessAt(b, c, k);
    var m := if j < k then j else k;
    assert a[..m] == a[..j][..m] == b[..j][..m] == b[..m];
    assert c[..m] == c[..k][..m] == b[..k][..m] == b[..m];
    if m < j { assert a[..j][m] == b[..j][m]; }
    if m < k { assert b[..k][m] == c[..k][m]; }
    assert LessAt(a, c, m);
  }

  // ---- sorted lists of entries ----

  ghost predicate Sorted(ps: Pairs) { forall i, j :: 0 <= i < j < |ps| ==> Less(ps[i].0, ps[j].0) }

  /** qsort, represented by insertion: it asks entry_cmp for every decision, and SortUnique shows
      that any other sort gives the same list. */
  method SortEntries(ps: Pairs) returns (r: Pairs)
    requires UniqueKeys(ps)
    ensures Sorted(r) && multiset(r) == multiset(ps)
  {
    r := [];
    for i := 0 to |ps|
      invariant Sorted(r) && multiset(r) == multiset(ps[..i])
    {
      KeyNew(ps, i, r);
      r := InsertEntry(ps[i], r);
      assert ps[..i + 1] == ps[..i] + [ps[i]];
    }
    assert ps[..|ps|] == ps;
  }

  lemma KeyNew(ps: Pairs, i: nat, r: Pairs)
    requires UniqueKeys(ps) && i < |ps| && multiset(r) == multiset(ps[..i])
    ensures forall j :: 0 <= j < |r| ==> r[j].0 != ps[i].0
  {
    forall j | 0 <= j < |r| ensures r[j].0 != ps[i].0 {
      assert r[j] in multiset(ps[..i]);
      var k :| 0 <= k < i && ps[..i][k] == r[j];
      assert ps[k].0 != ps[i].0;
    }
  }

  method InsertEntry(p: (Bytes, Bytes), ps: Pairs) returns (r: Pairs)
    requires Sorted(ps) && forall j :: 0 <= j < |ps| ==> ps[j].0 != p.0
    ensures Sorted(r) && multiset(r) == multiset(ps) + multiset{p}
  {
    hide Less;
    var i := 0;
    while i < |ps|
      invariant 0 <= i <= |ps|
      invariant forall j :: 0 <= j < i ==> Less(ps[j].0, p.0)
    {
      var c := EntryCmp(p.0, ps[i].0);
      if c < 0 { break; }
      i := i + 1;
    }
    if i < |ps| { BeforeRest(p, ps, i); }
    r := ps[..i] + [p] + ps[i..];
    Between(p, ps, i);
    assert ps == ps[..i] + ps[i..];
  }

  lemma BeforeRest(p: (Bytes, Bytes), ps: Pairs, i: nat)
    requires Sorted(ps) && i < |ps| && Less(p.0, ps[i].0)
    ensures forall j :: i <= j < |ps| ==> Less(p.0, ps[j].0)
  {
    hide Less;
    forall j | i < j < |ps| ensures Less(p.0, ps[j].0) {
      LessTrans(p.0, ps[i].0, ps[j].0);
    }
  }

  lemma Between(p: (Bytes, Bytes), ps: Pairs, i: nat)
    requires Sorted(ps) && i <= |ps|
    requires forall j :: 0 <= j < i ==> Less(ps[j].0, p.0)
    requires forall j :: i <= j < |ps| ==> Less(p.0, ps[j].0)
    ensures Sorted(ps[..i] + [p] + ps[i..])
  {
    hide Less;
    var r := ps[..i] + [p] + ps[i..];
    assert forall j :: 0 <= j < |r| ==> r[j] == if j < i then ps[j] else if j == i then p else ps[j - 1];
  }

  lemma SortedHead(ps: Pairs, qs: Pairs)
    requires Sorted(ps) && Sorted(qs) && multiset(ps) == multiset(qs) && ps != [] && qs != []
    ensures ps[0] == qs[0]
  {
    assert ps[0] in multiset(qs) && qs[0] in multiset(ps);
    var i :| 0 <= i < |qs| && qs[i] == ps[0];
    var j :| 0 <= j < |ps| && ps[j] == qs[0];
    if i > 0 && j > 0 {
      LessTrans(qs[0].0, qs[i].0, qs[0].0);
      LessIrreflexive(qs[0].0);
      assert false;
    }
  }

  /** Two sorted lists of the same entries are equal, so it does not matter in which order qsort
      compares. */
  lemma {:induction false} SortUnique(ps: Pairs, qs: Pairs)
    requires Sorted(ps) && Sorted(qs) && multiset(ps) == multiset(qs)
    ensures ps == qs
  {
    if ps == [] {
      assert |multiset(qs)| == 0;
    } else {
      assert |multiset(ps)| == |ps| && |multiset(qs)| == |qs|;
      SortedHead(ps, qs);
      assert ps == [ps[0]] + ps[1..] && qs == [qs[0]] + qs[1..];
      assert multiset(ps[1..]) == multiset(ps) - multiset{ps[0]};
      assert multiset(qs[1..]) == multiset(qs) - multiset{qs[0]};
      SortUnique(ps[1..], qs[1..]);
    }
  }

  // ---- prefix lists ----

  function Matching(ps: Pairs, prefix: Bytes): Pairs {
    if ps == [] then []
    else (if prefix <= ps[0].0 then [ps[0]] else []) + Matching(ps[1..], prefix)
  }

  lemma {:induction false} MatchingExact(ps: Pairs, prefix: Bytes)
    ensures forall p :: p in Matching(ps, prefix) <==> p in ps && prefix <= p.0
    ensures UniqueKeys(ps) ==> UniqueKeys(Matching(ps, prefix))
  {
    if ps != [] {
      var rest := ps[1..];
      assert forall i :: 0 <= i < |rest| ==> rest[i] == ps[i + 1];
      MatchingExact(rest, prefix);
      var ms := Matching(rest, prefix);
      assert ps == [ps[0]] + rest;
      if UniqueKeys(ps) {
        forall i | 0 <= i < |ms|
          ensures ms[i].0 != ps[0].0
        {
          assert ms[i] in rest;
        }
      }
    }
  }

  lemma {:induction false} MatchingSplit(ps: Pairs, qs: Pairs, prefix: Bytes)
    ensures Matching(ps + qs, prefix) == Matching(ps, prefix) + Matching(qs, prefix)
  {
    if ps == [] {
      assert ps + qs == qs;
    } else {
      assert (ps + qs)[1..] == ps[1..] + qs;
      MatchingSplit(ps[1..], qs, prefix);
    }
  }

  lemma MatchingStep(ps: Pairs, k: nat, prefix: Bytes)
    requires k < |ps|
    ensures Matching(ps[..k + 1], prefix) == Matching(ps[..k], prefix) + if prefix <= ps[k].0 then [ps[k]] else []
    ensures |Matching(ps[..k + 1], prefix)| <= |Matching(ps, prefix)|
  {
    assert ps[..k + 1] == ps[..k] + [ps[k]] && ps == ps[..k + 1] + ps[k + 1..];
    assert [ps[k]][1..] == [];
    assert Matching([ps[k]], prefix) == if prefix <= ps[k].0 then [ps[k]] else [];
    hide Matching;
    MatchingSplit(ps[..k], [ps[k]], prefix);
    MatchingSplit(ps[..k + 1], ps[k + 1..], prefix);
  }

  /** What a prefix list must be: every matching entry of the map once, in byte order. */
  ghost predicate Lists(r: Pairs, m: map<Bytes, Bytes>, prefix: Bytes) {
    && Sorted(r)
    && forall k, v :: (k, v) in r <==> k in m && m[k] == v && prefix <= k
  }

  lemma ListExact(ps: Pairs, prefix: Bytes, r: Pairs)
    requires UniqueKeys(ps) && Sorted(r) && multiset(r) == multiset(Matching(ps, prefix))
    ensures Lists(r, MapOf(ps), prefix)
  {
    hide MapOf, Matching, Sorted;
    MapOfMaps(ps);
    MatchingExact(ps, prefix);
    var ms, m := Matching(ps, prefix), MapOf(ps);
    forall k, v
      ensures (k, v) in r <==> k in m && m[k] == v && prefix <= k
    {
      assert (k, v) in r <==> (k, v) in multiset(r);
      assert (k, v) in ms <==> (k, v) in multiset(ms);
      MapsEntry(ps, m, k, v);
    }
  }

  lemma MapsEntry(ps: Pairs, m: map<Bytes, Bytes>, k: Bytes, v: Bytes)
    requires Maps(m, ps)
    ensures (k, v) in ps <==> k in m && m[k] == v
  {
    if k in m {
      var i :| 0 <= i < |ps| && ps[i].0 == k;
      assert ps[i] == (k, m[k]);
    }
  }

  /** The list is determined by the map: the order of insertion does not show. */
  lemma ListUnique(r: Pairs, s: Pairs, m: map<Bytes, Bytes>, prefix: Bytes)
    requires Lists(r, m, prefix) && Lists(s, m, prefix)
    ensures r == s
  {
    SortedOnce(r);
    SortedOnce(s);
    forall p: (Bytes, Bytes)
      ensures multiset(r)[p] == multiset(s)[p]
    {
      assert p == (p.0, p.1);
      assert (p.0, p.1) in r <==> (p.0, p.1) in s;
      assert p in multiset(r) <==> p in r;
      assert p in multiset(s) <==> p in s;
    }
    SortUnique(r, s);
  }

  lemma {:induction false} SortedOnce(r: Pairs)
    requires Sorted(r)
    ensures forall p :: p in multiset(r) ==> multiset(r)[p] == 1
  {
    if r != [] {
      var rest := r[1..];
      SortedOnce(rest);
      assert r == [r[0]] + rest;
      assert forall i :: 0 <= i < |rest| ==> rest[i] == r[i + 1];
      LessIrreflexive(r[0].0);
      forall i | 0 <= i < |rest|
        ensures rest[i] != r[0]
      {
        assert Less(r[0].0, r[i + 1].0);
      }
      assert r[0] !in multiset(rest);
    }
  }

  // ---- the store ----

  class Store {
    const table: Table

    ghost predicate Valid()
      reads this, table, table.buckets, table.order
    {
      table.Valid()
    }

    ghost function Contents(): map<Bytes, Bytes>
      reads table`order, table.order`value
    {
      MapOf(table.Items())
    }

    constructor (hash: Bytes -> nat)
      ensures Valid() && Contents() == map[] && fresh(table) && fresh(table.buckets)
    {
      table := new Table(hash);
    }

    lemma Entries()
      requires Valid()
      ensures UniqueKeys(table.Items()) && |table.Items()| == |table.order|
      ensures Maps(Contents(), table.Items())
      ensures forall i :: 0 <= i < |table.order| ==> table.Items()[i] == (table.order[i].key, table.order[i].value)
    {
      KeyedPairs(table.order, table.hash);
      PairsAt(table.order);
      MapOfMaps(table.Items());
    }

    lemma Missing(key: Bytes)
      requires Valid() && forall i :: 0 <= i < |table.order| ==> table.order[i].key != key
      ensures key !in Contents()
    {
      Entries();
    }

    lemma Present(h: Handle)
      requires Valid() && h in table.order
      ensures h.key in Contents() && Contents()[h.key] == h.value
    {
      Entries();
      var i :| 0 <= i < |table.order| && table.order[i] == h;
      assert table.Items()[i] == (h.key, h.value);
    }

    /** kv_mem_retrieve. */
    method Retrieve(key: Bytes) returns (found: bool, value: Bytes)
      requires Valid()
      ensures found <==> key in Contents()
      ensures found ==> value == Contents()[key]
    {
      hide Contents;
      value := [];
      var e := table.Find(key);
      found := e != null;
      if e == null {
        Missing(key);
      } else {
        Present(e);
        value := e.value;
      }
    }

    /** kv_mem_exist. */
    method Exist(key: Bytes) returns (found: bool)
      requires Valid()
      ensures found <==> key in Contents()
    {
      hide Contents;
      var e := table.Find(key);
      found := e != null;
      if e == null { Missing(key); } else { Present(e); }
    }

    lemma Unique()
      requires Valid()
      ensures UniqueKeys(table.Items())
    {
      KeyedPairs(table.order, table.hash);
    }

    /** kv_mem_store on an existing entry: its value changes, its place does not. */
    method SetValue(h: Handle, value: Bytes)
      requires Valid() && h in table.order
      modifies h`value
      ensures Valid() && Contents() == old(Contents())[h.key := value]
    {
      hide Table.Indexed, Listed, Keyed, PairsOf, MapOf, UniqueKeys;
      ghost var c, ps := table.order, table.Items();
      ghost var i: nat :| i < |c| && c[i] == h;
      Unique();
      AtOnce(c, i);
      PairsAt(c);
      h.value := value;
      PairsAt(c);
      assert table.Items() == ps[i := (ps[i].0, value)];
      UpdateMaps(ps, i, value);
    }

    lemma AtOnce(c: seq<Handle>, i: nat)
      requires Valid() && c == table.order && i < |c|
      ensures forall j :: 0 <= j < |c| && j != i ==> c[j] != c[i]
    {
      hide Table.Indexed;
    }

    /** kv_mem_store on a new key. */
    method PutNew(key: Bytes, value: Bytes)
      requires Valid() && forall i :: 0 <= i < |table.order| ==> table.order[i].key != key
      modifies table, table.buckets, table.order
      ensures Valid() && Contents() == old(Contents())[key := value]
      ensures table.buckets == old(table.buckets) || fresh(table.buckets)
      ensures forall h :: h in table.order ==> h in old(table.order) || fresh(h)
    {
      hide Table.Valid, Table.Items, MapOf, UniqueKeys;
      ghost var ps := table.Items();
      Unique();
      NoEntry(key);
      var h := new Handle(key, value, table.hash(key));
      table.Add(h);
      AppendMaps(ps, key, value);
    }

    lemma NoEntry(key: Bytes)
      requires Valid() && forall i :: 0 <= i < |table.order| ==> table.order[i].key != key
      ensures forall i :: 0 <= i < |table.Items()| ==> table.Items()[i].0 != key
    {
      Entries();
    }

    /** kv_mem_store. */
    method Put(key: Bytes, value: Bytes)
      requires Valid()
      modifies table, table.buckets, table.order
      ensures Valid() && Contents() == old(Contents())[key := value]
      ensures table.buckets == old(table.buckets) || fresh(table.buckets)
      ensures forall h :: h in table.order ==> h in old(table.order) || fresh(h)
    {
      hide Table.Valid, Contents;
      var e := table.Find(key);
      if e != null { SetValue(e, value); } else { PutNew(key, value); }
    }

    /** kv_mem_delete: deleting a missing key does nothing. */
    method Remove(key: Bytes)
      requires Valid()
      modifies table, table.buckets, table.order
      ensures Valid() && Contents() == old(Contents()) - {key}
      ensures table.buckets == old(table.buckets) || fresh(table.buckets)
      ensures forall h :: h in table.order ==> h in old(table.order)
    {
      hide Table.Valid, Contents;
      var e := table.Find(key);
      if e != null { RemoveEntry(e); } else { Missing(key); }
    }

    method RemoveEntry(h: Handle)
      requires Valid() && h in table.order
      modifies table, table.buckets, table.order
      ensures Valid() && Contents() == old(Contents()) - {h.key}
      ensures table.buckets == old(table.buckets) || fresh(table.buckets)
      ensures forall x :: x in table.order ==> x in old(table.order)
    {
      hide Table.Valid, MapOf, UniqueKeys, PairsOf, Cut, PairsWithout;
      ghost var ps, c := table.Items(), table.order;
      Unique();
      KeysAt();
      ghost var k := table.Delete(h);
      CutWithin(c, k);
      RemoveMaps(ps, k);
    }

    lemma KeysAt()
      ensures |table.Items()| == |table.order|
      ensures forall i :: 0 <= i < |table.order| ==> table.Items()[i].0 == table.order[i].key
    {
      PairsAt(table.order);
    }

    lemma CutWithin(c: seq<Handle>, k: nat)
      requires k < |c|
      ensures forall x :: x in Cut(c, k) ==> x in c
    {
    }

    lemma Walk(k: nat)
      requires Valid() && k < |table.order|
      ensures k < |table.Items()| && table.Items()[k] == (table.order[k].key, table.order[k].value)
      ensures table.order[k].next == At(table.order, k + 1)
    {
      PairsAt(table.order);
      StrungAt(table.order, k);
    }

    lemma Start()
      requires Valid()
      ensures |table.Items()| == |table.order| && table.head == At(table.order, 0)
    {
      PairsAt(table.order);
    }

    lemma AtIs(c: seq<Handle>, k: nat)
      requires k <= |c|
      ensures At(c, k) == if k < |c| then c[k] else null
    {
    }

    /** The first pass over the elements in insertion order. */
    method CountMatches(prefix: Bytes) returns (count: nat)
      requires Valid()
      ensures count == |Matching(table.Items(), prefix)|
    {
      hide Table.Valid, Table.Items, Matching;
      Start();
      ghost var ps := table.Items();
      var cur := table.head;
      ghost var k: nat := 0;
      count := 0;
      assert Matching(ps[..0], prefix) == [] by { NoMatches(ps[..0], prefix); }
      while cur != null
        invariant k <= |table.order| && cur == At(table.order, k)
        invariant count == |Matching(ps[..k], prefix)|
        decreases |table.order| - k
      {
        Walk(k);
        MatchingStep(ps, k, prefix);
        if prefix <= cur.key { count := count + 1; }
        cur := cur.next;
        k := k + 1;
      }
      assert ps[..k] == ps;
    }

    method CopyOne(cur: Handle, prefix: Bytes, entries: array<(Bytes, Bytes)>, idx: nat, ghost ps: Pairs, ghost k: nat)
      returns (idx': nat)
      requires k < |ps| && ps[k] == (cur.key, cur.value)
      requires idx <= entries.Length == |Matching(ps, prefix)| && entries[..idx] == Matching(ps[..k], prefix)
      modifies entries
      ensures idx' <= entries.Length && entries[..idx'] == Matching(ps[..k + 1], prefix)
    {
      hide Matching;
      MatchingStep(ps, k, prefix);
      idx' := idx;
      if prefix <= cur.key {
        entries[idx] := (cur.key, cur.value);
        idx' := idx + 1;
      }
    }

    /** The second pass: the matching entries, in insertion order. */
    method CopyMatches(prefix: Bytes, count: nat) returns (entries: array<(Bytes, Bytes)>)
      requires Valid() && count == |Matching(table.Items(), prefix)|
      ensures entries[..] == Matching(table.Items(), prefix)
    {
      hide Table.Valid, Table.Items, Matching;
      Start();
      ghost var ps, c := table.Items(), table.order;
      AtIs(c, 0);
      hide At;
      entries := new (Bytes, Bytes)[count](_ => ([], []));
      var cur := table.head;
      ghost var k: nat := 0;
      var idx: nat := 0;
      NoMatches(ps[..0], prefix);
      while cur != null
        invariant k <= |c| && cur == At(c, k) && Valid()
        invariant entries.Length == count && ps == table.Items() && |ps| == |c|
        invariant 0 <= idx <= count && entries[..idx] == Matching(ps[..k], prefix)
        decreases |c| - k
      {
        AtIs(c, k);
        Walk(k);
        idx := CopyOne(cur, prefix, entries, idx, ps, k);
        cur := cur.next;
        k := k + 1;
        AtIs(c, k);
      }
      assert ps[..k] == ps;
    }

    /** kv_mem_list_prefix: count, copy, sort. */
    method ListPrefix(prefix: Bytes) returns (list: Pairs)
      requires Valid()
      ensures Lists(list, Contents(), prefix)
    {
      hide Table.Valid, Table.Items, Matching, MapOf, Lists, Less;
      Unique();
      MatchingExact(table.Items(), prefix);
      var count := CountMatches(prefix);
      list := [];
      if count > 0 {
        var entries := CopyMatches(prefix, count);
        list := SortEntries(entries[..]);
      }
      ListExact(table.Items(), prefix, list);
    }
  }

  lemma NoMatches(ps: Pairs, prefix: Bytes)
    requires |ps| == 0
    ensures Matching(ps, prefix) == []
  {
  }
}
