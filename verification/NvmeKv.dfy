/** The NVMe KV protocol (sim/cmd_dispatch.c, sim/main.c:50-118, src/kv_nvme.c): the command
    dispatcher over the simulator's store, the list serializer and the client's two-pass
    parser, and the client operations over one connection. */
module NvmeKv {
  import opened Sparse
  import opened HashTable
  import opened KvMem

  const MAX_KEY_LEN: nat := 272
  const MAX_VAL_LEN: nat := 2097152

  // ---- the list format ----

  function U16(n: nat): (b: Bytes)
    ensures |b| == 2
  {
    [(n % 256) as byte, (n / 256 % 256) as byte]
  }

  function U32(n: nat): (b: Bytes)
    ensures |b| == 4
  {
    U16(n % 65536) + U16(n / 65536 % 65536)
  }

  function GetU16(b: Bytes): (n: nat)
    requires |b| >= 2
    ensures n < 65536
  {
    b[0] as int + 256 * (b[1] as int)
  }

  function GetU32(b: Bytes): nat
    requires |b| >= 4
  {
    GetU16(b) + 65536 * GetU16(b[2..])
  }

  lemma U16RoundTrip(n: nat, rest: Bytes)
    requires n < 65536
    ensures GetU16(U16(n) + rest) == n
  {
  }

  lemma Halves(n: nat)
    requires n < 0x1_0000_0000
    ensures n % 65536 < 65536 && n / 65536 < 65536 && n == n % 65536 + 65536 * (n / 65536)
  {
  }

  lemma U32Is(n: nat, lo: nat, hi: nat)
    requires lo == n % 65536 && hi == n / 65536 && hi < 65536
    ensures U32(n) == U16(lo) + U16(hi)
  {
    hide U16;
  }

  lemma GetU32Is(d: Bytes, n: nat, lo: nat, hi: nat)
    requires |d| >= 4 && GetU16(d) == lo && GetU16(d[2..]) == hi && n == lo + 65536 * hi
    ensures GetU32(d) == n
  {
    hide GetU16;
  }

  lemma U32RoundTrip(n: nat, rest: Bytes)
    requires n < 0x1_0000_0000
    ensures GetU32(U32(n) + rest) == n
  {
    hide U16, U32, GetU16, GetU32;
    var lo: nat, hi: nat := n % 65536, n / 65536;
    Halves(n);
    U32Is(n, lo, hi);
    var a, b := U16(lo), U16(hi);
    TwoHalves(a, b, rest);
    U16RoundTrip(lo, b + rest);
    U16RoundTrip(hi, rest);
    GetU32Is(a + b + rest, n, lo, hi);
  }

  lemma TwoHalves(a: Bytes, b: Bytes, rest: Bytes)
    requires |a| == 2
    ensures a + b + rest == a + (b + rest) && (a + b + rest)[2..] == b + rest
  {
  }

  predicate Sized(p: (Bytes, Bytes)) { |p.0| < 65536 && |p.1| < 0x1_0000_0000 }

  predicate AllSized(ps: Pairs) { forall i :: 0 <= i < |ps| ==> Sized(ps[i]) }

  /** One record; the lengths are cut to 16 and 32 bits. */
  function Record(p: (Bytes, Bytes)): Bytes {
    var kl, vl := |p.0| % 65536, |p.1| % 0x1_0000_0000;
    U16(kl) + p.0[..kl] + U32(vl) + p.1[..vl]
  }

  function Serialize(ps: Pairs): Bytes { if ps == [] then [] else Record(ps[0]) + Serialize(ps[1..]) }

  /** How long the record at the start of d claims to be, if its two headers are there. */
  function RecordLen(d: Bytes): (n: nat)
    ensures n > 0 ==> n >= 6
  {
    if |d| < 2 then 0
    else
      var kl := GetU16(d);
      if |d| < 2 + kl + 4 then 0 else 2 + kl + 4 + GetU32(d[2 + kl..])
  }

  /** Every record the parser counts lies within the data. */
  predicate Framed(d: Bytes)
    decreases |d|
  {
    var n := RecordLen(d);
    n == 0 || (n <= |d| && Framed(d[n..]))
  }

  function Entry(d: Bytes): (Bytes, Bytes)
    requires 0 < RecordLen(d) <= |d|
  {
    var kl := GetU16(d);
    (d[2..2 + kl], d[6 + kl..RecordLen(d)])
  }

  /** What the parser makes of framed data. */
  function Decode(d: Bytes): Pairs
    requires Framed(d)
    decreases |d|
  {
    var n := RecordLen(d);
    if n == 0 then [] else [Entry(d)] + Decode(d[n..])
  }

  lemma Slices(a: Bytes, k: Bytes, b: Bytes, v: Bytes, rest: Bytes)
    requires |a| == 2 && |b| == 4
    ensures var d := a + k + b + v + rest;
            d == a + (k + b + v + rest) && d[2 + |k|..] == b + (v + rest)
            && d[2..2 + |k|] == k && d[6 + |k|..6 + |k| + |v|] == v
  {
  }

  lemma RecordDecodes(p: (Bytes, Bytes), rest: Bytes)
    requires Sized(p)
    ensures RecordLen(Record(p) + rest) == |Record(p)| > 0
    ensures Entry(Record(p) + rest) == p
  {
    hide U16, U32, GetU16, GetU32;
    var (k, v) := p;
    var a, b := U16(|k|), U32(|v|);
    assert k[..|k|] == k && v[..|v|] == v;
    assert Record(p) + rest == a + k + b + v + rest;
    Slices(a, k, b, v, rest);
    U16RoundTrip(|k|, k + b + v + rest);
    U32RoundTrip(|v|, v + rest);
  }

  /** At offset off stands the record of p: the length of the key in two bytes, the low one first,
      the key, the length of the value in four bytes, and the value. */
  predicate RecordAt(d: Bytes, off: nat, p: (Bytes, Bytes)) {
    var e := off + 2 + |p.0|;
    && e + 4 + |p.1| <= |d|
    && d[off] as int + 256 * (d[off + 1] as int) == |p.0| && d[off + 2..e] == p.0
    && d[e] as int + 256 * (d[e + 1] as int) + 65536 * (d[e + 2] as int) + 16777216 * (d[e + 3] as int) == |p.1|
    && d[e + 4..e + 4 + |p.1|] == p.1
  }

  lemma U16Bytes(n: nat)
    requires n < 65536
    ensures U16(n)[0] as int + 256 * (U16(n)[1] as int) == n
  {
  }

  lemma U32Bytes(n: nat)
    requires n < 0x1_0000_0000
    ensures var b := U32(n);
      b[0] as int + 256 * (b[1] as int) + 65536 * (b[2] as int) + 16777216 * (b[3] as int) == n
  {
    var lo: nat, hi: nat := n % 65536, n / 65536;
    Halves(n);
    hide U32;
    U32Is(n, lo, hi);
    U16Bytes(lo);
    U16Bytes(hi);
    hide U16;
    var b := U32(n);
    assert b[0] == U16(lo)[0] && b[1] == U16(lo)[1] && b[2] == U16(hi)[0] && b[3] == U16(hi)[1];
  }

  lemma RecordStarts(p: (Bytes, Bytes), rest: Bytes)
    requires Sized(p)
    ensures RecordAt(Record(p) + rest, 0, p)
  {
    var (k, v) := p;
    var a, b := U16(|k|), U32(|v|);
    U16Bytes(|k|);
    U32Bytes(|v|);
    RecordIs(p);
    hide *;
    Placed(a, k, b, v, rest);
  }

  lemma RecordIs(p: (Bytes, Bytes))
    requires Sized(p)
    ensures Record(p) == U16(|p.0|) + p.0 + U32(|p.1|) + p.1
  {
    hide U16, U32;
    assert p.0[..|p.0|] == p.0 && p.1[..|p.1|] == p.1;
  }

  lemma Placed(a: Bytes, k: Bytes, b: Bytes, v: Bytes, rest: Bytes)
    requires |a| == 2 && |b| == 4
    requires a[0] as int + 256 * (a[1] as int) == |k|
    requires b[0] as int + 256 * (b[1] as int) + 65536 * (b[2] as int) + 16777216 * (b[3] as int) == |v|
    ensures RecordAt(a + k + b + v + rest, 0, (k, v))
  {
    var d := a + k + b + v + rest;
    Slices(a, k, b, v, rest);
    var e := 2 + |k|;
    assert d[0] == a[0] && d[1] == a[1];
    assert d[e] == b[0] && d[e + 1] == b[1] && d[e + 2] == b[2] && d[e + 3] == b[3];
  }

  lemma RecordShifts(a: Bytes, d: Bytes, off: nat, p: (Bytes, Bytes))
    requires RecordAt(d, off, p)
    ensures RecordAt(a + d, |a| + off, p)
  {
    var e := off + 2 + |p.0|;
    assert (a + d)[|a| + off + 2..|a| + e] == d[off + 2..e];
    assert (a + d)[|a| + e + 4..|a| + e + 4 + |p.1|] == d[e + 4..e + 4 + |p.1|];
  }

  /** Every record of the list stands in the response, one behind the other. */
  lemma {:induction false} SerializedAt(ps: Pairs, i: nat)
    requires AllSized(ps) && i < |ps|
    ensures RecordAt(Serialize(ps), |Serialize(ps[..i])|, ps[i])
    ensures i + 1 < |ps| ==> |Serialize(ps[..i + 1])| == |Serialize(ps[..i])| + 6 + |ps[i].0| + |ps[i].1|
  {
    hide RecordAt, Record;
    SerializeStep(ps, i);
    RecordLength(ps[i]);
    if i == 0 {
      RecordStarts(ps[0], Serialize(ps[1..]));
    } else {
      SerializedAt(ps[1..], i - 1);
      assert ps[..i][1..] == ps[1..][..i - 1];
      RecordShifts(Record(ps[0]), Serialize(ps[1..]), |Serialize(ps[1..][..i - 1])|, ps[i]);
    }
  }

  /** The client's parser inverts the server's serializer. */
  lemma {:induction false} DecodeSerialize(ps: Pairs)
    requires AllSized(ps)
    ensures Framed(Serialize(ps)) && Decode(Serialize(ps)) == ps
  {
    if ps != [] {
      var rest := Serialize(ps[1..]);
      RecordDecodes(ps[0], rest);
      DecodeSerialize(ps[1..]);
      var d := Record(ps[0]) + rest;
      assert d[|Record(ps[0])|..] == rest;
      assert ps == [ps[0]] + ps[1..];
    }
  }

  // ---- the serializer: measure, allocate, write at an advancing offset ----

  lemma {:induction false} SerializeAppend(ps: Pairs, p: (Bytes, Bytes))
    ensures Serialize(ps + [p]) == Serialize(ps) + Record(p)
  {
    if ps == [] {
      assert ps + [p] == [p] && [p][1..] == [];
    } else {
      assert (ps + [p])[1..] == ps[1..] + [p];
      SerializeAppend(ps[1..], p);
    }
  }

  lemma SerializeStep(ps: Pairs, i: nat)
    requires i < |ps|
    ensures Serialize(ps[..i + 1]) == Serialize(ps[..i]) + Record(ps[i])
    ensures |Serialize(ps[..i + 1])| <= |Serialize(ps)|
  {
    assert ps[..i + 1] == ps[..i] + [ps[i]];
    SerializeAppend(ps[..i], ps[i]);
    SerializeLength(ps, i + 1);
  }

  lemma {:induction false} SerializeLength(ps: Pairs, i: nat)
    requires i <= |ps|
    ensures |Serialize(ps[..i])| <= |Serialize(ps)|
  {
    if i > 0 {
      assert ps[..i][1..] == ps[1..][..i - 1];
      SerializeLength(ps[1..], i - 1);
    }
  }

  lemma RecordLength(p: (Bytes, Bytes))
    requires Sized(p)
    ensures |Record(p)| == 2 + |p.0| + 4 + |p.1|
  {
  }

  /** memcpy into the buffer. */
  method CopyInto(buf: array<byte>, off: nat, data: Bytes)
    requires off + |data| <= buf.Length
    modifies buf
    ensures buf[..off + |data|] == old(buf[..off]) + data
  {
    forall i | 0 <= i < |data| { buf[off + i] := data[i]; }
  }

  method WriteRecord(buf: array<byte>, off: nat, p: (Bytes, Bytes)) returns (off': nat)
    requires off + |Record(p)| <= buf.Length
    modifies buf
    ensures off' == off + |Record(p)| && buf[..off'] == old(buf[..off]) + Record(p)
  {
    hide U16, U32;
    var kl, vl := |p.0| % 65536, |p.1| % 0x1_0000_0000;
    off' := off;
    CopyInto(buf, off', U16(kl));
    off' := off' + 2;
    CopyInto(buf, off', p.0[..kl]);
    off' := off' + kl;
    CopyInto(buf, off', U32(vl));
    off' := off' + 4;
    CopyInto(buf, off', p.1[..vl]);
    off' := off' + vl;
  }

  method Measure(ps: Pairs) returns (total: nat)
    requires AllSized(ps)
    ensures total == |Serialize(ps)|
  {
    hide Record, Sized;
    total := 0;
    var i := 0;
    assert ps[..0] == [];
    while i < |ps|
      invariant 0 <= i <= |ps| && total == |Serialize(ps[..i])|
    {
      SerializeStep(ps, i);
      RecordLength(ps[i]);
      total := total + 2 + |ps[i].0| + 4 + |ps[i].1|;
      i := i + 1;
    }
    assert ps[..i] == ps;
  }

  method SerializeList(ps: Pairs) returns (buf: array<byte>)
    requires AllSized(ps)
    ensures fresh(buf) && buf[..] == Serialize(ps)
  {
    hide Record, Sized, Serialize;
    var total := Measure(ps);
    buf := new byte[total](_ => 0);
    var off: nat := 0;
    var i := 0;
    EmptySerialize(ps[..0]);
    while i < |ps|
      invariant 0 <= i <= |ps| && buf.Length == |Serialize(ps)|
      invariant off == |Serialize(ps[..i])| <= buf.Length && buf[..off] == Serialize(ps[..i])
    {
      SerializeStep(ps, i);
      off := WriteRecord(buf, off, ps[i]);
      i := i + 1;
    }
    assert ps[..i] == ps;
  }

  lemma EmptySerialize(ps: Pairs)
    requires |ps| == 0
    ensures Serialize(ps) == []
  {
  }

  // ---- the client's parser: count, allocate, copy ----

  method CountRecords(data: Bytes) returns (count: nat)
    requires Framed(data)
    ensures count == |Decode(data)|
  {
    hide GetU16, GetU32;
    count := 0;
    var off := 0;
    assert data[0..] == data;
    while off < |data|
      invariant 0 <= off <= |data| && Framed(data[off..])
      invariant count + |Decode(data[off..])| == |Decode(data)|
      decreases |data| - off
    {
      ghost var d := data[off..];
      if off + 2 > |data| { break; }
      var kl := GetU16(data[off..]);
      if off + 2 + kl + 4 > |data| { break; }
      assert d[2 + kl..] == data[off + 2 + kl..];
      var vl := GetU32(data[off + 2 + kl..]);
      assert RecordLen(d) == 2 + kl + 4 + vl;
      assert d[RecordLen(d)..] == data[off + RecordLen(d)..];
      off := off + 2 + kl + 4 + vl;
      count := count + 1;
    }
    assert RecordLen(data[off..]) == 0;
  }

  method ParseList(data: Bytes) returns (entries: array<(Bytes, Bytes)>)
    requires Framed(data)
    ensures fresh(entries) && entries[..] == Decode(data)
  {
    hide GetU16, GetU32, RecordLen, Entry;
    var count := CountRecords(data);
    entries := new (Bytes, Bytes)[count](_ => ([], []));
    var off: nat := 0;
    assert data[0..] == data;
    var i := 0;
    while i < count
      invariant 0 <= i <= count == entries.Length == |Decode(data)|
      invariant off <= |data| && Framed(data[off..])
      invariant entries[..i] + Decode(data[off..]) == Decode(data)
    {
      var e, off' := ParseRecord(data, off);
      ghost var d := data[off..];
      assert Decode(d) == [e] + Decode(data[off'..]);
      ghost var before, rest := entries[..i], Decode(data[off'..]);
      entries[i] := e;
      assert entries[..i + 1] == before + [e];
      assert before + ([e] + rest) == before + [e] + rest;
      off := off';
      i := i + 1;
    }
    assert |entries[..i]| == count;
  }

  method ParseRecord(data: Bytes, off: nat) returns (e: (Bytes, Bytes), off': nat)
    requires off <= |data| && Framed(data[off..]) && RecordLen(data[off..]) > 0
    ensures off' == off + RecordLen(data[off..]) <= |data|
    ensures e == Entry(data[off..]) && data[off'..] == data[off..][RecordLen(data[off..])..]
  {
    hide GetU16, GetU32;
    ghost var d := data[off..];
    off' := off;
    var kl := GetU16(data[off'..]);
    off' := off' + 2;
    var key := data[off'..off' + kl];
    assert key == d[2..2 + kl];
    off' := off' + kl;
    assert d[2 + kl..] == data[off'..];
    var vl := GetU32(data[off'..]);
    off' := off' + 4;
    assert off' + vl == off + RecordLen(d);
    var value := data[off'..off' + vl];
    assert value == d[6 + kl..RecordLen(d)];
    off' := off' + vl;
    e := (key, value);
  }

  // ---- the dispatcher ----

  datatype Op = StoreOp | RetrieveOp | DeleteOp | ExistOp | ListOp | OtherOp(code: byte)

  datatype Status = Success | NotFound | InvalidKey | InvalidValue | InternalError

  predicate KeyOk(key: Bytes) { 1 <= |key| <= MAX_KEY_LEN }

  predicate ValueOk(value: Bytes) { |value| <= MAX_VAL_LEN }

  /** What every entry of the simulator's store satisfies. */
  ghost predicate Bounded(m: map<Bytes, Bytes>) { forall k :: k in m ==> KeyOk(k) && ValueOk(m[k]) }

  /** The status a request gets from a store with this content. */
  function StatusOf(m: map<Bytes, Bytes>, op: Op, key: Bytes, value: Bytes): Status {
    if op.OtherOp? then InternalError
    else if |key| > MAX_KEY_LEN || (key == [] && !op.ListOp?) then InvalidKey
    else if op.StoreOp? && !ValueOk(value) then InvalidValue
    else if (op.RetrieveOp? || op.ExistOp?) && key !in m then NotFound
    else Success
  }

  function ContentAfter(m: map<Bytes, Bytes>, op: Op, key: Bytes, value: Bytes): map<Bytes, Bytes> {
    if StatusOf(m, op, key, value) != Success then m
    else if op.StoreOp? then m[key := value]
    else if op.DeleteOp? then m - {key}
    else m
  }

  lemma BoundedAfter(m: map<Bytes, Bytes>, op: Op, key: Bytes, value: Bytes)
    requires Bounded(m)
    ensures Bounded(ContentAfter(m, op, key, value))
  {
  }

  lemma ListSized(list: Pairs, m: map<Bytes, Bytes>, prefix: Bytes)
    requires Bounded(m) && Lists(list, m, prefix)
    ensures AllSized(list)
  {
    forall i | 0 <= i < |list|
      ensures Sized(list[i])
    {
      assert (list[i].0, list[i].1) in list;
    }
  }

  class Simulator {
    const mem: Store

    ghost predicate Valid()
      reads this, mem, mem.table, mem.table.buckets, mem.table.order
    {
      mem.Valid() && Bounded(mem.Contents())
    }

    constructor (hash: Bytes -> nat)
      ensures Valid() && mem.Contents() == map[]
      ensures fresh(mem) && fresh(mem.table) && fresh(mem.table.buckets)
    {
      mem := new Store(hash);
    }

    /** handle_list. */
    method HandleList(prefix: Bytes) returns (data: Bytes, ghost list: Pairs)
      requires Valid()
      ensures Lists(list, mem.Contents(), prefix) && AllSized(list) && data == Serialize(list)
    {
      hide Store.Valid, Store.Contents, Lists, AllSized, Serialize;
      var result := mem.ListPrefix(prefix);
      list := result;
      ListSized(list, mem.Contents(), prefix);
      if |result| == 0 {
        EmptySerialize(result);
        return [], list;
      }
      var buf := SerializeList(result);
      data := buf[..];
    }

    /** cmd_dispatch: the status, the response data, and the store afterwards. */
    method Dispatch(op: Op, key: Bytes, value: Bytes) returns (status: Status, data: Bytes, ghost list: Pairs)
      requires Valid()
      modifies mem.table, mem.table.buckets, mem.table.order
      ensures Valid() && status == StatusOf(old(mem.Contents()), op, key, value)
      ensures mem.Contents() == ContentAfter(old(mem.Contents()), op, key, value)
      ensures status.InternalError? <==> op.OtherOp?
      ensures status.InvalidKey? <==> !op.OtherOp? && (|key| > MAX_KEY_LEN || (key == [] && !op.ListOp?))
      ensures status.InvalidValue? <==> op.StoreOp? && KeyOk(key) && |value| > MAX_VAL_LEN
      ensures status.NotFound? <==> (op.RetrieveOp? || op.ExistOp?) && KeyOk(key) && key !in old(mem.Contents())
      ensures op.StoreOp? && status == Success ==> mem.Contents() == old(mem.Contents())[key := value]
      ensures op.DeleteOp? && status == Success ==> mem.Contents() == old(mem.Contents()) - {key}
      ensures !(op.StoreOp? || op.DeleteOp?) || status != Success ==> mem.Contents() == old(mem.Contents())
      ensures op.RetrieveOp? && status == Success ==> key in mem.Contents() && data == mem.Contents()[key]
      ensures op.ListOp? && status == Success ==> Lists(list, mem.Contents(), key) && AllSized(list) && data == Serialize(list)
      ensures !(op.RetrieveOp? || op.ListOp?) || status != Success ==> data == []
      ensures mem.table.buckets == old(mem.table.buckets) || fresh(mem.table.buckets)
      ensures forall h :: h in mem.table.order ==> h in old(mem.table.order) || fresh(h)
    {
      hide Store.Valid, Store.Contents, Lists, AllSized, Serialize, Bounded;
      status, data, list := Success, [], [];
      BoundedAfter(mem.Contents(), op, key, value);
      match op
      case StoreOp =>
        if key == [] || |key| > MAX_KEY_LEN { status := InvalidKey; return; }
        if |value| > MAX_VAL_LEN { status := InvalidValue; return; }
        mem.Put(key, value);
      case RetrieveOp =>
        if key == [] || |key| > MAX_KEY_LEN { status := InvalidKey; return; }
        var found, val := mem.Retrieve(key);
        if !found { status := NotFound; return; }
        data := val;
      case DeleteOp =>
        if key == [] || |key| > MAX_KEY_LEN { status := InvalidKey; return; }
        mem.Remove(key);
      case ExistOp =>
        if key == [] || |key| > MAX_KEY_LEN { status := InvalidKey; return; }
        var found := mem.Exist(key);
        if !found { status := NotFound; return; }
      case ListOp =>
        if |key| > MAX_KEY_LEN { status := InvalidKey; return; }
        data, list := HandleList(key);
      case OtherOp(_) =>
        status := InternalError;
    }
  }

  // ---- the client ----

  /** The server loop closes the connection on a request it will not read. */
  predicate Readable(op: Op, key: Bytes, value: Bytes) {
    |key| <= MAX_KEY_LEN && (op.StoreOp? ==> ValueOk(value))
  }

  /** The response of a list fits its 32-bit length. */
  ghost predicate FitsResponse(m: map<Bytes, Bytes>, prefix: Bytes) {
    forall list :: Lists(list, m, prefix) ==> |Serialize(list)| < 0x1_0000_0000
  }

  /** One connection to the simulator over a reliable byte stream. */
  class Connection {
    const sim: Simulator
    var alive: bool
    var nextCmdId: nat

    ghost predicate Valid()
      reads this, sim, sim.mem, sim.mem.table, sim.mem.table.buckets, sim.mem.table.order
    {
      sim.Valid()
    }

    ghost function Contents(): map<Bytes, Bytes>
      reads sim.mem.table`order, sim.mem.table.order`value
    {
      sim.mem.Contents()
    }

    constructor (hash: Bytes -> nat)
      ensures Valid() && alive && Contents() == map[]
    {
      sim := new Simulator(hash);
      alive, nextCmdId := true, 0;
    }

    /** nvme_kv_transact against the server loop: a request the server refuses to read ends
        the connection, and every later transaction fails. */
    method Transact(op: Op, key: Bytes, value: Bytes)
      returns (ok: bool, status: Status, data: Bytes, ghost list: Pairs)
      requires Valid() && |key| < 65536
      requires op.ListOp? ==> FitsResponse(Contents(), key)
      modifies this, sim.mem.table, sim.mem.table.buckets, sim.mem.table.order
      ensures Valid() && alive == (old(alive) && Readable(op, key, value)) && ok == alive
      ensures nextCmdId == (old(nextCmdId) + 1) % 0x1_0000_0000
      ensures ok ==> status == StatusOf(old(Contents()), op, key, value)
      ensures Contents() == if ok then ContentAfter(old(Contents()), op, key, value) else old(Contents())
      ensures ok && op.RetrieveOp? && status == Success ==> key in Contents() && data == Contents()[key]
      ensures ok && op.ListOp? && status == Success ==> Lists(list, Contents(), key) && AllSized(list) && data == Serialize(list)
    {
      hide Simulator.Valid, Store.Contents, Lists, AllSized, Serialize, Bounded;
      ok, status, data, list := false, InternalError, [], [];
      nextCmdId := (nextCmdId + 1) % 0x1_0000_0000;
      if !alive { return; }
      if |key| > MAX_KEY_LEN || (op.StoreOp? && |value| > MAX_VAL_LEN) {
        alive := false;
        return;
      }
      status, data, list := sim.Dispatch(op, key, value);
      ok := true;
    }

    method Put(key: Bytes, value: Bytes) returns (ok: bool)
      requires Valid() && |key| < 65536
      modifies this, sim.mem.table, sim.mem.table.buckets, sim.mem.table.order
      ensures Valid() && ok == (old(alive) && KeyOk(key) && ValueOk(value))
      ensures Contents() == if ok then old(Contents())[key := value] else old(Contents())
      ensures alive == (old(alive) && |key| <= MAX_KEY_LEN && ValueOk(value))
    {
      hide Valid, Contents;
      var sent, status, _, _ := Transact(StoreOp, key, value);
      ok := sent && status == Success;
    }

    method Get(key: Bytes) returns (ok: bool, value: Bytes)
      requires Valid() && |key| < 65536
      modifies this, sim.mem.table, sim.mem.table.buckets, sim.mem.table.order
      ensures Valid() && ok == (old(alive) && KeyOk(key) && key in old(Contents()))
      ensures ok ==> value == old(Contents())[key]
      ensures Contents() == old(Contents()) && alive == (old(alive) && |key| <= MAX_KEY_LEN)
    {
      hide Valid, Contents;
      var sent, status, data, _ := Transact(RetrieveOp, key, []);
      ok := sent && status == Success;
      value := data;
    }

    method Delete(key: Bytes) returns (ok: bool)
      requires Valid() && |key| < 65536
      modifies this, sim.mem.table, sim.mem.table.buckets, sim.mem.table.order
      ensures Valid() && ok == (old(alive) && KeyOk(key))
      ensures Contents() == if ok then old(Contents()) - {key} else old(Contents())
      ensures alive == (old(alive) && |key| <= MAX_KEY_LEN)
    {
      hide Valid, Contents;
      var sent, status, _, _ := Transact(DeleteOp, key, []);
      ok := sent && status == Success;
    }

    /** kv_iter_prefix: the entries the iterator will walk. */
    method IterPrefix(prefix: Bytes) returns (entries: array?<(Bytes, Bytes)>)
      requires Valid() && |prefix| < 65536 && FitsResponse(Contents(), prefix)
      modifies this, sim.mem.table, sim.mem.table.buckets, sim.mem.table.order
      ensures Valid() && Contents() == old(Contents())
      ensures entries != null <==> old(alive) && |prefix| <= MAX_KEY_LEN
      ensures entries != null ==> Lists(entries[..], Contents(), prefix)
      ensures alive == (old(alive) && |prefix| <= MAX_KEY_LEN)
    {
      hide Valid, Contents, Lists, Serialize, Decode, Framed;
      var sent, status, data, list := Transact(ListOp, prefix, []);
      if !sent { return null; }
      if status != Success || data == [] {
        if data == [] { EmptyList(list); }
        entries := new (Bytes, Bytes)[0];
        assert entries[..] == [];
        return;
      }
      DecodeSerialize(list);
      entries := ParseList(data);
    }
  }

  lemma EmptyList(list: Pairs)
    ensures Serialize(list) == [] ==> list == []
  {
  }
}
