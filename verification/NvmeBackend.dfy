/** The file system's keys on the NVMe backend.  The file system lets keys of fewer than KEY_MAX
    bytes through, the protocol carries keys of up to MAX_KEY_LEN, and a request with a longer
    one is not read by the simulator (src/kvbfs.h:30, src/nvme_kv_proto.h:33). */
module NvmeBackend {
  import opened Keys
  import opened Sparse
  import opened Store
  import opened HashTable
  import opened NvmeKv

  /** The bytes of a flat key. */
  function Wire(s: string): (b: Bytes)
    ensures |b| == |s|
  {
    seq(|s|, i requires 0 <= i < |s| => (s[i] as int % 256) as byte)
  }

  predicate Carried(k: Key) { |Encode(k)| <= MAX_KEY_LEN }

  /** The name in a key and the number before it. */
  function NameLength(k: Key): nat {
    match k
    case Dirent(p, n) => |Dec(p)| + |n|
    case Xattr(i, n) => |Dec(i)| + |n|
    case _ => 0
  }

  /** The protocol carries every key without a name, and one with a name exactly when name and
      number have at most 269 characters together. */
  lemma CarriedExact(k: Key)
    requires Words(k)
    ensures Carried(k) <==> NameLength(k) <= 269
  {
    hide Dec;
    if k.Dirent? {
      assert |Encode(k)| == 3 + NameLength(k);
    } else if k.Xattr? {
      assert |Encode(k)| == 3 + NameLength(k);
    } else {
      NumericKeysFit(k);
    }
  }

  /** The names the file system accepts and the protocol does not carry. */
  lemma RefusedNames(k: Key)
    requires Words(k)
    ensures Fits(k, BufferOf(k)) && !Carried(k) <==> 269 < NameLength(k) < 509
  {
    hide Dec;
    CarriedExact(k);
    if k.Dirent? {
      assert |Encode(k)| == 3 + NameLength(k);
    } else if k.Xattr? {
      assert |Encode(k)| == 3 + NameLength(k);
    }
  }

  /** kv_put of a file-system key: a key that is not carried fails and ends the connection. */
  method PutKey(c: Connection, k: Key, value: Bytes) returns (ok: bool)
    requires c.Valid() && Words(k) && Fits(k, KEY_MAX)
    modifies c, c.sim.mem.table, c.sim.mem.table.buckets, c.sim.mem.table.order
    ensures c.Valid() && ok == (old(c.alive) && NameLength(k) <= 269 && ValueOk(value))
    ensures c.Contents() == if ok then old(c.Contents())[Wire(Encode(k)) := value] else old(c.Contents())
    ensures NameLength(k) > 269 ==> !c.alive
  {
    hide Connection.Valid, Connection.Contents, ValueOk, Encode, Wire;
    CarriedExact(k);
    KeyNotEmpty(k);
    ok := c.Put(Wire(Encode(k)), value);
  }

  lemma KeyNotEmpty(k: Key)
    ensures |Encode(k)| > 0
  {
  }
}
