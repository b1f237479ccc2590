/** The flat key space (src/kvbfs.h, src/version.h, src/mem.c, src/llm.c).

    Every record of the file system lives in one key/value store; a key is text that
    names a namespace ("i:", "d:", "vb:", ...) followed by decimal fields and, for
    directory entries and extended attributes, a free-form name.  This module has the
    encoders, the prefixes used by iteration, and the proof that the flat store is
    equivalent to a family of typed maps. */
module Keys {

  datatype Key =
    | SuperKey
    | InodeKey(ino: nat)
    | Dirent(parent: nat, name: string)
    | Block(ino: nat, block: nat)
    | Xattr(ino: nat, name: string)
    | VerCounter(ino: nat)
    | VerMeta(ino: nat, ver: nat)
    | VerBlock(ino: nat, ver: nat, block: nat)
    | MemVector(ino: nat, seqno: nat)
    | MemText(ino: nat, seqno: nat)
    | MemHeader(ino: nat, seqno: nat)
    | MemSeq(ino: nat)
    | MemGen(ino: nat)
    | MemArchive(ino: nat, gen: nat, index: nat)
    | MemSummary(ino: nat, gen: nat)
    | MemSummaryVector(ino: nat, gen: nat)

  /** The prefixes passed to kv_iter_prefix. */
  datatype Query =
    | AllDirents
    | DirentsOf(parent: nat)
    | XattrsOf(ino: nat)
    | VerMetasOf(ino: nat)
    | VerBlocksOf(ino: nat, ver: nat)
    | AllVectors
    | VectorsOf(ino: nat)
    | TextsOf(ino: nat)
    | HeadersOf(ino: nat)

  // ---- decimal fields ("%lu" and strtoull) ----

  predicate IsDigit(c: char) { '0' <= c <= '9' }

  predicate AllDigits(s: string) { forall i :: 0 <= i < |s| ==> IsDigit(s[i]) }

  function Digit(d: nat): (c: char)
    requires d < 10
    ensures IsDigit(c)
  {
    ('0' as int + d) as char
  }

  function Dec(n: nat): (s: string)
    ensures |s| > 0 && AllDigits(s)
  {
    if n < 10 then [Digit(n)] else Dec(n / 10) + [Digit(n % 10)]
  }

  function ParseDec(s: string): nat
    requires AllDigits(s)
  {
    if s == [] then 0
    else 10 * ParseDec(s[..|s| - 1]) + (s[|s| - 1] as int - '0' as int)
  }

  lemma {:induction false} ParseDecInvertsDec(n: nat)
    ensures ParseDec(Dec(n)) == n
  {
    var s := Dec(n);
    if n < 10 {
      assert s[..0] == [];
    } else {
      assert s[..|s| - 1] == Dec(n / 10);
      ParseDecInvertsDec(n / 10);
    }
  }

  lemma {:induction false} DecLength(n: nat, k: nat)
    requires k > 0 && n < Pow10(k)
    ensures |Dec(n)| <= k
  {
    if n >= 10 {
      assert n / 10 < Pow10(k - 1);
      DecLength(n / 10, k - 1);
    }
  }

  function Pow10(k: nat): nat { if k == 0 then 1 else 10 * Pow10(k - 1) }

  /** A 64-bit unsigned value prints in at most 20 digits. */
  lemma DecLength64(n: nat)
    requires n < 0x1_0000_0000_0000_0000
    ensures |Dec(n)| <= 20
  {
    assert Pow10(5) == 100000;
    assert Pow10(10) == 100000 * Pow10(5);
    assert Pow10(15) == 100000 * Pow10(10);
    assert Pow10(20) == 100000 * Pow10(15);
    DecLength(n, 20);
  }

  // ---- encoders ----

  function Tag(k: Key): string {
    match k
    case SuperKey => "sb"
    case InodeKey(_) => "i:"
    case Dirent(_, _) => "d:"
    case Block(_, _) => "b:"
    case Xattr(_, _) => "x:"
    case VerCounter(_) => "vc:"
    case VerMeta(_, _) => "vm:"
    case VerBlock(_, _, _) => "vb:"
    case MemVector(_, _) => "m:v:"
    case MemText(_, _) => "m:t:"
    case MemHeader(_, _) => "m:h:"
    case MemSeq(_) => "m:seq:"
    case MemGen(_) => "m:gen:"
    case MemArchive(_, _, _) => "m:a:"
    case MemSummary(_, _) => "m:s:"
    case MemSummaryVector(_, _) => "m:v:s:"
  }

  function Body(k: Key): string {
    match k
    case SuperKey => ""
    case InodeKey(i) => Dec(i)
    case Dirent(p, n) => Dec(p) + ":" + n
    case Block(i, b) => Dec(i) + ":" + Dec(b)
    case Xattr(i, n) => Dec(i) + ":" + n
    case VerCounter(i) => Dec(i)
    case VerMeta(i, v) => Dec(i) + ":" + Dec(v)
    case VerBlock(i, v, b) => Dec(i) + ":" + (Dec(v) + ":" + Dec(b))
    case MemVector(i, s) => Dec(i) + ":" + Dec(s)
    case MemText(i, s) => Dec(i) + ":" + Dec(s)
    case MemHeader(i, s) => Dec(i) + ":" + Dec(s)
    case MemSeq(i) => Dec(i)
    case MemGen(i) => Dec(i)
    case MemArchive(i, g, x) => Dec(i) + ":" + (Dec(g) + ":" + Dec(x))
    case MemSummary(i, g) => Dec(i) + ":" + Dec(g)
    case MemSummaryVector(i, g) => Dec(i) + ":" + Dec(g)
  }

  function Encode(k: Key): string { Tag(k) + Body(k) }

  function EncodeQuery(q: Query): string {
    match q
    case AllDirents => "d:"
    case DirentsOf(p) => "d:" + (Dec(p) + ":")
    case XattrsOf(i) => "x:" + (Dec(i) + ":")
    case VerMetasOf(i) => "vm:" + (Dec(i) + ":")
    case VerBlocksOf(i, v) => "vb:" + (Dec(i) + ":" + (Dec(v) + ":"))
    case AllVectors => "m:v:"
    case VectorsOf(i) => "m:v:" + (Dec(i) + ":")
    case TextsOf(i) => "m:t:" + (Dec(i) + ":")
    case HeadersOf(i) => "m:h:" + (Dec(i) + ":")
  }

  /** The keys that belong to the owner a query names. */
  predicate Selects(q: Query, k: Key) {
    match q
    case AllDirents => k.Dirent?
    case DirentsOf(p) => k.Dirent? && k.parent == p
    case XattrsOf(i) => k.Xattr? && k.ino == i
    case VerMetasOf(i) => k.VerMeta? && k.ino == i
    case VerBlocksOf(i, v) => k.VerBlock? && k.ino == i && k.ver == v
    case AllVectors => k.MemVector? || k.MemSummaryVector?
    case VectorsOf(i) => k.MemVector? && k.ino == i
    case TextsOf(i) => k.MemText? && k.ino == i
    case HeadersOf(i) => k.MemHeader? && k.ino == i
  }

  // ---- splitting at the first colon ----

  function FirstColon(s: string): (i: nat)
    ensures i <= |s|
    ensures i < |s| ==> s[i] == ':'
    ensures forall j :: 0 <= j < i ==> s[j] != ':'
  {
    if s == [] || s[0] == ':' then 0 else 1 + FirstColon(s[1..])
  }

  lemma FieldEnds(t: string, rest: string)
    requires AllDigits(t)
    ensures FirstColon(t + ":" + rest) == |t|
    ensures (t + ":" + rest)[..|t|] == t && (t + ":" + rest)[|t| + 1..] == rest
  {
    var s := t + ":" + rest;
    assert s[|t|] == ':';
    assert forall j :: 0 <= j < |t| ==> s[j] == t[j];
  }

  /** A number field followed by a colon is recovered whatever follows it. */
  lemma FieldsAgree(a: nat, rest: string, b: nat, rest': string)
    requires Dec(a) + ":" + rest == Dec(b) + ":" + rest'
    ensures a == b && rest == rest'
  {
    FieldEnds(Dec(a), rest);
    FieldEnds(Dec(b), rest');
    ParseDecInvertsDec(a);
    ParseDecInvertsDec(b);
  }

  lemma FieldPrefix(a: nat, b: nat, rest: string)
    ensures Dec(a) + ":" <= Dec(b) + ":" + rest <==> a == b
  {
    if Dec(a) + ":" <= Dec(b) + ":" + rest {
      var s := Dec(b) + ":" + rest;
      assert s == Dec(a) + ":" + s[|Dec(a)| + 1..];
      FieldsAgree(a, s[|Dec(a)| + 1..], b, rest);
    }
  }

  // ---- decoding ----

  datatype Split = NoSplit | Split(field: nat, rest: string)

  /** Reads one decimal field up to the first colon, as the parsers of dirent and
      vector keys do. */
  function SplitField(s: string): Split {
    var c := FirstColon(s);
    if c < |s| && c > 0 && AllDigits(s[..c]) then Split(ParseDec(s[..c]), s[c + 1..])
    else NoSplit
  }

  lemma SplitFieldInverts(a: nat, rest: string)
    ensures SplitField(Dec(a) + ":" + rest) == Split(a, rest)
  {
    FieldEnds(Dec(a), rest);
    ParseDecInvertsDec(a);
  }

  /** The number of the namespace a flat key belongs to, from its leading characters. */
  function Namespace(s: string): nat {
    if |s| < 2 then 16
    else if s[0] == 's' then 0
    else if s[0] == 'i' then 1
    else if s[0] == 'd' then 2
    else if s[0] == 'b' then 3
    else if s[0] == 'x' then 4
    else if s[0] == 'v' then
      (if s[1] == 'c' then 5 else if s[1] == 'm' then 6 else if s[1] == 'b' then 7 else 16)
    else if s[0] == 'm' && |s| >= 5 then
      (if s[2] == 'v' then (if s[4] == 's' then 15 else 8)
       else if s[2] == 't' then 9
       else if s[2] == 'h' then 10
       else if s[2] == 's' then (if s[3] == 'e' then 11 else 14)
       else if s[2] == 'g' then 12
       else if s[2] == 'a' then 13
       else 16)
    else 16
  }

  function Ordinal(k: Key): nat {
    match k
    case SuperKey => 0 case InodeKey(_) => 1 case Dirent(_, _) => 2 case Block(_, _) => 3
    case Xattr(_, _) => 4 case VerCounter(_) => 5 case VerMeta(_, _) => 6
    case VerBlock(_, _, _) => 7 case MemVector(_, _) => 8 case MemText(_, _) => 9
    case MemHeader(_, _) => 10 case MemSeq(_) => 11 case MemGen(_) => 12
    case MemArchive(_, _, _) => 13 case MemSummary(_, _) => 14
    case MemSummaryVector(_, _) => 15
  }

  lemma NamespaceOfEncoding(k: Key)
    ensures Namespace(Encode(k)) == Ordinal(k)
  {
    var s := Encode(k);
    var t := Tag(k);
    assert forall i :: 0 <= i < |t| ==> s[i] == t[i];
    if k.MemVector? {
      assert s[4] == Body(k)[0] == Dec(k.ino)[0];
    }
  }

  // ---- reading a key ----

  function From(s: string, n: nat): string { if n <= |s| then s[n..] else "" }

  function Number(s: string): nat { if AllDigits(s) then ParseDec(s) else 0 }

  /** The number before the first colon, and the text after it. */
  function FirstField(s: string): nat { Number(s[..FirstColon(s)]) }

  function OtherFields(s: string): string { From(s, FirstColon(s) + 1) }

  /** How many characters the tag of a namespace has. */
  function TagLength(n: nat): nat {
    if n <= 4 then 2 else if n <= 7 then 3 else if n == 11 || n == 12 || n == 15 then 6 else 4
  }

  /** The fields after the tag: the inode or parent comes first, then the version, generation or
      sequence number, then the block or index. */
  function ReadFields(n: nat, t: string): Key
    requires n < 16
  {
    match n
    case 0 => SuperKey
    case 1 => InodeKey(Number(t))
    case 2 => Dirent(FirstField(t), OtherFields(t))
    case 3 => Block(FirstField(t), Number(OtherFields(t)))
    case 4 => Xattr(FirstField(t), OtherFields(t))
    case 5 => VerCounter(Number(t))
    case 6 => VerMeta(FirstField(t), Number(OtherFields(t)))
    case 7 => VerBlock(FirstField(t), FirstField(OtherFields(t)), Number(OtherFields(OtherFields(t))))
    case 8 => MemVector(FirstField(t), Number(OtherFields(t)))
    case 9 => MemText(FirstField(t), Number(OtherFields(t)))
    case 10 => MemHeader(FirstField(t), Number(OtherFields(t)))
    case 11 => MemSeq(Number(t))
    case 12 => MemGen(Number(t))
    case 13 => MemArchive(FirstField(t), FirstField(OtherFields(t)), Number(OtherFields(OtherFields(t))))
    case 14 => MemSummary(FirstField(t), Number(OtherFields(t)))
    case _ => MemSummaryVector(FirstField(t), Number(OtherFields(t)))
  }

  /** The key a text stands for. */
  function ReadKey(s: string): Key
    requires Namespace(s) < 16
  {
    ReadFields(Namespace(s), From(s, TagLength(Namespace(s))))
  }

  lemma NumberReads(n: nat)
    ensures Number(Dec(n)) == n
  {
    ParseDecInvertsDec(n);
  }

  lemma FieldReads(n: nat, rest: string)
    ensures FirstField(Dec(n) + ":" + rest) == n && OtherFields(Dec(n) + ":" + rest) == rest
  {
    FieldEnds(Dec(n), rest);
    NumberReads(n);
  }

  lemma TwoFieldsRead(a: nat, x: nat, s: string)
    requires s == Dec(a) + ":" + Dec(x)
    ensures FirstField(s) == a && Number(OtherFields(s)) == x
  {
    FieldReads(a, Dec(x));
    NumberReads(x);
  }

  lemma ThreeFieldsRead(a: nat, x: nat, y: nat, s: string)
    requires s == Dec(a) + ":" + (Dec(x) + ":" + Dec(y))
    ensures FirstField(s) == a && FirstField(OtherFields(s)) == x && Number(OtherFields(OtherFields(s))) == y
  {
    FieldReads(a, Dec(x) + ":" + Dec(y));
    TwoFieldsRead(x, y, Dec(x) + ":" + Dec(y));
  }

  lemma FieldsRead(k: Key)
    ensures ReadFields(Ordinal(k), Body(k)) == k
  {
    hide Dec, FirstField, OtherFields, Number;
    match k
    case SuperKey =>
    case InodeKey(i) => NumberReads(i);
    case VerCounter(i) => NumberReads(i);
    case MemSeq(i) => NumberReads(i);
    case MemGen(i) => NumberReads(i);
    case Dirent(p, n) => FieldReads(p, n);
    case Xattr(i, n) => FieldReads(i, n);
    case Block(i, x) => TwoFieldsRead(i, x, Body(k));
    case VerMeta(i, x) => TwoFieldsRead(i, x, Body(k));
    case MemVector(i, x) => TwoFieldsRead(i, x, Body(k));
    case MemText(i, x) => TwoFieldsRead(i, x, Body(k));
    case MemHeader(i, x) => TwoFieldsRead(i, x, Body(k));
    case MemSummary(i, x) => TwoFieldsRead(i, x, Body(k));
    case MemSummaryVector(i, x) => TwoFieldsRead(i, x, Body(k));
    case VerBlock(i, v, x) => ThreeFieldsRead(i, v, x, Body(k));
    case MemArchive(i, v, x) => ThreeFieldsRead(i, v, x, Body(k));
  }

  /** Reading a flat key gives back the typed one, although names may contain colons. */
  lemma ReadKeyInverts(k: Key)
    ensures Namespace(Encode(k)) < 16 && ReadKey(Encode(k)) == k
  {
    NamespaceOfEncoding(k);
    FieldsRead(k);
    hide Namespace, Body, ReadFields;
    assert Encode(k)[|Tag(k)|..] == Body(k);
  }

  /** The encoders are jointly injective: no two typed keys, of the same or of different
      namespaces, share a flat key. */
  lemma EncodeInjective(a: Key, b: Key)
    ensures Encode(a) == Encode(b) <==> a == b
  {
    hide *;
    if Encode(a) == Encode(b) {
      ReadKeyInverts(a);
      ReadKeyInverts(b);
    }
  }

  // ---- prefix queries ----

  lemma PrefixOfTagged(t: string, p: string, s: string)
    ensures t + p <= t + s <==> p <= s
  {
    if p <= s {
      assert t + s == (t + p) + s[|p|..];
    }
    if t + p <= t + s {
      assert (t + s)[|t|..] == s;
      assert (t + p)[|t|..] == p;
      assert (t + s)[..|t| + |p|] == t + p;
      assert s[..|p|] == (t + s)[|t|..|t| + |p|] == p;
    }
  }

  /** The namespaces whose tag a query starts with. */
  function QueryTag(q: Query): string {
    match q
    case AllDirents => "d:" case DirentsOf(_) => "d:" case XattrsOf(_) => "x:"
    case VerMetasOf(_) => "vm:" case VerBlocksOf(_, _) => "vb:" case AllVectors => "m:v:"
    case VectorsOf(_) => "m:v:" case TextsOf(_) => "m:t:" case HeadersOf(_) => "m:h:"
  }

  predicate TagMatches(q: Query, k: Key) {
    Tag(k) == QueryTag(q) || (k.MemSummaryVector? && (q.AllVectors? || q.VectorsOf?))
  }

  lemma TagFilter(q: Query, k: Key)
    requires EncodeQuery(q) <= Encode(k)
    ensures TagMatches(q, k)
  {
    hide Dec, Body;
    var s, p := Encode(k), EncodeQuery(q);
    var u := QueryTag(q);
    assert forall i :: 0 <= i < |u| ==> s[i] == p[i] == u[i];
    NamespaceOfEncoding(k);
  }

  /** A prefix iteration returns exactly its owner's keys. */
  lemma PrefixSelects(q: Query, k: Key)
    ensures EncodeQuery(q) <= Encode(k) <==> Selects(q, k)
  {
    hide Encode, EncodeQuery;
    if EncodeQuery(q) <= Encode(k) {
      TagFilter(q, k);
    }
    if k.MemSummaryVector? && TagMatches(q, k) {
      SummaryVectorPrefix(q, k);
    } else if TagMatches(q, k) {
      TaggedPrefix(q, k);
    }
  }

  /** One decimal field after a tag selects the keys with that field. */
  lemma FieldQuery(t: string, i: nat, j: nat, rest: string)
    ensures t + (Dec(i) + ":") <= t + (Dec(j) + ":" + rest) <==> i == j
  {
    hide Dec;
    PrefixOfTagged(t, Dec(i) + ":", Dec(j) + ":" + rest);
    FieldPrefix(i, j, rest);
  }

  lemma TaggedPrefix(q: Query, k: Key)
    requires Tag(k) == QueryTag(q)
    ensures EncodeQuery(q) <= Encode(k) <==> Selects(q, k)
  {
    hide Dec;
    match q
    case AllDirents => PrefixOfTagged("d:", "", Body(k));
    case AllVectors => PrefixOfTagged("m:v:", "", Body(k));
    case DirentsOf(p) => FieldQuery("d:", p, k.parent, k.name);
    case XattrsOf(i) => FieldQuery("x:", i, k.ino, k.name);
    case VerMetasOf(i) => FieldQuery("vm:", i, k.ino, Dec(k.ver));
    case VectorsOf(i) => FieldQuery("m:v:", i, k.ino, Dec(k.seqno));
    case TextsOf(i) => FieldQuery("m:t:", i, k.ino, Dec(k.seqno));
    case HeadersOf(i) => FieldQuery("m:h:", i, k.ino, Dec(k.seqno));
    case VerBlocksOf(i, v) => VerBlockPrefix(i, v, k);
  }

  lemma SummaryVectorPrefix(q: Query, k: Key)
    requires k.MemSummaryVector? && (q.AllVectors? || q.VectorsOf?)
    ensures EncodeQuery(q) <= Encode(k) <==> q.AllVectors?
  {
    var s := Encode(k);
    assert s[4] == 's' && s == "m:v:" + s[4..];
    if q.VectorsOf? {
      assert EncodeQuery(q)[4] == Dec(q.ino)[0];
    }
  }

  lemma VerBlockPrefix(i: nat, v: nat, k: Key)
    requires k.VerBlock?
    ensures EncodeQuery(VerBlocksOf(i, v)) <= Encode(k) <==> k.ino == i && k.ver == v
  {
    PrefixOfTagged("vb:", Dec(i) + ":" + (Dec(v) + ":"), Body(k));
    var rest := Dec(k.ver) + ":" + Dec(k.block);
    var p, b := Dec(i) + ":" + (Dec(v) + ":"), Dec(k.ino) + ":" + rest;
    assert Body(k) == b;
    if k.ino == i {
      PrefixOfTagged(Dec(i) + ":", Dec(v) + ":", rest);
      FieldPrefix(v, k.ver, Dec(k.block));
    } else if p <= b {
      assert Dec(i) + ":" <= p <= b;
      FieldPrefix(i, k.ino, rest);
    }
  }

  /** mem_search skips a vector key when the two characters after "m:v:" are "s:";
      those are exactly the summary vectors. */
  lemma SkipsExactlySummaries(k: Key)
    requires Selects(AllVectors, k)
    ensures (|Encode(k)| > 6 && Encode(k)[4..6] == "s:") <==> k.MemSummaryVector?
  {
    var s := Encode(k);
    if k.MemSummaryVector? {
      assert s[4] == 's' && s[5] == ':';
      assert s[4..6] == "s:";
    } else {
      assert s[4] == Dec(k.ino)[0];
      if |s| > 6 { assert s[4..6][0] == s[4]; }
    }
  }

  /** Parsing "d:<parent>:<name>" at the first colon recovers both fields (ino_to_path). */
  lemma ParseDirentKey(p: nat, n: string)
    ensures |Encode(Dirent(p, n))| >= 2
    ensures SplitField(Encode(Dirent(p, n))[2..]) == Split(p, n)
  {
    assert Encode(Dirent(p, n))[2..] == Dec(p) + ":" + n;
    SplitFieldInverts(p, n);
  }

  // ---- the flat store and the typed store ----

  function Flatten<V>(m: map<Key, V>): (f: map<string, V>)
    ensures forall k :: k in m ==> Encode(k) in f && f[Encode(k)] == m[k]
    ensures forall s :: s in f ==> exists k :: k in m && Encode(k) == s
  {
    Injective(m.Keys);
    map k | k in m :: Encode(k) := m[k]
  }

  lemma Injective(keys: set<Key>)
    ensures forall a, b :: a in keys && b in keys && Encode(a) == Encode(b) ==> a == b
  {
    forall a, b | a in keys && b in keys && Encode(a) == Encode(b) ensures a == b {
      EncodeInjective(a, b);
    }
  }

  /** A flat map is the image of a typed one when it has the same entries. */
  lemma FlattenUnique<V>(m: map<Key, V>, f: map<string, V>)
    requires forall k :: k in m ==> Encode(k) in f && f[Encode(k)] == m[k]
    requires forall s :: s in f ==> exists k :: k in m && Encode(k) == s
    ensures f == Flatten(m)
  {
    var g := Flatten(m);
    forall s ensures s in f <==> s in g ensures s in f ==> f[s] == g[s] {
      if s in f {
        var k :| k in m && Encode(k) == s;
      }
    }
  }

  lemma FlatLookup<V>(m: map<Key, V>, k: Key)
    ensures Encode(k) in Flatten(m) <==> k in m
    ensures k in m ==> Flatten(m)[Encode(k)] == m[k]
  {
    if Encode(k) in Flatten(m) {
      var x :| x in m && Encode(x) == Encode(k);
      EncodeInjective(x, k);
    }
  }

  lemma FlatPut<V>(m: map<Key, V>, k: Key, v: V)
    ensures Flatten(m)[Encode(k) := v] == Flatten(m[k := v])
  {
    var f, m' := Flatten(m)[Encode(k) := v], m[k := v];
    forall x | x in m' ensures Encode(x) in f && f[Encode(x)] == m'[x] {
      EncodeInjective(x, k);
      FlatLookup(m, x);
    }
    forall s | s in f ensures exists x :: x in m' && Encode(x) == s {
      if s == Encode(k) {
        assert k in m';
      } else {
        var x :| x in m && Encode(x) == s;
        assert x in m';
      }
    }
    FlattenUnique(m', f);
  }

  lemma FlatDelete<V>(m: map<Key, V>, k: Key)
    ensures Flatten(m) - {Encode(k)} == Flatten(m - {k})
  {
    var f, m' := Flatten(m) - {Encode(k)}, m - {k};
    forall x | x in m' ensures Encode(x) in f && f[Encode(x)] == m'[x] {
      EncodeInjective(x, k);
      FlatLookup(m, x);
    }
    forall s | s in f ensures exists x :: x in m' && Encode(x) == s {
      var x :| x in m && Encode(x) == s;
      assert x in m';
    }
    FlattenUnique(m', f);
  }

  function TypedQuery<V>(m: map<Key, V>, q: Query): map<Key, V> {
    map x | x in m && Selects(q, x) :: m[x]
  }

  function FlatQuery<V>(f: map<string, V>, prefix: string): map<string, V> {
    map s | s in f && prefix <= s :: f[s]
  }

  lemma FlatPrefix<V>(m: map<Key, V>, q: Query)
    ensures FlatQuery(Flatten(m), EncodeQuery(q)) == Flatten(TypedQuery(m, q))
  {
    var f, m' := FlatQuery(Flatten(m), EncodeQuery(q)), TypedQuery(m, q);
    forall x | x in m' ensures Encode(x) in f && f[Encode(x)] == m'[x] {
      PrefixSelects(q, x);
      FlatLookup(m, x);
    }
    forall s | s in f ensures exists x :: x in m' && Encode(x) == s {
      var x :| x in m && Encode(x) == s;
      PrefixSelects(q, x);
      assert x in m';
    }
    FlattenUnique(m', f);
  }

  /** Lookup, put, delete and prefix iteration on the flat store are the typed ones. */
  lemma FlatStoreIsTyped<V>(m: map<Key, V>, k: Key, v: V, q: Query)
    ensures Encode(k) in Flatten(m) <==> k in m
    ensures k in m ==> Flatten(m)[Encode(k)] == m[k]
    ensures Flatten(m)[Encode(k) := v] == Flatten(m[k := v])
    ensures Flatten(m) - {Encode(k)} == Flatten(m - {k})
    ensures FlatQuery(Flatten(m), EncodeQuery(q)) == Flatten(TypedQuery(m, q))
  {
    FlatLookup(m, k);
    FlatPut(m, k, v);
    FlatDelete(m, k);
    FlatPrefix(m, q);
  }

  // ---- buffers ----

  /** The text of a key with its terminator fits a buffer.  The encoders of keys with a name test
      this and fail; the others rely on NumericKeysFit. */
  predicate Fits(k: Key, buflen: nat) { |Encode(k)| < buflen }

  const WORD: nat := 0x1_0000_0000_0000_0000

  /** The numbers in a key are 64-bit numbers. */
  predicate Words(k: Key) {
    match k
    case SuperKey => true
    case InodeKey(i) => i < WORD
    case Dirent(p, _) => p < WORD
    case Block(i, b) => i < WORD && b < WORD
    case Xattr(i, _) => i < WORD
    case VerCounter(i) => i < WORD
    case VerMeta(i, v) => i < WORD && v < WORD
    case VerBlock(i, v, b) => i < WORD && v < WORD && b < WORD
    case MemVector(i, s) => i < WORD && s < WORD
    case MemText(i, s) => i < WORD && s < WORD
    case MemHeader(i, s) => i < WORD && s < WORD
    case MemSeq(i) => i < WORD
    case MemGen(i) => i < WORD
    case MemArchive(i, g, x) => i < WORD && g < WORD && x < WORD
    case MemSummary(i, g) => i < WORD && g < WORD
    case MemSummaryVector(i, g) => i < WORD && g < WORD
  }

  /** The buffers the callers of the encoders declare. */
  function BufferOf(k: Key): nat {
    match k
    case Dirent(_, _) => 512
    case Xattr(_, _) => 512
    case VerBlock(_, _, _) => 96
    case MemVector(_, _) => 128
    case MemText(_, _) => 128
    case MemHeader(_, _) => 128
    case MemArchive(_, _, _) => 128
    case MemSummary(_, _) => 128
    case MemSummaryVector(_, _) => 128
    case _ => 64
  }

  /** No key without a name is ever cut off. */
  lemma NumericKeysFit(k: Key)
    requires Words(k) && !k.Dirent? && !k.Xattr?
    ensures Fits(k, BufferOf(k)) && |Encode(k)| <= 66
  {
    hide Dec;
    match k
    case SuperKey =>
    case InodeKey(i) => DecLength64(i);
    case VerCounter(i) => DecLength64(i);
    case MemSeq(i) => DecLength64(i);
    case MemGen(i) => DecLength64(i);
    case Block(i, b) => DecLength64(i); DecLength64(b);
    case VerMeta(i, v) => DecLength64(i); DecLength64(v);
    case MemVector(i, s) => DecLength64(i); DecLength64(s);
    case MemText(i, s) => DecLength64(i); DecLength64(s);
    case MemHeader(i, s) => DecLength64(i); DecLength64(s);
    case MemSummary(i, g) => DecLength64(i); DecLength64(g);
    case MemSummaryVector(i, g) => DecLength64(i); DecLength64(g);
    case VerBlock(i, v, b) => DecLength64(i); DecLength64(v); DecLength64(b);
    case MemArchive(i, g, x) => DecLength64(i); DecLength64(g); DecLength64(x);
  }
}
