/** What the requests on names do, on a tree of names alone: entries, the kinds of the inodes and
    the next number (src/fuse_ops.c).  Records, link counts, blocks and keys play no part here;
    this is what the store is proved to implement. */
module NameTree {
  import opened Keys
  import opened Store
  import opened Tree
  import opened Namespace

  datatype Names = Names(entries: Entries, kinds: map<nat, Kind>, next: nat)

  function KindsOf(nodes: Nodes): (k: map<nat, Kind>)
    ensures k.Keys == nodes.Keys
  {
    map i | i in nodes :: nodes[i].kind
  }

  function NamesOf(db: Db, nodes: Nodes, nextIno: nat): Names { Names(EntriesOf(db), KindsOf(nodes), nextIno) }

  predicate Directory(s: Names, i: nat) { i in s.kinds && s.kinds[i].Dir? }

  predicate NameFits(x: Entry) { Fits(Dirent(x.parent, x.name), KEY_MAX) }

  /** A new inode under a new name; a name that is too long still uses up a number. */
  function Made(s: Names, x: Entry, kind: Kind): Names {
    if !Directory(s, x.parent) || x in s.entries then s
    else if !NameFits(x) then s.(next := s.next + 1)
    else Names(s.entries[x := s.next], s.kinds[s.next := kind], s.next + 1)
  }

  /** Another name for a file. */
  function Linked(s: Names, x: Entry, ino: nat): Names {
    if ino in s.kinds && !Directory(s, ino) && Directory(s, x.parent) && x !in s.entries && NameFits(x)
    then s.(entries := s.entries[x := ino])
    else s
  }

  /** Some entry other than x names what x names. */
  ghost predicate OtherName(e: Entries, x: Entry)
    requires x in e
  {
    exists z :: z in e && z != x && e[z] == e[x]
  }

  /** One name less; an inode goes with its last name. */
  ghost function Removed(s: Names, x: Entry): Names
    requires x in s.entries
  {
    s.(entries := s.entries - {x}, kinds := if OtherName(s.entries, x) then s.kinds else s.kinds - {s.entries[x]})
  }

  ghost function FileRemoved(s: Names, x: Entry): Names {
    if x in s.entries && !Directory(s, s.entries[x]) then Removed(s, x) else s
  }

  ghost predicate NoneIn(e: Entries, d: nat) { forall z :: z in e ==> z.parent != d }

  ghost function DirectoryRemoved(s: Names, x: Entry): Names {
    if x in s.entries && Directory(s, s.entries[x]) && NoneIn(s.entries, s.entries[x]) then Removed(s, x) else s
  }

  /** The target of a move can be replaced: an empty directory, or a file without another name. */
  ghost predicate Replaceable(s: Names, y: Entry)
    requires y in s.entries
  {
    if Directory(s, s.entries[y]) then NoneIn(s.entries, s.entries[y]) else !OtherName(s.entries, y)
  }

  /** A move that is sent by the kernel, has a source, fits, and replaces nothing it must not. */
  ghost predicate Movable(s: Names, x: Entry, y: Entry) {
    && x in s.entries && Directory(s, y.parent) && NameFits(y)
    && (y in s.entries ==> s.entries[y] != s.entries[x] && Replaceable(s, y))
    && (Directory(s, s.entries[x]) ==> !Under(s.entries, s.entries[x], y.parent))
  }

  /** The entry moves, and what the new name named is gone. */
  ghost function MovedTo(s: Names, x: Entry, y: Entry): Names {
    if !Movable(s, x, y) then s
    else
      s.(entries := (s.entries - {y} - {x})[y := s.entries[x]],
         kinds := if y in s.entries then s.kinds - {s.entries[y]} else s.kinds)
  }

  // ---- the operations on the store do this ----

  lemma KindsNew(nodes: Nodes, p: nat, c: nat, node: Inode)
    requires p in nodes && p != c
    ensures KindsOf(NewNode(nodes, p, c, node)) == KindsOf(nodes)[c := node.kind]
  {
  }

  lemma MadeExact(r: Status, db: Db, nodes: Nodes, nextIno: nat, history: History,
    db': Db, nodes': Nodes, nextIno': nat, history': History, p: nat, name: string, node: Inode, data: Db)
    requires Outcome(r, db, nodes, nextIno, history, db', nodes', nextIno', history', p, name, node, data)
    requires AddAnswer(r, db, nodes, p, name)
    requires EntriesOf(db') == if r.Done? then EntriesOf(db)[Entry(p, name) := nextIno] else EntriesOf(db)
    ensures NamesOf(db', nodes', nextIno') == Made(NamesOf(db, nodes, nextIno), Entry(p, name), node.kind)
  {
    hide EntriesOf, KindsOf, NewNode, Added, Fits;
    KindsMean(nodes, p);
    assert Entry(p, name) in EntriesOf(db) <==> Dirent(p, name) in db;
    if r.Done? {
      KindsNew(nodes, p, nextIno, node);
    }
  }

  lemma KindsMean(nodes: Nodes, i: nat)
    ensures i in nodes <==> i in KindsOf(nodes)
    ensures i in nodes ==> KindsOf(nodes)[i] == nodes[i].kind
  {
  }

  lemma LinkedExact(r: Status, db: Db, nodes: Nodes, nextIno: nat, ino: nat, p: nat, name: string)
    requires LinkAnswer(r, db, nodes, ino, p, name)
    ensures r.Done? ==> ino in nodes
    ensures Linked(NamesOf(db, nodes, nextIno), Entry(p, name), ino)
      == if r.Done? then NamesOf(db[Dirent(p, name) := ChildValue(ino)], AddNlink(nodes, ino, 1), nextIno) else NamesOf(db, nodes, nextIno)
  {
    hide EntriesOf, KindsOf, Fits;
    KindsMean(nodes, p);
    KindsMean(nodes, ino);
    assert Entry(p, name) in EntriesOf(db) <==> Dirent(p, name) in db;
    if r.Done? {
      PutEntry(db, p, name, ino);
      assert KindsOf(AddNlink(nodes, ino, 1)) == KindsOf(nodes) by { KindsLinked(nodes, ino, 1); }
    }
  }

  lemma KindsLinked(nodes: Nodes, i: nat, delta: int)
    requires i in nodes && nodes[i].nlink + delta >= 0
    ensures KindsOf(AddNlink(nodes, i, delta)) == KindsOf(nodes)
  {
  }

  /** The link count says whether there is another name. */
  lemma LastNameExact(e: Entries, nodes: Nodes, x: Entry)
    requires TreeOk(e, nodes) && x in e
    ensures e[x] in nodes
    ensures !IsDir(nodes, e[x]) ==> nodes[e[x]].nlink > 0 && (nodes[e[x]].nlink == 1 <==> !OtherName(e, x))
    ensures IsDir(nodes, e[x]) ==> !OtherName(e, x)
  {
    var c := e[x];
    assert Counted(e, nodes, c) && x in Links(e, c);
    if |Links(e, c)| == 1 {
      Single(Links(e, c), x);
      forall z | z in e && e[z] == c ensures z == x {
        assert z in Links(e, c);
      }
    } else {
      var z := Another(Links(e, c), x);
      assert z in e && z != x && e[z] == e[x];
    }
  }

  lemma UnlinkedExact(r: Status, db: Db, nodes: Nodes, nextIno: nat, p: nat, name: string, db': Db, nodes': Nodes)
    requires TreeOk(EntriesOf(db), nodes) && UnlinkAnswer(r, db, nodes, p, name)
    requires EntriesOf(db') == if r.Done? then EntriesOf(db) - {Entry(p, name)} else EntriesOf(db)
    requires !r.Done? ==> nodes' == nodes
    requires r.Done? ==> var c := ChildOf(db[Dirent(p, name)]); c in nodes && nodes[c].nlink > 0 && nodes' == Unlinked(nodes, c)
    ensures NamesOf(db', nodes', nextIno) == FileRemoved(NamesOf(db, nodes, nextIno), Entry(p, name))
  {
    var x := Entry(p, name);
    assert x in EntriesOf(db) <==> Dirent(p, name) in db;
    assert x in EntriesOf(db) ==> EntriesOf(db)[x] == ChildOf(db[Dirent(p, name)]);
    hide EntriesOf, KindsOf, TreeOk, Unlinked, OtherName;
    if x in EntriesOf(db) {
      var c := EntriesOf(db)[x];
      LastNameExact(EntriesOf(db), nodes, x);
      KindsMean(nodes, c);
      if r.Done? { KindsUnlinked(nodes, c); }
    }
  }

  lemma KindsUnlinked(nodes: Nodes, c: nat)
    requires c in nodes && nodes[c].nlink > 0
    ensures KindsOf(Unlinked(nodes, c)) == if nodes[c].nlink == 1 then KindsOf(nodes) - {c} else KindsOf(nodes)
  {
  }

  lemma DirRemovedExact(r: Status, db: Db, nodes: Nodes, nextIno: nat, p: nat, name: string, db': Db, nodes': Nodes)
    requires TreeOk(EntriesOf(db), nodes) && RmdirAnswer(r, db, nodes, p, name)
    requires EntriesOf(db') == if r.Done? then EntriesOf(db) - {Entry(p, name)} else EntriesOf(db)
    requires !r.Done? ==> nodes' == nodes
    requires r.Done? ==> p in nodes && nodes[p].nlink > 0 && p != ChildOf(db[Dirent(p, name)])
    requires r.Done? ==> nodes' == DirRemoved(nodes, p, ChildOf(db[Dirent(p, name)]))
    ensures NamesOf(db', nodes', nextIno) == DirectoryRemoved(NamesOf(db, nodes, nextIno), Entry(p, name))
  {
    var x := Entry(p, name);
    assert x in EntriesOf(db) <==> Dirent(p, name) in db;
    assert x in EntriesOf(db) ==> EntriesOf(db)[x] == ChildOf(db[Dirent(p, name)]);
    hide EntriesOf, KindsOf, TreeOk, DirRemoved, OtherName;
    if x in EntriesOf(db) {
      var c := EntriesOf(db)[x];
      LastNameExact(EntriesOf(db), nodes, x);
      KindsMean(nodes, c);
      NoneInExact(db, nodes, c);
      if r.Done? { KindsDirRemoved(nodes, p, c); }
    }
  }

  lemma NoneInExact(db: Db, nodes: Nodes, c: nat)
    ensures IsDir(nodes, c) ==> (EmptyDir(db, nodes, c) <==> NoneIn(EntriesOf(db), c))
    ensures IsDir(nodes, c) ==> (FullDir(db, nodes, c) <==> !NoneIn(EntriesOf(db), c))
  {
    if NoneIn(EntriesOf(db), c) {
      forall n ensures Dirent(c, n) !in db {
        assert Entry(c, n) in EntriesOf(db) <==> Dirent(c, n) in db;
      }
    } else {
      var z :| z in EntriesOf(db) && z.parent == c;
      assert Dirent(c, z.name) in db;
    }
  }

  lemma KindsDirRemoved(nodes: Nodes, p: nat, c: nat)
    requires p in nodes && nodes[p].nlink > 0 && p != c
    ensures KindsOf(DirRemoved(nodes, p, c)) == KindsOf(nodes) - {c}
  {
  }

  /** The checks before and in a rename are those of a move on the tree of names. */
  lemma MovableExact(db: Db, nodes: Nodes, nextIno: nat, p: nat, name: string, np: nat, newname: string)
    requires Recoverable(db) && Registered(db, nodes, nextIno) && TreeOk(EntriesOf(db), nodes)
    ensures Movable(NamesOf(db, nodes, nextIno), Entry(p, name), Entry(np, newname))
      <==> Lookup(db, p, name) != 0 && RenameAllowed(db, nodes, p, name, np, newname)
           && ReplacesLastName(nodes, Lookup(db, np, newname)) && RenameStatus(db, nodes, p, name, np, newname).Done?
  {
    var x, y := Entry(p, name), Entry(np, newname);
    LookupExact(db, nodes, nextIno, p, name);
    LookupExact(db, nodes, nextIno, np, newname);
    RenameStatusExact(db, nodes, nextIno, p, name, np, newname);
    EntryIs(db, x);
    EntryIs(db, y);
    KindsMean(nodes, np);
    hide EntriesOf, KindsOf, TreeOk, OtherName, Recoverable, Registered, Lookup, RenameStatus, Fits, Under, NoneIn;
    if x in EntriesOf(db) {
      KindsMean(nodes, EntriesOf(db)[x]);
    }
    if y in EntriesOf(db) {
      var c := EntriesOf(db)[y];
      KindsMean(nodes, c);
      NoneInExact(db, nodes, c);
      LastNameExact(EntriesOf(db), nodes, y);
      assert FullDir(db, nodes, c) ==> IsDir(nodes, c);
    }
    hide FullDir;
  }

  lemma EntryIs(db: Db, x: Entry)
    ensures x in EntriesOf(db) <==> Dirent(x.parent, x.name) in db
    ensures x in EntriesOf(db) ==> EntriesOf(db)[x] == ChildOf(db[Dirent(x.parent, x.name)])
  {
  }

  lemma MovedExact(db: Db, nodes: Nodes, nextIno: nat, p: nat, name: string, np: nat, newname: string)
    requires Recoverable(db) && Registered(db, nodes, nextIno) && 0 !in nodes
    requires Movable(NamesOf(db, nodes, nextIno), Entry(p, name), Entry(np, newname))
    ensures NamesOf(RenamedDb(db, nodes, p, name, np, newname), RenamedNodes(db, nodes, p, name, np, newname), nextIno)
      == MovedTo(NamesOf(db, nodes, nextIno), Entry(p, name), Entry(np, newname))
  {
    LookupExact(db, nodes, nextIno, p, name);
    LookupExact(db, nodes, nextIno, np, newname);
    EntryIs(db, Entry(p, name));
    EntryIs(db, Entry(np, newname));
    hide EntriesOf, KindsOf, Recoverable, Registered, Lookup, Movable, RenamedDb, RenamedNodes;
    MovedNames(db, nodes, nextIno, p, name, np, newname);
    KindsRenamed(db, nodes, p, name, np, newname);
    var k, dst := KindsOf(nodes), Lookup(db, np, newname);
    if Entry(np, newname) !in EntriesOf(db) {
      assert k - {dst} == k;
    }
  }

  lemma KindsRenamed(db: Db, nodes: Nodes, p: nat, name: string, np: nat, newname: string)
    requires 0 !in nodes
    ensures KindsOf(RenamedNodes(db, nodes, p, name, np, newname)) == KindsOf(nodes) - {Lookup(db, np, newname)}
  {
    hide Lookup;
    var src, dst := Lookup(db, p, name), Lookup(db, np, newname);
    var rest := ReplacedNodes(nodes, np, dst);
    assert KindsOf(rest) == KindsOf(nodes) - {dst};
    if src in rest && p in rest && np in rest && (rest[src].kind.Dir? ==> rest[p].nlink > 0) {
      assert KindsOf(Moved(rest, p, np, src)) == KindsOf(rest);
    }
  }
}
