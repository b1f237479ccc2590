/** ino_to_path (src/fuse_ops.c:102-173): turns an inode number into a path by searching the
    directory entries upwards.  Its partner is the downward lookup of dirent_lookup. */
module PathLookup {
  import opened Keys
  import opened Store
  import opened Tree
  import opened Namespace
  import F = FileSystem

  const MAX_DEPTH: nat := 128

  /** Names the kernel passes: not empty and without a slash. */
  predicate GoodName(n: string) { n != "" && '/' !in n }

  predicate AllGood(names: seq<string>) { forall i :: 0 <= i < |names| ==> GoodName(names[i]) }

  /** dirent_lookup of one component after another from directory d; 0 when one is missing. */
  function Resolve(db: Db, d: nat, names: seq<string>): nat
    decreases |names|
  {
    if names == [] then d
    else if Lookup(db, d, names[0]) != 0 then Resolve(db, Lookup(db, d, names[0]), names[1..])
    else 0
  }

  /** Resolving a path from directory d to another directory goes one level down a component. */
  lemma {:induction false} ResolveDepth(db: Db, nodes: Nodes, depth: map<nat, nat>, d: nat, names: seq<string>)
    requires TreeOk(EntriesOf(db), nodes) && 0 !in nodes && Ranked(EntriesOf(db), nodes, depth)
    requires IsDir(nodes, d) && IsDir(nodes, Resolve(db, d, names))
    ensures d in depth && Resolve(db, d, names) in depth
    ensures depth[Resolve(db, d, names)] == depth[d] + |names|
    decreases |names|
  {
    hide EntriesOf, AllCounted, Rooted, Lookup;
    if names != [] {
      var c, rest := Lookup(db, d, names[0]), names[1..];
      LookupMeans(db, nodes, d, names[0]);
      if rest != [] {
        LookupMeans(db, nodes, c, rest[0]);
      }
      ResolveDepth(db, nodes, depth, c, rest);
    }
  }

  /** "/a/b/c" */
  function PathText(names: seq<string>): string {
    if names == [] then "" else "/" + names[0] + PathText(names[1..])
  }

  function FirstSlash(s: string): (i: nat)
    ensures i <= |s|
    ensures i < |s| ==> s[i] == '/'
    ensures '/' !in s[..i]
  {
    if s == "" || s[0] == '/' then 0 else
    var i := FirstSlash(s[1..]);
    assert s[..i + 1] == [s[0]] + s[1..][..i];
    i + 1
  }

  /** The components of an absolute path. */
  function SplitPath(s: string): (names: seq<string>)
    decreases |s|
  {
    if s == "" then [] else
    var rest := s[1..];
    var i := FirstSlash(rest);
    [rest[..i]] + SplitPath(rest[i..])
  }

  lemma FirstSlashAfter(n: string, tail: string)
    requires '/' !in n && (tail == "" || tail[0] == '/')
    ensures FirstSlash(n + tail) == |n|
  {
    var s := n + tail;
    var i := FirstSlash(s);
    assert forall j :: 0 <= j < |n| ==> s[j] == n[j] && n[j] in n;
    assert forall j :: 0 <= j < i ==> s[..i][j] == s[j] && s[j] in s[..i];
    assert tail != "" ==> s[|n|] == '/';
  }

  /** Splitting undoes printing. */
  lemma {:induction false} SplitInvertsPrint(names: seq<string>)
    requires AllGood(names)
    ensures SplitPath(PathText(names)) == names
    ensures names != [] ==> PathText(names)[0] == '/'
  {
    if names != [] {
      var n, tail := names[0], PathText(names[1..]);
      SplitInvertsPrint(names[1..]);
      FirstSlashAfter(n, tail);
      SplitStep(n, tail);
      assert names == [n] + names[1..];
    }
  }

  lemma SplitStep(n: string, tail: string)
    requires FirstSlash(n + tail) == |n|
    ensures SplitPath("/" + n + tail) == [n] + SplitPath(tail)
  {
    var s := "/" + n + tail;
    assert s[1..] == n + tail;
    assert (n + tail)[..|n|] == n && (n + tail)[|n|..] == tail;
  }

  /** Printing undoes splitting, for text that is empty or starts with a slash. */
  lemma {:induction false} PrintInvertsSplit(s: string)
    requires s == "" || s[0] == '/'
    ensures PathText(SplitPath(s)) == s
    decreases |s|
  {
    if s != "" {
      var rest := s[1..];
      var i := FirstSlash(rest);
      var n, tail := rest[..i], rest[i..];
      PrintInvertsSplit(tail);
      PathTextCons(n, SplitPath(tail));
      assert s == "/" + n + tail;
    }
  }

  lemma PathTextCons(n: string, names: seq<string>)
    ensures PathText([n] + names) == "/" + n + PathText(names)
  {
    assert ([n] + names)[1..] == names;
  }

  function Reverse(s: seq<string>): (r: seq<string>)
    ensures |r| == |s|
    ensures forall i :: 0 <= i < |s| ==> r[i] == s[|s| - 1 - i]
  {
    if s == [] then [] else [s[|s| - 1]] + Reverse(s[..|s| - 1])
  }

  lemma ReverseAppend(s: seq<string>, n: string)
    ensures Reverse(s + [n]) == [n] + Reverse(s)
  {
    assert (s + [n])[..|s|] == s;
  }

  /** A C string printed into a buffer of buflen bytes. */
  function Cut(s: string, buflen: nat): (r: string)
    requires buflen > 0
    ensures r <= s && |r| < buflen && (r == s || |r| == buflen - 1)
  {
    if |s| < buflen then s else s[..buflen - 1]
  }

  /** The cut text still names the same components only when nothing was cut. */
  lemma CutExact(names: seq<string>, buflen: nat)
    requires AllGood(names)
    requires buflen >= 2
    ensures SplitPath(Cut(PathText(names), buflen)) == names <==> |PathText(names)| < buflen
  {
    SplitInvertsPrint(names);
    var text := Cut(PathText(names), buflen);
    if |PathText(names)| >= buflen {
      PrintInvertsSplit(text);
      assert |text| < |PathText(names)|;
    }
  }

  /** The component-printing loop: stops at the first component that does not fit. */
  method PrintComponents(components: seq<string>, buflen: nat) returns (text: string)
    requires buflen > 0
    ensures text == Cut(PathText(Reverse(components)), buflen)
  {
    ghost var names := Reverse(components);
    text := "";
    var i := |components|;
    ghost var k := 0;
    assert PathText(names[..0]) == "";
    while i > 0
      invariant 0 <= i <= |components| && k == |components| - i
      invariant text == PathText(names[..k]) && |text| < buflen
    {
      i := i - 1;
      var piece := "/" + components[i];
      assert components[i] == names[k];
      PathTextSplit(names, k);
      if |piece| >= buflen - |text| {
        text := text + piece[..buflen - |text| - 1];
        assert text == PathText(names)[..buflen - 1];
        return;
      }
      text := text + piece;
      PathTextStep(names, k);
      k := k + 1;
    }
    assert names[..k] == names;
  }

  lemma {:induction false} PathTextConcat(a: seq<string>, b: seq<string>)
    ensures PathText(a + b) == PathText(a) + PathText(b)
  {
    if a == [] {
      assert a + b == b;
    } else {
      PathTextConcat(a[1..], b);
      assert (a + b)[1..] == a[1..] + b;
    }
  }

  lemma PathTextSplit(names: seq<string>, k: nat)
    requires k < |names|
    ensures PathText(names) == PathText(names[..k]) + ("/" + names[k]) + PathText(names[k + 1..])
  {
    assert names == names[..k] + names[k..];
    PathTextConcat(names[..k], names[k..]);
    assert names[k..][1..] == names[k + 1..];
  }

  lemma PathTextStep(names: seq<string>, k: nat)
    requires k < |names|
    ensures PathText(names[..k + 1]) == PathText(names[..k]) + ("/" + names[k])
  {
    assert names[..k + 1] == names[..k] + [names[k]];
    PathTextConcat(names[..k], [names[k]]);
    assert [names[k]][1..] == [];
  }

  /** ino_to_path.  The ghost results are the components found, the directory the search ended
      at, and the entry it found for the inode itself.  The search ends at the root unless that
      entry's directory is MAX_DEPTH or more levels down; then it ends at a directory further
      down, and the printed text only looks absolute. */
  method InoToPath(g: Context, ino: nat, buflen: nat, ghost depth: map<nat, nat>)
    returns (ok: bool, text: string, ghost names: seq<string>, ghost top: nat, ghost first: Entry)
    requires Healthy(g) && buflen >= 2 && Ranked(EntriesOf(g.db), g.inodes, depth)
    ensures ok <==> ino in g.inodes
    ensures ino == ROOT_INO ==> text == "/" && names == [] && top == ROOT_INO
    ensures ok ==> Resolve(g.db, top, names) == ino
    ensures ok && ino != ROOT_INO ==> names != [] && text == Cut(PathText(names), buflen)
    ensures ok && ino != ROOT_INO ==> Lookup(g.db, first.parent, first.name) == ino && first.parent in depth
    ensures ok && ino != ROOT_INO ==> (top == ROOT_INO <==> depth[first.parent] < MAX_DEPTH)
    ensures ok && IsDir(g.inodes, ino) ==> ino in depth && (top == ROOT_INO <==> depth[ino] <= MAX_DEPTH)
    ensures ok ==> top == ROOT_INO || |names| == MAX_DEPTH
  {
    hide Healthy, EntriesOf, GoodName, Ranked, Lookup, TreeOk, Joined;
    HealthyParts(g);
    ghost var e := EntriesOf(g.db);
    RootDepth(e, g.inodes, depth);
    names, top, first := [], ino, Entry(0, "");
    if ino == ROOT_INO {
      return true, "/", [], ROOT_INO, first;
    }
    var components: seq<string> := [];
    var cur := ino;
    while cur != ROOT_INO && |components| < MAX_DEPTH
      invariant |components| <= MAX_DEPTH && (components == [] <==> cur == ino && names == [])
      invariant names == Reverse(components) && Resolve(g.db, cur, names) == ino
      invariant components != [] ==> ino in g.inodes && IsDir(g.inodes, cur) && cur in depth
      invariant components != [] ==> Lookup(g.db, first.parent, first.name) == ino && first.parent in depth
      invariant components != [] ==> depth[cur] + |components| == depth[first.parent] + 1
      invariant components != [] && IsDir(g.inodes, ino) ==> ino in depth && depth[ino] == depth[first.parent] + 1
      decreases MAX_DEPTH - |components|
    {
      var found, parent, name := FindParent(g, cur, depth);
      if !found {
        break;
      }
      if components == [] {
        first := Entry(parent, name);
      }
      ReverseAppend(components, name);
      names := [name] + names;
      assert names[1..] == Reverse(components);
      components := components + [name];
      cur := parent;
    }
    top := cur;
    if |components| == 0 {
      return false, Cut("ino:" + Dec(ino), buflen), [], ino, first;
    }
    if cur != ROOT_INO {
      DeeperThanRoot(e, g.inodes, depth, cur);
    }
    text := PrintComponents(components, buflen);
    ok := true;
  }

  lemma RootDepth(e: Entries, nodes: Nodes, depth: map<nat, nat>)
    requires TreeOk(e, nodes) && Ranked(e, nodes, depth)
    ensures ROOT_INO in nodes && ROOT_INO in depth && depth[ROOT_INO] == 0
  {
  }

  /** One scan of all directory entries for one naming cur, and the parsing of its key. */
  method FindParent(g: Context, cur: nat, ghost depth: map<nat, nat>) returns (found: bool, parent: nat, name: string)
    requires Healthy(g) && cur != ROOT_INO && Ranked(EntriesOf(g.db), g.inodes, depth)
    ensures found <==> cur in g.inodes
    ensures found ==> Lookup(g.db, parent, name) == cur && cur != 0
    ensures found ==> IsDir(g.inodes, parent) && parent in depth
    ensures found && IsDir(g.inodes, cur) ==> cur in depth && depth[cur] == depth[parent] + 1
  {
    hide Healthy, FsOk, Recoverable, Registered, AllStored, EntriesOf, Ranked, TreeOk, Joined, ChildOf;
    HealthyParts(g);
    ParentExists(g.db, g.inodes, cur);
    var candidates := set k | k in g.db && k.Dirent? && ChildOf(g.db[k]) == cur;
    if cur in g.inodes {
      ghost var known :| known in g.db && known.Dirent? && ChildOf(g.db[known]) == cur;
      assert known in candidates;
    }
    if candidates == {} {
      return false, 0, "";
    }
    var k :| k in candidates;
    EntryOfKey(g.db, g.inodes, k, depth);
    parent, name := ParseKey(k);
    return true, parent, name;
  }

  /** Skips "d:", then splits at the first colon; the rest is the name. */
  method ParseKey(k: Key) returns (parent: nat, name: string)
    requires k.Dirent?
    ensures parent == k.parent && name == k.name
  {
    hide *;
    ParseDirentKey(k.parent, k.name);
    match SplitField(Encode(k)[2..])
    case Split(field, rest) => return field, rest;
  }

  lemma EntryOfKey(db: Db, nodes: Nodes, k: Key, depth: map<nat, nat>)
    requires Recoverable(db) && TreeOk(EntriesOf(db), nodes) && Ranked(EntriesOf(db), nodes, depth)
    requires k in db && k.Dirent?
    ensures Lookup(db, k.parent, k.name) == ChildOf(db[k]) && ChildOf(db[k]) in nodes
    ensures IsDir(nodes, k.parent) && k.parent in depth
    ensures IsDir(nodes, ChildOf(db[k])) ==>
      ChildOf(db[k]) in depth && depth[ChildOf(db[k])] == depth[k.parent] + 1
  {
    hide Fits;
    assert Entry(k.parent, k.name) in EntriesOf(db);
  }

  lemma DeeperThanRoot(e: Entries, nodes: Nodes, depth: map<nat, nat>, d: nat)
    requires TreeOk(e, nodes) && Ranked(e, nodes, depth) && IsDir(nodes, d) && d != ROOT_INO
    ensures d in depth && depth[d] > 0
  {
    NoOrphans(e, nodes, d);
    var x :| x in e && e[x] == d;
  }

  /** Resolving the returned text from the root gives the inode back when the text fits and
      every name of the inode is in a directory less than MAX_DEPTH levels down, for files with
      several names too; for a directory, exactly when it is at most MAX_DEPTH levels down. */
  method PathRoundTrip(g: Context, ino: nat, buflen: nat, ghost depth: map<nat, nat>) returns (ok: bool, text: string)
    requires Healthy(g) && buflen >= 2 && ino in g.inodes && ino != ROOT_INO
    requires Ranked(EntriesOf(g.db), g.inodes, depth)
    requires forall x :: x in EntriesOf(g.db) ==> GoodName(x.name)
    ensures ok
    ensures |text| + 1 < buflen && NamesShallow(g.db, depth, ino) ==> Resolve(g.db, ROOT_INO, SplitPath(text)) == ino
    ensures |text| + 1 < buflen && IsDir(g.inodes, ino) ==>
      ino in depth && (Resolve(g.db, ROOT_INO, SplitPath(text)) == ino <==> depth[ino] <= MAX_DEPTH)
  {
    hide Healthy, EntriesOf, GoodName, Ranked, Lookup, TreeOk, Joined;
    HealthyParts(g);
    ghost var names, top, first;
    ok, text, names, top, first := InoToPath(g, ino, buflen, depth);
    LookupMeans(g.db, g.inodes, first.parent, first.name);
    ResolvedNamesGood(g.db, g.inodes, top, names);
    CutExact(names, buflen);
    if IsDir(g.inodes, ino) && Resolve(g.db, ROOT_INO, names) == ino {
      RootDepth(EntriesOf(g.db), g.inodes, depth);
      RootIsDir(EntriesOf(g.db), g.inodes);
      ResolveDepth(g.db, g.inodes, depth, ROOT_INO, names);
    }
  }

  /** Every name of inode i is in a directory less than MAX_DEPTH levels down. */
  ghost predicate NamesShallow(db: Db, depth: map<nat, nat>, i: nat) {
    forall x :: x in EntriesOf(db) && EntriesOf(db)[x] == i && x.parent in depth ==> depth[x.parent] < MAX_DEPTH
  }

  lemma RootIsDir(e: Entries, nodes: Nodes)
    requires TreeOk(e, nodes)
    ensures IsDir(nodes, ROOT_INO)
  {
  }

  lemma {:induction false} ResolvedNamesGood(db: Db, nodes: Nodes, d: nat, names: seq<string>)
    requires Joined(EntriesOf(db), nodes) && 0 !in nodes
    requires forall x :: x in EntriesOf(db) ==> GoodName(x.name)
    requires Resolve(db, d, names) != 0
    ensures AllGood(names)
    decreases |names|
  {
    hide EntriesOf, Lookup, GoodName, Joined;
    if names != [] {
      LookupMeans(db, nodes, d, names[0]);
      ResolvedNamesGood(db, nodes, Lookup(db, d, names[0]), names[1..]);
      assert GoodName(Entry(d, names[0]).name);
      forall i | 0 <= i < |names| ensures GoodName(names[i]) {
        assert i > 0 ==> names[i] == names[1..][i - 1];
      }
    }
  }

  // ---- a tree that is too deep ----

  /** No entry is in directory d, and d is i levels down. */
  ghost predicate EmptyAt(db: Db, nodes: Nodes, d: nat, i: nat) {
    && (forall name :: Dirent(d, name) !in db)
    && (forall depth :: Ranked(EntriesOf(db), nodes, depth) ==> d in depth && depth[d] == i)
  }

  lemma RootAlone(db: Db, nodes: Nodes)
    requires forall k :: k in db ==> !k.Dirent?
    ensures EmptyAt(db, nodes, ROOT_INO, 0)
  {
  }

  lemma OneNameFits(d: nat)
    requires d < WORD
    ensures Fits(Dirent(d, "a"), KEY_MAX)
  {
    hide Dec;
    DecLength64(d);
  }

  lemma NameFree(db: Db, nodes: Nodes, d: nat, i: nat)
    requires EmptyAt(db, nodes, d, i) && IsDir(nodes, d) && Fits(Dirent(d, "a"), KEY_MAX)
    ensures AddStatus(db, nodes, d, "a").Done?
  {
    hide Fits, Ranked, EntriesOf;
  }

  /** A directory in an empty directory is empty and one level further down. */
  lemma OneDeeper(db: Db, nodes: Nodes, d: nat, i: nat, ino: nat)
    requires EmptyAt(db, nodes, d, i) && IsDir(nodes, d) && ino !in nodes && Unmentioned(db, ino)
    requires Fits(Dirent(d, "a"), KEY_MAX)
    ensures var db', nodes' := Added(db, ino, d, "a", Inode(Dir, 2, 0, 0), map[]), NewNode(nodes, d, ino, Inode(Dir, 2, 0, 0));
      Lookup(db', d, "a") == ino && IsDir(nodes', ino) && EmptyAt(db', nodes', ino, i + 1)
  {
    hide Fits, EntriesOf, Ranked, Added, NewNode, Lookup, Unmentioned, EmptyAt;
    var db', nodes' := Added(db, ino, d, "a", Inode(Dir, 2, 0, 0), map[]), NewNode(nodes, d, ino, Inode(Dir, 2, 0, 0));
    OneMoreName(db, d, ino);
    OneMoreDir(nodes, d, ino);
    AddedEntries(db, ino, d, "a", Inode(Dir, 2, 0, 0), map[]);
    NoneThere(db, nodes, d, i);
    forall depth | Ranked(EntriesOf(db'), nodes', depth) ensures ino in depth && depth[ino] == i + 1 {
      RankedBefore(EntriesOf(db), nodes, Entry(d, "a"), ino, nodes', depth);
      RankOf(db, nodes, d, i, depth);
    }
    EmptyIntro(db', nodes', ino, i + 1);
  }

  lemma NoneThere(db: Db, nodes: Nodes, d: nat, i: nat)
    requires EmptyAt(db, nodes, d, i)
    ensures Entry(d, "a") !in EntriesOf(db)
  {
    hide Ranked;
    assert Dirent(d, "a") !in db;
  }

  lemma RankOf(db: Db, nodes: Nodes, d: nat, i: nat, depth: map<nat, nat>)
    requires EmptyAt(db, nodes, d, i) && Ranked(EntriesOf(db), nodes, depth)
    ensures d in depth && depth[d] == i
  {
    hide Ranked, EntriesOf;
  }

  lemma EmptyIntro(db: Db, nodes: Nodes, d: nat, i: nat)
    requires forall name :: Dirent(d, name) !in db
    requires forall depth :: Ranked(EntriesOf(db), nodes, depth) ==> d in depth && depth[d] == i
    ensures EmptyAt(db, nodes, d, i)
  {
    hide Ranked, EntriesOf;
  }

  lemma OneMoreName(db: Db, d: nat, ino: nat)
    requires Unmentioned(db, ino) && d != ino && Fits(Dirent(d, "a"), KEY_MAX)
    ensures var db' := Added(db, ino, d, "a", Inode(Dir, 2, 0, 0), map[]);
      Lookup(db', d, "a") == ino && forall name :: Dirent(ino, name) !in db'
  {
    hide Fits;
  }

  lemma OneMoreDir(nodes: Nodes, d: nat, ino: nat)
    requires IsDir(nodes, d) && ino !in nodes
    ensures var nodes' := NewNode(nodes, d, ino, Inode(Dir, 2, 0, 0));
      IsDir(nodes', ino) && forall x :: IsDir(nodes, x) ==> IsDir(nodes', x)
  {
  }

  lemma RankedBefore(e: Entries, nodes: Nodes, x: Entry, c: nat, nodes': Nodes, depth: map<nat, nat>)
    requires x !in e && Ranked(e[x := c], nodes', depth) && IsDir(nodes', c)
    requires forall d :: IsDir(nodes, d) ==> IsDir(nodes', d)
    ensures Ranked(e, nodes, depth) && x.parent in depth && c in depth && depth[c] == depth[x.parent] + 1
  {
    assert e[x := c][x] == c;
    assert forall y :: y in e ==> e[x := c][y] == e[y];
  }

  /** mkdir a/a/.../a with n components, in a file system that was just made. */
  method DeepTree(n: nat) returns (g: Context, d: nat)
    requires n < 1000
    ensures fresh(g) && Healthy(g) && IsDir(g.inodes, d)
    ensures forall depth :: Ranked(EntriesOf(g.db), g.inodes, depth) ==> d in depth && depth[d] == n
  {
    hide Healthy, FsOk, Recoverable, Registered, AllStored, EntriesOf, TreeOk, Ranked, Fits, Lookup, EmptyAt, Added, NewNode, Unmentioned;
    g := new Context.Mount();
    F.MountHealthy(g);
    d := ROOT_INO;
    RootAlone(g.db, g.inodes);
    for i := 0 to n
      invariant fresh(g) && Healthy(g) && IsDir(g.inodes, d) && d <= i + 1 && g.nextIno == i + 2
      invariant EmptyAt(g.db, g.inodes, d, i)
    {
      HealthyParts(g);
      FreshIno(g.db, g.inodes, g.nextIno);
      NoMention(g.db, g.inodes, g.nextIno);
      OneNameFits(d);
      NameFree(g.db, g.inodes, d, i);
      OneDeeper(g.db, g.inodes, d, i, g.nextIno);
      var r := Mkdir(g, d, "a");
      d := Lookup(g.db, d, "a");
    }
    LevelOf(g.db, g.inodes, d, n);
  }

  lemma LevelOf(db: Db, nodes: Nodes, d: nat, i: nat)
    requires EmptyAt(db, nodes, d, i)
    ensures forall depth :: Ranked(EntriesOf(db), nodes, depth) ==> d in depth && depth[d] == i
  {
    hide Ranked, EntriesOf;
  }

  /** A directory 129 levels down: success is reported for a path that starts at another one. */
  method TooDeep(buflen: nat) returns (g: Context, d: nat, ok: bool, text: string, ghost names: seq<string>, ghost top: nat)
    requires buflen >= 2
    ensures fresh(g) && Healthy(g) && IsDir(g.inodes, d) && ok
    ensures top != ROOT_INO && Resolve(g.db, top, names) == d && text == Cut(PathText(names), buflen)
  {
    hide Healthy, EntriesOf, Ranked, Lookup, TreeOk;
    g, d := DeepTree(MAX_DEPTH + 1);
    HealthyParts(g);
    ghost var depth := SomeRanks(EntriesOf(g.db), g.inodes);
    RootDepth(EntriesOf(g.db), g.inodes, depth);
    ghost var first;
    ok, text, names, top, first := InoToPath(g, d, buflen, depth);
  }

  lemma SomeRanks(e: Entries, nodes: Nodes) returns (depth: map<nat, nat>)
    requires TreeOk(e, nodes)
    ensures Ranked(e, nodes, depth)
  {
    hide Ranked;
    depth :| Ranked(e, nodes, depth);
  }
}
