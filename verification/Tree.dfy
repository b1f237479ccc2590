/** The name space as a value: directory entries and inode attributes.  This module states
    what a sound tree is (link counts, one entry per directory, no cycles, no orphans) and
    proves that each change the operations of src/fuse_ops.c make keeps it. */
module Tree {
  import opened Store

  datatype Entry = Entry(parent: nat, name: string)

  type Entries = map<Entry, nat>
  type Nodes = map<nat, Inode>

  predicate IsDir(nodes: Nodes, i: nat) { i in nodes && nodes[i].kind.Dir? }

  /** The entries that name inode c. */
  function Links(e: Entries, c: nat): set<Entry> { set x | x in e && e[x] == c }

  /** The entries of directory d that name directories. */
  function Subdirs(e: Entries, nodes: Nodes, d: nat): set<Entry> {
    set x | x in e && x.parent == d && IsDir(nodes, e[x])
  }

  /** Entries sit in directories and join live inodes; nothing names the root. */
  ghost predicate Joined(e: Entries, nodes: Nodes) {
    && IsDir(nodes, ROOT_INO)
    && (forall x :: x in e ==> IsDir(nodes, x.parent) && e[x] in nodes && e[x] != ROOT_INO)
  }

  /** A file's link count is the number of entries naming it, and it has one; a directory's
      is two more than the number of its child directories, and exactly one entry names it
      unless it is the root. */
  ghost predicate Counted(e: Entries, nodes: Nodes, c: nat)
    requires c in nodes
  {
    if nodes[c].kind.Dir? then
      && nodes[c].nlink == 2 + |Subdirs(e, nodes, c)|
      && |Links(e, c)| == if c == ROOT_INO then 0 else 1
    else
      nodes[c].nlink == |Links(e, c)| > 0
  }

  /** depth gives every directory its distance from the root along entries. */
  ghost predicate Ranked(e: Entries, nodes: Nodes, depth: map<nat, nat>) {
    && (forall d :: IsDir(nodes, d) ==> d in depth)
    && ROOT_INO in depth && depth[ROOT_INO] == 0
    && (forall x :: x in e && IsDir(nodes, e[x]) ==>
          x.parent in depth && e[x] in depth && depth[e[x]] == depth[x.parent] + 1)
  }

  ghost predicate AllCounted(e: Entries, nodes: Nodes) {
    forall c {:trigger Counted(e, nodes, c)} :: c in nodes ==> Counted(e, nodes, c)
  }

  ghost predicate Rooted(e: Entries, nodes: Nodes) { exists depth :: Ranked(e, nodes, depth) }

  ghost predicate TreeOk(e: Entries, nodes: Nodes) {
    Joined(e, nodes) && AllCounted(e, nodes) && Rooted(e, nodes)
  }

  // ---- effect of one entry on the counting sets ----

  lemma LinkAdded(e: Entries, x: Entry, c: nat, i: nat)
    requires x !in e
    ensures |Links(e[x := c], i)| == if i == c then |Links(e, i)| + 1 else |Links(e, i)|
  {
    assert Links(e[x := c], i) == if i == c then Links(e, i) + {x} else Links(e, i);
  }

  lemma LinkRemoved(e: Entries, x: Entry, i: nat)
    requires x in e
    ensures |Links(e - {x}, i)| == if i == e[x] then |Links(e, i)| - 1 else |Links(e, i)|
  {
    assert Links(e - {x}, i) == Links(e, i) - {x};
    if i != e[x] {
      assert Links(e, i) - {x} == Links(e, i);
    }
  }

  lemma SubdirAdded(e: Entries, nodes: Nodes, nodes': Nodes, x: Entry, c: nat, d: nat)
    requires x !in e
    requires forall y :: y in e && y.parent == d ==> (IsDir(nodes', e[y]) <==> IsDir(nodes, e[y]))
    ensures |Subdirs(e[x := c], nodes', d)|
         == |Subdirs(e, nodes, d)| + if x.parent == d && IsDir(nodes', c) then 1 else 0
  {
    var a, b := Subdirs(e[x := c], nodes', d), Subdirs(e, nodes, d);
    forall y ensures y in a <==> y in b || (y == x && x.parent == d && IsDir(nodes', c)) {}
    if x.parent == d && IsDir(nodes', c) {
      assert a == b + {x};
    } else {
      assert a == b;
    }
  }

  lemma SubdirRemoved(e: Entries, nodes: Nodes, nodes': Nodes, x: Entry, d: nat)
    requires x in e
    requires forall y :: y in e && y != x && y.parent == d ==> (IsDir(nodes', e[y]) <==> IsDir(nodes, e[y]))
    ensures |Subdirs(e - {x}, nodes', d)|
         == |Subdirs(e, nodes, d)| - if x.parent == d && IsDir(nodes, e[x]) then 1 else 0
  {
    assert Subdirs(e - {x}, nodes', d) == Subdirs(e, nodes, d) - {x};
    if !(x.parent == d && IsDir(nodes, e[x])) {
      assert Subdirs(e, nodes, d) - {x} == Subdirs(e, nodes, d);
    }
  }

  lemma Single<T>(s: set<T>, x: T)
    requires x in s && |s| == 1
    ensures s == {x}
  {
    assert |s - {x}| == 0;
  }

  // ---- changes ----

  function AddNlink(nodes: Nodes, i: nat, delta: int): Nodes
    requires i in nodes && nodes[i].nlink + delta >= 0
  {
    nodes[i := nodes[i].(nlink := nodes[i].nlink + delta)]
  }

  /** create, symlink and mkdir: a fresh inode c with one entry; a new directory also counts
      towards its parent. */
  function NewNode(nodes: Nodes, p: nat, c: nat, node: Inode): Nodes
    requires p in nodes && p != c
  {
    var more := nodes[c := node];
    if node.kind.Dir? then AddNlink(more, p, 1) else more
  }

  lemma NewNodeCounted(e: Entries, nodes: Nodes, x: Entry, c: nat, node: Inode, i: nat)
    requires Joined(e, nodes) && IsDir(nodes, x.parent) && x !in e
    requires c !in nodes && node.nlink == if node.kind.Dir? then 2 else 1
    requires i == c || (i in nodes && Counted(e, nodes, i))
    ensures i in NewNode(nodes, x.parent, c, node)
    ensures Counted(e[x := c], NewNode(nodes, x.parent, c, node), i)
  {
    LinkAdded(e, x, c, i);
    SubdirAdded(e, nodes, NewNode(nodes, x.parent, c, node), x, c, i);
    if i == c {
      assert Links(e, c) == {} && Subdirs(e, nodes, c) == {};
    }
  }

  lemma NewNodeAllCounted(e: Entries, nodes: Nodes, x: Entry, c: nat, node: Inode)
    requires Joined(e, nodes) && AllCounted(e, nodes) && IsDir(nodes, x.parent) && x !in e
    requires c !in nodes && node.nlink == if node.kind.Dir? then 2 else 1
    ensures AllCounted(e[x := c], NewNode(nodes, x.parent, c, node))
  {
    forall i | i in NewNode(nodes, x.parent, c, node)
      ensures Counted(e[x := c], NewNode(nodes, x.parent, c, node), i)
    {
      NewNodeCounted(e, nodes, x, c, node, i);
    }
  }

  lemma NewNodeKeeps(e: Entries, nodes: Nodes, x: Entry, c: nat, node: Inode)
    requires TreeOk(e, nodes) && IsDir(nodes, x.parent) && x !in e
    requires c !in nodes && node.nlink == if node.kind.Dir? then 2 else 1
    ensures TreeOk(e[x := c], NewNode(nodes, x.parent, c, node))
  {
    NewNodeAllCounted(e, nodes, x, c, node);
    NewNodeRanked(e, nodes, x, c, node);
  }

  lemma NewNodeRanked(e: Entries, nodes: Nodes, x: Entry, c: nat, node: Inode)
    requires Joined(e, nodes) && Rooted(e, nodes) && IsDir(nodes, x.parent) && x !in e && c !in nodes
    ensures Joined(e[x := c], NewNode(nodes, x.parent, c, node))
    ensures Rooted(e[x := c], NewNode(nodes, x.parent, c, node))
  {
    var e', nodes' := e[x := c], NewNode(nodes, x.parent, c, node);
    var depth :| Ranked(e, nodes, depth);
    if node.kind.Dir? {
      assert Ranked(e', nodes', depth[c := depth[x.parent] + 1]);
    } else {
      assert Ranked(e', nodes', depth);
    }
  }

  lemma MoveJoined(e: Entries, nodes: Nodes, x: Entry, y: Entry)
    requires Joined(e, nodes) && x in e && IsDir(nodes, y.parent)
    requires nodes[e[x]].kind.Dir? ==> nodes[x.parent].nlink > 0
    ensures Joined((e - {x})[y := e[x]], Moved(nodes, x.parent, y.parent, e[x]))
  {
  }

  /** Fewer entries between the same directories, or more entries to files, keep the ranks. */
  lemma RankedStays(e: Entries, nodes: Nodes, e': Entries, nodes': Nodes)
    requires Rooted(e, nodes)
    requires nodes'.Keys <= nodes.Keys && forall i :: i in nodes' ==> nodes'[i].kind == nodes[i].kind
    requires forall x :: x in e' && IsDir(nodes', e'[x]) ==> x in e && e[x] == e'[x]
    ensures Rooted(e', nodes')
  {
    var depth :| Ranked(e, nodes, depth);
    assert Ranked(e', nodes', depth);
  }

  lemma LinkCounted(e: Entries, nodes: Nodes, x: Entry, c: nat, i: nat)
    requires x !in e && c in nodes && !nodes[c].kind.Dir?
    requires i in nodes && Counted(e, nodes, i)
    ensures Counted(e[x := c], AddNlink(nodes, c, 1), i)
  {
    LinkAdded(e, x, c, i);
    SubdirAdded(e, nodes, AddNlink(nodes, c, 1), x, c, i);
  }

  /** link: one more entry for a file. */
  lemma LinkKeeps(e: Entries, nodes: Nodes, x: Entry, c: nat)
    requires TreeOk(e, nodes) && IsDir(nodes, x.parent) && x !in e
    requires c in nodes && !nodes[c].kind.Dir?
    ensures TreeOk(e[x := c], AddNlink(nodes, c, 1))
  {
    var nodes' := AddNlink(nodes, c, 1);
    assert AllCounted(e[x := c], nodes') by {
      forall i | i in nodes' ensures Counted(e[x := c], nodes', i) {
        LinkCounted(e, nodes, x, c, i);
      }
    }
    assert Rooted(e[x := c], nodes') by {
      RankedStays(e, nodes, e[x := c], nodes');
    }
  }

  /** unlink: one entry less; the inode goes with its last entry. */
  function Unlinked(nodes: Nodes, c: nat): Nodes
    requires c in nodes && nodes[c].nlink > 0
  {
    if nodes[c].nlink == 1 then nodes - {c} else AddNlink(nodes, c, -1)
  }

  lemma UnlinkCounted(e: Entries, nodes: Nodes, x: Entry, i: nat)
    requires x in e && e[x] in nodes && !nodes[e[x]].kind.Dir? && nodes[e[x]].nlink > 0
    requires i in Unlinked(nodes, e[x]) && Counted(e, nodes, i)
    ensures Counted(e - {x}, Unlinked(nodes, e[x]), i)
  {
    LinkRemoved(e, x, i);
    SubdirRemoved(e, nodes, Unlinked(nodes, e[x]), x, i);
  }

  lemma UnlinkJoined(e: Entries, nodes: Nodes, x: Entry)
    requires Joined(e, nodes) && x in e && !nodes[e[x]].kind.Dir?
    requires nodes[e[x]].nlink == |Links(e, e[x])| > 0
    ensures Joined(e - {x}, Unlinked(nodes, e[x]))
  {
    var c := e[x];
    assert x in Links(e, c);
    if nodes[c].nlink == 1 {
      Single(Links(e, c), x);
    }
    forall y | y in e - {x} ensures e[y] in Unlinked(nodes, c) {
      assert e[y] == c ==> y in Links(e, c);
    }
  }

  lemma UnlinkAllCounted(e: Entries, nodes: Nodes, x: Entry)
    requires AllCounted(e, nodes) && x in e && e[x] in nodes && !nodes[e[x]].kind.Dir? && nodes[e[x]].nlink > 0
    ensures AllCounted(e - {x}, Unlinked(nodes, e[x]))
  {
    forall i | i in Unlinked(nodes, e[x]) ensures Counted(e - {x}, Unlinked(nodes, e[x]), i) {
      UnlinkCounted(e, nodes, x, i);
    }
  }

  lemma UnlinkKeeps(e: Entries, nodes: Nodes, x: Entry)
    requires TreeOk(e, nodes) && x in e && !nodes[e[x]].kind.Dir?
    ensures nodes[e[x]].nlink > 0
    ensures TreeOk(e - {x}, Unlinked(nodes, e[x]))
  {
    var c := e[x];
    assert Counted(e, nodes, c) && x in Links(e, c);
    UnlinkJoined(e, nodes, x);
    UnlinkAllCounted(e, nodes, x);
    RankedStays(e, nodes, e - {x}, Unlinked(nodes, c));
  }

  predicate IsEmpty(e: Entries, d: nat) { forall x :: x in e ==> x.parent != d }

  /** rmdir: an empty directory goes, and stops counting towards its parent. */
  function DirRemoved(nodes: Nodes, p: nat, c: nat): Nodes
    requires p in nodes && nodes[p].nlink > 0 && p != c
  {
    AddNlink(nodes, p, -1) - {c}
  }

  /** The parent counts the child, so its link count is at least three. */
  lemma ParentCounts(e: Entries, nodes: Nodes, x: Entry)
    requires TreeOk(e, nodes) && x in e && IsDir(nodes, e[x])
    ensures x.parent in nodes && nodes[x.parent].nlink >= 3 && x.parent != e[x]
  {
    assert Counted(e, nodes, x.parent);
    assert x in Subdirs(e, nodes, x.parent);
    assert |Subdirs(e, nodes, x.parent)| > 0;
    var depth :| Ranked(e, nodes, depth);
  }

  lemma RmdirCounted(e: Entries, nodes: Nodes, x: Entry, i: nat)
    requires Joined(e, nodes) && x in e && IsDir(nodes, e[x]) && x.parent != e[x] && nodes[x.parent].nlink > 0
    requires Links(e, e[x]) == {x}
    requires i in nodes && i != e[x] && Counted(e, nodes, i)
    ensures Counted(e - {x}, DirRemoved(nodes, x.parent, e[x]), i)
  {
    var nodes' := DirRemoved(nodes, x.parent, e[x]);
    LinkRemoved(e, x, i);
    forall y | y in e && y != x ensures IsDir(nodes', e[y]) <==> IsDir(nodes, e[y]) {
      assert y in Links(e, e[y]);
    }
    SubdirRemoved(e, nodes, nodes', x, i);
  }

  lemma RmdirJoined(e: Entries, nodes: Nodes, x: Entry)
    requires Joined(e, nodes) && x in e && x.parent != e[x] && nodes[x.parent].nlink > 0
    requires Links(e, e[x]) == {x} && IsEmpty(e, e[x])
    ensures Joined(e - {x}, DirRemoved(nodes, x.parent, e[x]))
  {
    forall y | y in e - {x} ensures e[y] != e[x] {
      assert y in Links(e, e[y]);
    }
  }

  lemma RmdirAllCounted(e: Entries, nodes: Nodes, x: Entry)
    requires Joined(e, nodes) && AllCounted(e, nodes) && x in e && IsDir(nodes, e[x])
    requires x.parent != e[x] && nodes[x.parent].nlink > 0 && Links(e, e[x]) == {x}
    ensures AllCounted(e - {x}, DirRemoved(nodes, x.parent, e[x]))
  {
    forall i | i in DirRemoved(nodes, x.parent, e[x]) ensures Counted(e - {x}, DirRemoved(nodes, x.parent, e[x]), i) {
      RmdirCounted(e, nodes, x, i);
    }
  }

  lemma RmdirKeeps(e: Entries, nodes: Nodes, x: Entry)
    requires TreeOk(e, nodes) && x in e && IsDir(nodes, e[x]) && IsEmpty(e, e[x])
    ensures x.parent in nodes && nodes[x.parent].nlink > 0 && x.parent != e[x]
    ensures TreeOk(e - {x}, DirRemoved(nodes, x.parent, e[x]))
  {
    ParentCounts(e, nodes, x);
    var c := e[x];
    assert x in Links(e, c) && Counted(e, nodes, c);
    Single(Links(e, c), x);
    RmdirJoined(e, nodes, x);
    RmdirAllCounted(e, nodes, x);
    RankedStays(e, nodes, e - {x}, DirRemoved(nodes, x.parent, c));
  }

  // ---- moving an entry ----

  /** c is a walk from its first directory towards the root. */
  ghost predicate Chain(e: Entries, c: seq<nat>) {
    && |c| > 0
    && (forall i :: 0 <= i < |c| - 1 ==> StepUp(e, c[i], c[i + 1]))
  }

  ghost predicate StepUp(e: Entries, d: nat, p: nat) { exists x :: x in e && x.parent == p && e[x] == d }

  /** d is m or lies below m. */
  ghost predicate Under(e: Entries, m: nat, d: nat) {
    exists c :: Chain(e, c) && c[0] == d && c[|c| - 1] == m
  }

  lemma UnderSelf(e: Entries, m: nat)
    ensures Under(e, m, m)
  {
    assert Chain(e, [m]) && [m][0] == m && [m][|[m]| - 1] == m;
  }

  lemma UnderChild(e: Entries, m: nat, x: Entry)
    requires x in e && Under(e, m, x.parent)
    ensures Under(e, m, e[x])
  {
    var c :| Chain(e, c) && c[0] == x.parent && c[|c| - 1] == m;
    var c' := [e[x]] + c;
    forall i | 0 <= i < |c'| - 1 ensures StepUp(e, c'[i], c'[i + 1]) {
      if i > 0 {
        assert c'[i] == c[i - 1] && c'[i + 1] == c[i];
        assert StepUp(e, c[i - 1], c[i - 1 + 1]);
      }
    }
    assert Chain(e, c') && c'[0] == e[x] && c'[|c'| - 1] == m;
  }

  /** A directory below m other than m has its parent below m. */
  lemma UnderParent(e: Entries, nodes: Nodes, m: nat, x: Entry)
    requires TreeOk(e, nodes) && x in e && IsDir(nodes, e[x]) && e[x] != m && Under(e, m, e[x])
    ensures Under(e, m, x.parent)
  {
    var d := e[x];
    var c :| Chain(e, c) && c[0] == d && c[|c| - 1] == m;
    assert StepUp(e, c[0], c[0 + 1]);
    var y :| y in e && y.parent == c[1] && e[y] == d;
    assert Counted(e, nodes, d) && x in Links(e, d) && y in Links(e, d);
    Single(Links(e, d), x);
    var c' := c[1..];
    forall i | 0 <= i < |c'| - 1 ensures StepUp(e, c'[i], c'[i + 1]) {
      assert StepUp(e, c[i + 1], c[i + 1 + 1]);
    }
    assert Chain(e, c') && c'[0] == x.parent && c'[|c'| - 1] == m;
  }

  /** Removing entries removes walks, it never adds one. */
  lemma UnderShrinks(e: Entries, e': Entries, m: nat, d: nat)
    requires forall x :: x in e' ==> x in e && e[x] == e'[x]
    requires Under(e', m, d)
    ensures Under(e, m, d)
  {
    var c :| Chain(e', c) && c[0] == d && c[|c| - 1] == m;
    forall i | 0 <= i < |c| - 1 ensures StepUp(e, c[i], c[i + 1]) {
      assert StepUp(e', c[i], c[i + 1]);
    }
    assert Chain(e, c);
  }

  /** Walking up never gains depth. */
  lemma {:induction false} ChainDepth(e: Entries, nodes: Nodes, depth: map<nat, nat>, c: seq<nat>)
    requires Joined(e, nodes) && Ranked(e, nodes, depth) && Chain(e, c) && IsDir(nodes, c[0])
    ensures IsDir(nodes, c[|c| - 1]) && depth[c[|c| - 1]] <= depth[c[0]]
    decreases |c|
  {
    if |c| > 1 {
      assert StepUp(e, c[0], c[0 + 1]);
      var c' := c[1..];
      forall i | 0 <= i < |c'| - 1 ensures StepUp(e, c'[i], c'[i + 1]) {
        assert StepUp(e, c[i + 1], c[i + 1 + 1]);
      }
      ChainDepth(e, nodes, depth, c');
    }
  }

  lemma UnderDepth(e: Entries, nodes: Nodes, depth: map<nat, nat>, m: nat, d: nat)
    requires Joined(e, nodes) && Ranked(e, nodes, depth) && IsDir(nodes, d) && Under(e, m, d)
    ensures m in depth && depth[m] <= depth[d]
  {
    var c :| Chain(e, c) && c[0] == d && c[|c| - 1] == m;
    ChainDepth(e, nodes, depth, c);
  }

  /** Depths after m and everything below it move under np. */
  ghost function MovedDepth(e: Entries, nodes: Nodes, depth: map<nat, nat>, m: nat, np: nat): map<nat, nat>
    requires m in depth && np in depth
  {
    map d | d in depth ::
      if IsDir(nodes, d) && Under(e, m, d) && depth[d] >= depth[m] then depth[d] - depth[m] + depth[np] + 1 else depth[d]
  }

  lemma MoveRanked(e: Entries, nodes: Nodes, depth: map<nat, nat>, x: Entry, y: Entry)
    requires TreeOk(e, nodes) && Ranked(e, nodes, depth)
    requires x in e && y !in e && IsDir(nodes, e[x]) && IsDir(nodes, y.parent)
    requires !Under(e, e[x], y.parent)
    ensures Ranked((e - {x})[y := e[x]], nodes, MovedDepth(e, nodes, depth, e[x], y.parent))
  {
    var m, np := e[x], y.parent;
    var e', depth' := (e - {x})[y := m], MovedDepth(e, nodes, depth, m, np);
    assert Counted(e, nodes, m) && x in Links(e, m);
    Single(Links(e, m), x);
    UnderSelf(e, m);
    if Under(e, m, ROOT_INO) {
      UnderDepth(e, nodes, depth, m, ROOT_INO);
      assert false;
    }
    forall z | z in e' && IsDir(nodes, e'[z])
      ensures z.parent in depth' && e'[z] in depth' && depth'[e'[z]] == depth'[z.parent] + 1
    {
      if z != y {
        var d := e[z];
        assert d == m ==> z in Links(e, m);
        MovedDepthStep(e, nodes, depth, m, np, z);
      }
    }
  }

  lemma MovedDepthStep(e: Entries, nodes: Nodes, depth: map<nat, nat>, m: nat, np: nat, z: Entry)
    requires TreeOk(e, nodes) && Ranked(e, nodes, depth) && IsDir(nodes, m) && IsDir(nodes, np)
    requires z in e && IsDir(nodes, e[z]) && e[z] != m
    ensures var depth' := MovedDepth(e, nodes, depth, m, np);
      z.parent in depth' && e[z] in depth' && depth'[e[z]] == depth'[z.parent] + 1
  {
    if Under(e, m, z.parent) {
      UnderChild(e, m, z);
      UnderDepth(e, nodes, depth, m, z.parent);
      UnderDepth(e, nodes, depth, m, e[z]);
    } else if Under(e, m, e[z]) {
      UnderParent(e, nodes, m, z);
    }
  }

  /** rename: an entry moves; a directory crossing parents moves its parent's count along. */
  function Moved(nodes: Nodes, p: nat, np: nat, c: nat): Nodes
    requires c in nodes && p in nodes && np in nodes && (nodes[c].kind.Dir? && p != np ==> nodes[p].nlink > 0)
  {
    if nodes[c].kind.Dir? && p != np then AddNlink(AddNlink(nodes, p, -1), np, 1) else nodes
  }

  lemma MoveAllCounted(e: Entries, nodes: Nodes, x: Entry, y: Entry)
    requires Joined(e, nodes) && AllCounted(e, nodes) && x in e && y !in e && IsDir(nodes, y.parent)
    requires nodes[e[x]].kind.Dir? ==> nodes[x.parent].nlink > 0
    ensures AllCounted((e - {x})[y := e[x]], Moved(nodes, x.parent, y.parent, e[x]))
  {
    var e', nodes' := (e - {x})[y := e[x]], Moved(nodes, x.parent, y.parent, e[x]);
    forall i | i in nodes' ensures Counted(e', nodes', i) {
      MoveCounted(e, nodes, x, y, i);
    }
  }

  lemma SameKinds(e: Entries, nodes: Nodes, nodes': Nodes, depth: map<nat, nat>)
    requires Ranked(e, nodes, depth)
    requires nodes'.Keys == nodes.Keys && forall i :: i in nodes ==> nodes'[i].kind == nodes[i].kind
    ensures Ranked(e, nodes', depth)
  {
  }

  lemma MoveRooted(e: Entries, nodes: Nodes, x: Entry, y: Entry)
    requires TreeOk(e, nodes) && x in e && y !in e && IsDir(nodes, y.parent)
    requires nodes[e[x]].kind.Dir? ==> nodes[x.parent].nlink > 0 && !Under(e, e[x], y.parent)
    ensures Rooted((e - {x})[y := e[x]], Moved(nodes, x.parent, y.parent, e[x]))
  {
    hide Under, AllCounted;
    var c := e[x];
    var e', nodes' := (e - {x})[y := c], Moved(nodes, x.parent, y.parent, c);
    var depth :| Ranked(e, nodes, depth);
    if nodes[c].kind.Dir? {
      MoveRanked(e, nodes, depth, x, y);
      SameKinds(e', nodes, nodes', MovedDepth(e, nodes, depth, c, y.parent));
    } else {
      assert Ranked(e', nodes', depth);
    }
  }

  lemma MoveKeeps(e: Entries, nodes: Nodes, x: Entry, y: Entry)
    requires TreeOk(e, nodes) && x in e && y !in e && IsDir(nodes, y.parent)
    requires IsDir(nodes, e[x]) ==> !Under(e, e[x], y.parent)
    ensures IsDir(nodes, x.parent) && e[x] in nodes && (nodes[e[x]].kind.Dir? ==> nodes[x.parent].nlink > 0)
    ensures TreeOk((e - {x})[y := e[x]], Moved(nodes, x.parent, y.parent, e[x]))
  {
    var c := e[x];
    if nodes[c].kind.Dir? { ParentCounts(e, nodes, x); }
    MoveAllCounted(e, nodes, x, y);
    MoveJoined(e, nodes, x, y);
    MoveRooted(e, nodes, x, y);
  }

  lemma MoveCounted(e: Entries, nodes: Nodes, x: Entry, y: Entry, i: nat)
    requires Joined(e, nodes) && x in e && y !in e && IsDir(nodes, y.parent)
    requires nodes[e[x]].kind.Dir? ==> nodes[x.parent].nlink > 0
    requires i in nodes && Counted(e, nodes, i)
    ensures Counted((e - {x})[y := e[x]], Moved(nodes, x.parent, y.parent, e[x]), i)
  {
    var c := e[x];
    var mid, nodes' := e - {x}, Moved(nodes, x.parent, y.parent, c);
    LinkRemoved(e, x, i);
    LinkAdded(mid, y, c, i);
    SubdirRemoved(e, nodes, nodes, x, i);
    SubdirAdded(mid, nodes, nodes', y, c, i);
  }

  /** A replaced file that has another name would leave that name dangling. */
  lemma DanglingBreaks(e: Entries, nodes: Nodes, x: Entry, nodes': Nodes, e': Entries)
    requires TreeOk(e, nodes) && x in e && !nodes[e[x]].kind.Dir? && nodes[e[x]].nlink > 1
    requires e[x] !in nodes'
    requires forall z :: z in e && z != x && e[z] == e[x] ==> z in e' && e'[z] == e[x]
    ensures !TreeOk(e', nodes')
  {
    var c := e[x];
    assert Counted(e, nodes, c) && x in Links(e, c);
    assert Links(e, c) == {x} ==> |Links(e, c)| == 1;
    assert Links(e, c) - {x} == {} ==> Links(e, c) == {x};
    var z :| z in Links(e, c) - {x};
    assert z in e' && e'[z] !in nodes';
  }

  /** Every inode can be reached: it is the root, or some entry names it in a directory that
      is strictly closer to the root (for a directory) or live (for a file). */
  lemma NoOrphans(e: Entries, nodes: Nodes, i: nat)
    requires TreeOk(e, nodes) && i in nodes && i != ROOT_INO
    ensures exists x :: x in e && e[x] == i && IsDir(nodes, x.parent)
  {
    assert Counted(e, nodes, i);
    assert Links(e, i) != {};
    var x :| x in Links(e, i);
  }
}
