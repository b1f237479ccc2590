/** The singly linked task lists of the inference and embedding threads (src/llm.c:799-804,
    930-934; src/mem.c:34-38, 427-432): appended at the tail and taken from the head. */
module TaskQueue {

  class Node<T> {
    const item: T
    var next: Node?<T>

    constructor (item: T)
      ensures this.item == item && next == null
    {
      this.item, next := item, null;
    }
  }

  ghost function NodeAt<T>(c: seq<Node<T>>, i: int): Node?<T> { if 0 <= i < |c| then c[i] else null }

  ghost predicate Linked<T>(c: seq<Node<T>>)
    reads c
  {
    && (forall i, j :: 0 <= i < j < |c| ==> c[i] != c[j])
    && (forall i {:trigger c[i].next} :: 0 <= i < |c| ==> c[i].next == NodeAt(c, i + 1))
  }

  ghost function ItemsOf<T>(c: seq<Node<T>>): (s: seq<T>)
    ensures |s| == |c| && forall i :: 0 <= i < |c| ==> s[i] == c[i].item
  {
    seq(|c|, i requires 0 <= i < |c| => c[i].item)
  }

  lemma AppendShape<T>(c: seq<Node<T>>, n: Node<T>)
    ensures NodeAt(c + [n], |c|) == n && NodeAt(c + [n], |c| + 1) == null
    ensures forall i :: i < |c| ==> NodeAt(c + [n], i) == NodeAt(c, i)
    ensures forall i :: 0 <= i < |c| ==> (c + [n])[i] == c[i] && NodeAt(c, i) == c[i]
    ensures c == [] ==> NodeAt(c, -1) == null && NodeAt(c, 0) == null
  {
  }

  class Queue<T> {
    var head: Node?<T>
    var tail: Node?<T>
    ghost var nodes: seq<Node<T>>

    ghost predicate Valid()
      reads this, nodes
    {
      Linked(nodes) && head == NodeAt(nodes, 0) && tail == NodeAt(nodes, |nodes| - 1)
    }

    ghost function Items(): seq<T>
      reads this
    {
      ItemsOf(nodes)
    }

    constructor ()
      ensures Valid() && Items() == [] && nodes == []
    {
      head, tail, nodes := null, null, [];
    }

    /** Append at the tail. */
    method Append(item: T)
      requires Valid()
      modifies this, nodes
      ensures Valid() && Items() == old(Items()) + [item]
      ensures forall n :: n in nodes ==> n in old(nodes) || fresh(n)
    {
      var task := new Node(item);
      ghost var c := nodes;
      AppendShape(c, task);
      hide NodeAt;
      if tail != null { tail.next := task; } else { head := task; }
      tail := task;
      nodes := c + [task];
      assert forall i {:trigger nodes[i]} :: 0 <= i < |c| - 1 ==> nodes[i] == c[i] && c[i].next == old(c[i].next);
    }

    /** Take the head. */
    method Take() returns (item: T)
      requires Valid() && nodes != []
      modifies this
      ensures Valid() && [item] + Items() == old(Items())
      ensures nodes == old(nodes)[1..]
    {
      ghost var c := nodes;
      item := head.item;
      head := head.next;
      if head == null { tail := null; }
      nodes := c[1..];
      assert forall i {:trigger nodes[i]} :: 0 <= i < |nodes| ==> nodes[i] == c[i + 1];
    }
  }
}
