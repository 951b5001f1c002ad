/** The doubly linked list: nodes that are relinked in place, in agreement with a sequence (kernel/lib/list.c). */
module LinkedList {

  datatype Option<T> = None | Some(value: T)

  class Node<T> {
    var data: T
    var prev: Node?<T>
    var next: Node?<T>

    constructor (data: T)
      ensures this.data == data && prev == null && next == null
    {
      this.data, prev, next := data, null, null;
    }
  }

  /** Entry i of a sequence of nodes, or null beyond its ends. */
  ghost function At<T>(nodes: seq<Node<T>>, i: int): Node?<T> {
    if 0 <= i < |nodes| then nodes[i] else null
  }

  ghost predicate Distinct<T>(nodes: seq<Node<T>>) {
    forall i, j :: 0 <= i < j < |nodes| ==> nodes[i] != nodes[j]
  }

  /** Node i is linked to its neighbours. */
  ghost predicate Links<T>(nodes: seq<Node<T>>, i: int)
    requires 0 <= i < |nodes|
    reads nodes
  {
    nodes[i].prev == At(nodes, i - 1) && nodes[i].next == At(nodes, i + 1)
  }

  ghost function DataOf<T>(nodes: seq<Node<T>>): (s: seq<T>)
    reads nodes
    ensures |s| == |nodes| && forall i :: 0 <= i < |s| ==> s[i] == nodes[i].data
  {
    seq(|nodes|, i requires 0 <= i < |nodes| reads nodes => nodes[i].data)
  }

  ghost function InsertAt<T>(s: seq<T>, i: int, x: T): (r: seq<T>)
    requires 0 <= i <= |s|
    ensures |r| == |s| + 1 &&
            forall k :: 0 <= k < |r| ==> r[k] == if k < i then s[k] else if k == i then x else s[k - 1]
  {
    s[..i] + [x] + s[i..]
  }

  ghost function RemoveAt<T>(s: seq<T>, i: int): (r: seq<T>)
    requires 0 <= i < |s|
    ensures |r| == |s| - 1 && forall k :: 0 <= k < |r| ==> r[k] == s[if k < i then k else k + 1]
  {
    s[..i] + s[i + 1..]
  }

  /** Where the neighbours of entry k are after a node has been inserted before entry i. */
  lemma LinksInserted<T>(ns: seq<Node<T>>, i: int, node: Node<T>, k: int)
    requires 0 <= i <= |ns| && 0 <= k < |ns|
    ensures var r, k' := InsertAt(ns, i, node), if k < i then k else k + 1;
            r[k'] == ns[k] && At(r, k' - 1) == (if k == i then node else At(ns, k - 1)) &&
            At(r, k' + 1) == if k == i - 1 then node else At(ns, k + 1)
  {
  }

  class List<T> {
    var head: Node?<T>
    var tail: Node?<T>
    var size: int
    /** The nodes in order. */
    ghost var nodes: seq<Node<T>>

    ghost predicate Valid()
      reads this, nodes
    {
      size == |nodes| && head == At(nodes, 0) && tail == At(nodes, |nodes| - 1) && Distinct(nodes) &&
      forall i :: 0 <= i < |nodes| ==> Links(nodes, i)
    }

    /** What the list holds, from head to tail. */
    ghost function Contents(): seq<T>
      reads this, nodes
    {
      DataOf(nodes)
    }

    /** avs_list_init */
    constructor ()
      ensures Valid() && Contents() == [] && nodes == []
    {
      head, tail, size, nodes := null, null, 0, [];
    }

    // ---------- inserting ----------

    /** Entry k when `node` has been linked in before entry i. */
    ghost predicate Beside(node: Node<T>, i: int, k: int)
      reads this, nodes
      requires 0 <= k < |nodes|
    {
      nodes[k].prev == (if k == i then node else At(nodes, k - 1)) &&
      nodes[k].next == (if k == i - 1 then node else At(nodes, k + 1))
    }

    /** A node that has been linked in before entry i becomes entry i. */
    ghost method Adopt(node: Node<T>, i: int)
      requires Joined(node, i)
      modifies this`nodes
      ensures Valid() && nodes == InsertAt(old(nodes), i, node) && Contents() == InsertAt(old(Contents()), i, node.data)
    {
      nodes := InsertAt(nodes, i, node);
      forall k | 0 <= k < |nodes| ensures Links(nodes, k) {
        if k < i {
          assert old(Beside(node, i, k));
          LinksInserted(old(nodes), i, node, k);
        } else if k > i {
          assert old(Beside(node, i, k - 1));
          LinksInserted(old(nodes), i, node, k - 1);
        }
      }
    }

    /** `node` has been linked in before entry i, but is not an entry yet. */
    ghost predicate Joined(node: Node<T>, i: int)
      reads this, nodes, node
    {
      0 <= i <= |nodes| && node !in nodes && size == |nodes| + 1 && Distinct(nodes) &&
      node.prev == At(nodes, i - 1) && node.next == At(nodes, i) &&
      head == (if i == 0 then node else At(nodes, 0)) &&
        tail == (if i == |nodes| then node else At(nodes, |nodes| - 1)) &&
      forall k :: 0 <= k < |nodes| ==> Beside(node, i, k)
    }

    /** avs_list_insert_before. Without a node only an empty list will do. */
    method InsertBefore(before: Node?<T>, data: T, ghost i: int)
      requires Valid() && (if before == null then nodes == [] && i == 0 else 0 <= i < |nodes| && nodes[i] == before)
      modifies this, nodes
      ensures Valid() && i < |nodes| && fresh(nodes[i]) && nodes == InsertAt(old(nodes), i, nodes[i])
      ensures Contents() == InsertAt(old(Contents()), i, data)
    {
      var node := new Node(data);
      JoinBefore(node, before, i);
      assert Contents() == old(Contents());
      Adopt(node, i);
    }

    /** The links of avs_list_insert_before. */
    method JoinBefore(node: Node<T>, before: Node?<T>, ghost i: int)
      requires Valid() && node !in nodes && node.prev == null
      requires if before == null then nodes == [] && i == 0 else 0 <= i < |nodes| && nodes[i] == before
      modifies this, nodes, node
      ensures nodes == old(nodes) && Joined(node, i)
      ensures node.data == old(node.data) && forall k :: 0 <= k < |nodes| ==> nodes[k].data == old(nodes[k].data)
    {
      node.next := before;
      if before == null {
        head := node;
        tail := node;
      } else if before == head {
        assert i == 0 && Links(nodes, 0);
        head := node;
        tail := if tail == null then node else tail;
        before.prev := node;
      } else {
        assert i > 0 && Links(nodes, i) && Links(nodes, i - 1);
        node.prev := before.prev;
        before.prev := node;
        node.prev.next := node;
      }
      size := size + 1;
      forall k | 0 <= k < |nodes| ensures Beside(node, i, k) {
        assert old(Links(nodes, k));
      }
    }

    /** avs_list_insert_after. Without a node: at the end. */
    method InsertAfter(after: Node?<T>, data: T, ghost i: int)
      requires Valid() && (if after == null then i == |nodes| else 0 < i <= |nodes| && nodes[i - 1] == after)
      modifies this, nodes
      ensures Valid() && i < |nodes| && fresh(nodes[i]) && nodes == InsertAt(old(nodes), i, nodes[i])
      ensures Contents() == InsertAt(old(Contents()), i, data)
    {
      var node := new Node(data);
      JoinAfter(node, after, i);
      assert Contents() == old(Contents());
      Adopt(node, i);
    }

    /** The links of avs_list_insert_after. */
    method JoinAfter(node: Node<T>, after: Node?<T>, ghost i: int)
      requires Valid() && node !in nodes && node.prev == null && node.next == null
      requires if after == null then i == |nodes| else 0 < i <= |nodes| && nodes[i - 1] == after
      modifies this, nodes, node
      ensures nodes == old(nodes) && Joined(node, i)
      ensures node.data == old(node.data) && forall k :: 0 <= k < |nodes| ==> nodes[k].data == old(nodes[k].data)
    {
      if after == null || after == tail {
        assert i == |nodes|;
        if tail == null {
          head := node;
        } else {
          assert Links(nodes, i - 1);
          tail.next := node;
          node.prev := tail;
        }
        tail := node;
      } else {
        assert i < |nodes| && Links(nodes, i) && Links(nodes, i - 1);
        node.next := after.next;
        node.next.prev := node;
        node.prev := after;
        after.next := node;
      }
      size := size + 1;
      forall k | 0 <= k < |nodes| ensures Beside(node, i, k) {
        assert old(Links(nodes, k));
      }
    }

    /** avs_list_append */
    method Append(data: T)
      requires Valid()
      modifies this, nodes
      ensures Valid() && Contents() == old(Contents()) + [data]
      ensures |nodes| > 0 && fresh(nodes[|nodes| - 1]) && nodes[..|nodes| - 1] == old(nodes)
    {
      InsertAfter(null, data, |nodes|);
    }

    /** avs_list_prepend, avs_list_push and avs_list_enqueue */
    method Prepend(data: T)
      requires Valid()
      modifies this, nodes
      ensures Valid() && Contents() == [data] + old(Contents())
      ensures |nodes| > 0 && fresh(nodes[0]) && nodes[1..] == old(nodes)
    {
      InsertBefore(head, data, 0);
    }

    // ---------- removing ----------

    /** Entry k when entry i has been unlinked. */
    ghost predicate Across(i: int, k: int)
      reads this, nodes
      requires 0 <= k < |nodes|
    {
      nodes[k].prev == (if k == i + 1 then At(nodes, i - 1) else At(nodes, k - 1)) &&
      nodes[k].next == (if k == i - 1 then At(nodes, i + 1) else At(nodes, k + 1))
    }

    /** A node that has been unlinked is not in the list any more. */
    ghost method Disown(i: int)
      requires 0 <= i < |nodes| && size == |nodes| - 1 && Distinct(nodes)
      requires head == At(nodes, if i == 0 then 1 else 0) &&
               tail == At(nodes, if i == |nodes| - 1 then i - 1 else |nodes| - 1)
      requires forall k :: 0 <= k < |nodes| && k != i ==> Across(i, k)
      modifies this`nodes
      ensures Valid() && nodes == RemoveAt(old(nodes), i)
    {
      nodes := RemoveAt(nodes, i);
      forall k | 0 <= k < |nodes| ensures Links(nodes, k) {
        if k < i { assert old(Across(i, k)); } else { assert old(Across(i, k + 1)); }
      }
    }

    /** avs_list_remove. The node must be in the list. */
    method Remove(node: Node<T>, ghost i: int) returns (removed: Node<T>)
      requires Valid() && 0 <= i < |nodes| && nodes[i] == node
      modifies this, nodes
      ensures Valid() && removed == node && nodes == RemoveAt(old(nodes), i) && node.data == old(node.data)
      ensures Contents() == RemoveAt(old(Contents()), i)
    {
      assert Links(nodes, i);
      if i > 0 { assert Links(nodes, i - 1); }
      if i + 1 < |nodes| { assert Links(nodes, i + 1); }
      var newNextNode := node.next;
      if node.prev == null && node.next == null {
        head := null;
        tail := null;
      } else if node.prev == null {
        head := newNextNode;
        if newNextNode != null { newNextNode.prev := null; }
      } else if node.next == null {
        tail := node.prev;
        tail.next := null;
      } else {
        node.next.prev := node.prev;
        node.prev.next := node.next;
      }
      size := size - 1;
      forall k | 0 <= k < |nodes| && k != i ensures Across(i, k) {
        assert old(Links(nodes, k));
      }
      Disown(i);
      removed := node;
    }

    /** avs_list_pop */
    method Pop() returns (data: Option<T>)
      requires Valid()
      modifies this, nodes
      ensures Valid()
      ensures |old(nodes)| == 0 ==> data == None && nodes == []
      ensures |old(nodes)| > 0 ==>
                data == Some(old(Contents())[0]) && Contents() == old(Contents())[1..] && nodes == old(nodes)[1..]
    {
      if head == null { return None; }
      var node := Remove(head, 0);
      return Some(node.data);
    }

    /** avs_list_dequeue. The list must not be empty. */
    method Dequeue() returns (data: T)
      requires Valid() && Contents() != []
      modifies this, nodes
      ensures Valid()
      ensures var s := old(Contents());
              data == s[|s| - 1] && Contents() == s[..|s| - 1] && nodes == old(nodes)[..|s| - 1]
    {
      var node := Remove(tail, |nodes| - 1);
      data := node.data;
    }

    /** avs_list_empty */
    method Empty()
      requires Valid()
      modifies this, nodes
      ensures Valid() && Contents() == []
    {
      ghost var k := 0;
      while head != null
        invariant Valid() && 0 <= k <= |old(nodes)| && nodes == old(nodes)[k..]
        decreases |nodes|
      {
        var node := Remove(head, 0);
        k := k + 1;
      }
      size := 0;
    }

    // ---------- looking up ----------

    /** avs_list_at_index_node */
    method AtIndexNode(index: int) returns (node: Node?<T>)
      requires Valid()
      ensures node == At(nodes, index)
    {
      if index > size - 1 {
        return null;
      } else if index < 0 {
        return null;
      }
      node := head;
      for i := 0 to index
        invariant node == nodes[i]
      {
        assert Links(nodes, i);
        node := node.next;
      }
    }

    /** avs_list_at_index_data */
    method AtIndexData(index: int) returns (data: Option<T>)
      requires Valid()
      ensures data == if 0 <= index < |Contents()| then Some(Contents()[index]) else None
    {
      var node := AtIndexNode(index);
      if node == null { return None; }
      return Some(node.data);
    }

    /** avs_list_find_data: the first node whose data compares as equal. */
    method FindData(wanted: T, compare: (T, T) -> int) returns (node: Node?<T>, ghost i: int)
      requires Valid()
      ensures node == null ==> forall k :: 0 <= k < |Contents()| ==> compare(wanted, Contents()[k]) != 0
      ensures node != null ==>
                0 <= i < |nodes| && nodes[i] == node && compare(wanted, Contents()[i]) == 0 &&
                forall k :: 0 <= k < i ==> compare(wanted, Contents()[k]) != 0
    {
      node, i := head, 0;
      for n := 0 to size
        invariant i == n && node == At(nodes, i)
        invariant forall k :: 0 <= k < i ==> compare(wanted, Contents()[k]) != 0
      {
        if compare(wanted, node.data) == 0 { return; }
        assert Links(nodes, i);
        node := node.next;
        i := i + 1;
      }
      node := null;
    }

    /** avs_list_for_each, with a callback that only computes: its results in list order. */
    method ForEach<U>(callback: T -> U) returns (results: seq<U>)
      requires Valid()
      ensures |results| == |Contents()| && forall k :: 0 <= k < |results| ==> results[k] == callback(Contents()[k])
    {
      results := [];
      var n := head;
      for i := 0 to size
        invariant n == At(nodes, i) && |results| == i
        invariant forall k :: 0 <= k < i ==> results[k] == callback(Contents()[k])
      {
        assert Links(nodes, i);
        results := results + [callback(n.data)];
        n := n.next;
      }
    }
  }

  // ---------- queues and stacks ----------

  function Reversed<T>(s: seq<T>): (r: seq<T>)
    ensures |r| == |s|
  {
    if s == [] then [] else [s[|s| - 1]] + Reversed(s[..|s| - 1])
  }

  lemma {:induction false} ReversedFromFront<T>(s: seq<T>)
    requires s != []
    ensures Reversed(s) == Reversed(s[1..]) + [s[0]]
    decreases |s|
  {
    var n := |s| - 1;
    if n > 0 {
      ReversedFromFront(s[..n]);
      assert s[1..][..n - 1] == s[..n][1..];
    }
  }

  /** A new list onto which the items have been pushed, or into which they have been enqueued, one after the other. */
  method Pushed<T>(items: seq<T>) returns (list: List<T>)
    ensures fresh(list) && list.Valid() && (forall k :: 0 <= k < |list.nodes| ==> fresh(list.nodes[k])) &&
              list.Contents() == Reversed(items)
  {
    list := new List<T>();
    for i := 0 to |items|
      invariant fresh(list) && list.Valid() && (forall k :: 0 <= k < |list.nodes| ==> fresh(list.nodes[k])) &&
                  list.Contents() == Reversed(items[..i])
    {
      assert items[..i + 1][..i] == items[..i];
      list.Prepend(items[i]);
    }
    assert items[..|items|] == items;
  }

  /** What is pushed comes off in the opposite order. */
  method StackIsLifo<T>(items: seq<T>) returns (out: seq<T>)
    ensures out == Reversed(items)
  {
    var list := Pushed(items);
    out := [];
    ghost var all, nodes := Reversed(items), list.nodes;
    while |out| < |items|
      invariant fresh(list) && list.Valid() && |out| <= |items| == |all| == |nodes| && list.nodes == nodes[|out|..]
      invariant out == all[..|out|] && list.Contents() == all[|out|..]
    {
      out := PopOnto(list, out, nodes, all);
    }
  }

  method PopOnto<T>(list: List<T>, out: seq<T>, ghost nodes: seq<Node<T>>, ghost all: seq<T>) returns (r: seq<T>)
    requires list.Valid() && |out| < |all| == |nodes| && list.nodes == nodes[|out|..]
    requires out == all[..|out|] && list.Contents() == all[|out|..]
    modifies list, nodes
    ensures list.Valid() && |r| == |out| + 1 && list.nodes == nodes[|r|..] && r == all[..|r|] &&
            list.Contents() == all[|r|..]
  {
    var x := list.Pop();
    r := out + [x.value];
  }

  /** What is enqueued comes out in the same order. */
  method QueueIsFifo<T>(items: seq<T>) returns (out: seq<T>)
    ensures out == items
  {
    var list := Pushed(items);
    out := [];
    while |out| < |items|
      invariant fresh(list) && list.Valid() && (forall k :: 0 <= k < |list.nodes| ==> fresh(list.nodes[k]))
      invariant |out| <= |items| && out == items[..|out|] && list.Contents() == Reversed(items[|out|..])
    {
      ReversedFromFront(items[|out|..]);
      assert items[|out|..][1..] == items[|out| + 1..];
      var x := list.Dequeue();
      out := out + [x];
    }
  }
}
