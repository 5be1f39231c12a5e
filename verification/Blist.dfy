/** Blist: a doubly linked list without sentinel whose head's `prev` is the tail. */
module BlistModel {
  import opened Basics

  class BNode<T> {
    const value: T
    var prev: BNode?<T>
    var next: BNode?<T>

    /** CreateNode */
    constructor (value: T)
      ensures this.value == value && prev == null && next == null
    {
      this.value := value;
      prev, next := null, null;
    }
  }

  /** The values a sequence of nodes carries. */
  function Values<T>(s: seq<BNode<T>>): (v: seq<T>)
    ensures |v| == |s| && forall i :: 0 <= i < |s| ==> v[i] == s[i].value
  {
    seq(|s|, i requires 0 <= i < |s| => s[i].value)
  }

  lemma NoDupInsert<T>(s: seq<T>, i: nat, x: T)
    requires NoDup(s) && i <= |s| && x !in s
    ensures NoDup(s[..i] + [x] + s[i..])
  {
  }

  lemma NoDupDrop<T>(s: seq<T>, i: nat)
    requires NoDup(s) && i < |s|
    ensures NoDup(s[..i] + s[i + 1..]) && s[i] !in s[..i] + s[i + 1..]
  {
  }

  /** The two links of the i-th node: null after the tail, the tail before the head. */
  ghost predicate LinkedAt<T>(s: seq<BNode<T>>, i: nat)
    requires i < |s|
    reads s[i]
  {
    s[i].next == (if i + 1 < |s| then s[i + 1] else null) &&
    s[i].prev == (if i > 0 then s[i - 1] else s[|s| - 1])
  }

  class Blist<T> {
    var header: BNode?<T>
    var count: nat

    /** The member nodes in list order. */
    ghost var nodes: seq<BNode<T>>

    ghost predicate Valid()
      reads this, nodes
    {
      count == |nodes| && NoDup(nodes) &&
      header == (if nodes == [] then null else nodes[0]) &&
      forall i :: 0 <= i < |nodes| ==> LinkedAt(nodes, i)
    }

    constructor ()
      ensures Valid() && nodes == []
    {
      header, count, nodes := null, 0, [];
    }

    method PushFront(node: BNode<T>)
      requires Valid() && node !in nodes && (nodes == [] ==> node.next == null)
      modifies this, node, nodes
      ensures Valid() && nodes == [node] + old(nodes)
    {
      nodes := [node] + nodes;
      if header == null {
        header := node;
        node.prev := node;
        count := 1;
      } else {
        assert old(LinkedAt(nodes, 0));
        node.next := header;
        node.prev := header.prev;
        header.prev := node;
        header := node;
        count := count + 1;
      }
      forall i | 0 <= i < |nodes|
        ensures LinkedAt(nodes, i)
      {
        assert i > 0 ==> nodes[i] == old(nodes)[i - 1] && old(LinkedAt(nodes, i - 1));
      }
    }

    method PushBack(node: BNode<T>)
      requires Valid() && node !in nodes && node.next == null
      modifies this, node, nodes
      ensures Valid() && nodes == old(nodes) + [node]
    {
      nodes := nodes + [node];
      if header == null {
        header := node;
        node.prev := node;
        count := 1;
      } else {
        assert old(LinkedAt(nodes, 0));
        node.prev := header.prev;
        header.prev.next := node;
        header.prev := node;
        count := count + 1;
      }
      forall i | 0 <= i < |nodes|
        ensures LinkedAt(nodes, i)
      {
        assert i < |old(nodes)| ==> nodes[i] == old(nodes)[i] && old(LinkedAt(nodes, i));
      }
    }

    method InsertAfter(node: BNode<T>, newNode: BNode<T>, ghost i: nat)
      requires Valid() && i < |nodes| && nodes[i] == node && newNode !in nodes
      modifies this, newNode, nodes
      ensures Valid() && nodes == old(nodes[..i + 1] + [newNode] + nodes[i + 1..])
    {
      var nn := node.next;
      assert LinkedAt(nodes, i) && LinkedAt(nodes, 0) && (i + 1 < |nodes| ==> LinkedAt(nodes, i + 1));
      newNode.prev := node;
      newNode.next := nn;
      if nn != null {
        nn.prev := newNode;
      } else {
        header.prev := newNode;
      }
      node.next := newNode;
      count := count + 1;
      NoDupInsert(nodes, i + 1, newNode);
      nodes := nodes[..i + 1] + [newNode] + nodes[i + 1..];
      forall k | 0 <= k < |nodes|
        ensures LinkedAt(nodes, k)
      {
        if k != i + 1 {
          var j := if k <= i then k else k - 1;
          assert nodes[k] == old(nodes)[j] && old(LinkedAt(nodes, j));
        }
      }
    }

    method PopFront() returns (ok: bool)
      requires Valid()
      modifies this, nodes
      ensures Valid() && (ok <==> old(nodes) != [])
      ensures nodes == if ok then old(nodes)[1..] else []
    {
      if header == null {
        return false;
      }
      assert LinkedAt(nodes, 0);
      nodes := nodes[1..];
      ok := true;
      if count == 1 {
        header, count := null, 0;
        return;
      }
      var newHeader := header.next;
      newHeader.prev := header.prev;
      header := newHeader;
      count := count - 1;
      forall i | 0 <= i < |nodes|
        ensures LinkedAt(nodes, i)
      {
        assert nodes[i] == old(nodes)[i + 1] && old(LinkedAt(nodes, i + 1));
      }
    }

    method PopBack() returns (ok: bool)
      requires Valid()
      modifies this, nodes
      ensures Valid() && (ok <==> old(nodes) != [])
      ensures nodes == if ok then old(nodes)[..|old(nodes)| - 1] else []
    {
      if header == null {
        return false;
      }
      assert LinkedAt(nodes, 0) && LinkedAt(nodes, |nodes| - 1);
      nodes := nodes[..|nodes| - 1];
      ok := true;
      if count == 1 {
        header, count := null, 0;
        return;
      }
      var oldEnd := header.prev;
      oldEnd.prev.next := null;
      header.prev := oldEnd.prev;
      count := count - 1;
      forall i | 0 <= i < |nodes|
        ensures LinkedAt(nodes, i)
      {
        assert nodes[i] == old(nodes)[i] && old(LinkedAt(nodes, i));
      }
    }

    /** Extract an arbitrary member; an unlinked node is ignored. */
    method Extract(node: BNode?<T>, ghost i: nat)
      requires Valid() && (node == null || node.prev == null || (i < |nodes| && nodes[i] == node))
      modifies this, nodes
      ensures Valid()
      ensures node == null || old(node.prev) == null ==> nodes == old(nodes)
      ensures node != null && old(node.prev) != null ==>
        nodes == old(nodes[..i] + nodes[i + 1..]) && node !in nodes && node.prev == null && node.next == null
    {
      if node == null || node.prev == null {
        return;
      }
      assert LinkedAt(nodes, i) && LinkedAt(nodes, 0) && (i + 1 < |nodes| ==> LinkedAt(nodes, i + 1));
      if node.next != null {
        node.next.prev := node.prev;
      } else {
        header.prev := node.prev;
      }
      if node != header {
        node.prev.next := node.next;
      } else {
        header := node.next;
      }
      node.next, node.prev := null, null;
      count := count - 1;
      NoDupDrop(nodes, i);
      nodes := nodes[..i] + nodes[i + 1..];
      forall k | 0 <= k < i
        ensures LinkedAt(nodes, k)
      {
        assert nodes[k] == old(nodes)[k] && old(LinkedAt(nodes, k));
      }
      forall k | i <= k < |nodes|
        ensures LinkedAt(nodes, k)
      {
        assert nodes[k] == old(nodes)[k + 1] && old(LinkedAt(nodes, k + 1));
      }
    }

    /** Clear: drop the nodes one by one from the front. */
    method Clear()
      requires Valid()
      modifies this
      ensures Valid() && nodes == []
    {
      ghost var i := 0;
      while header != null
        invariant 0 <= i <= |nodes| && header == (if i < |nodes| then nodes[i] else null)
        invariant nodes == old(nodes) && forall k :: 0 <= k < |nodes| ==> LinkedAt(nodes, k)
        decreases |nodes| - i
      {
        assert LinkedAt(nodes, i);
        header := header.next;
        i := i + 1;
      }
      count, nodes := 0, [];
    }
  }
}
