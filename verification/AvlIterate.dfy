/** Successor, predecessor and full walks over the pointer structure. */
module AvlIterate {
  import opened AvlShape
  import opened AvlWalk
  import opened AvlHeap

  /** _GetFirstNode of the subtree `t` */
  method GetFirstNode(start: Node?, ghost t: Tree, ghost parent: Node?) returns (node: Node?)
    requires start == Ptr(t) && Linked(t, parent)
    ensures node == First(InOrder(t))
  {
    node := start;
    if node == null {
      return;
    }
    ghost var s, p := t, parent;
    while node.left != null
      invariant s.Br? && node == s.n && Linked(s, p)
      invariant First(InOrder(s)) == First(InOrder(t))
      decreases s
    {
      assert InOrder(s)[0] == InOrder(s.l)[0];
      s, p := s.l, s.n;
      node := node.left;
    }
  }

  /** _GetLastNode of the subtree `t` */
  method GetLastNode(start: Node?, ghost t: Tree, ghost parent: Node?) returns (node: Node?)
    requires start == Ptr(t) && Linked(t, parent)
    ensures node == Last(InOrder(t))
  {
    node := start;
    if node == null {
      return;
    }
    ghost var s, p := t, parent;
    while node.right != null
      invariant s.Br? && node == s.n && Linked(s, p)
      invariant Last(InOrder(s)) == Last(InOrder(t))
      decreases s
    {
      assert InOrder(s)[|InOrder(s)| - 1] == InOrder(s.r)[|InOrder(s.r)| - 1];
      s, p := s.r, s.n;
      node := node.right;
    }
  }

  /** _GetNextNode: down to the leftmost node on the right, or up to the first ancestor whose left
      part contains the node. */
  method GetNextNode(tree: AvlTree, start: Node, ghost i: nat) returns (node: Node?)
    requires tree.Valid() && i < |InOrder(tree.shape)| && start == InOrder(tree.shape)[i]
    ensures node == if i + 1 < |InOrder(tree.shape)| then InOrder(tree.shape)[i + 1] else null
  {
    ghost var (c, t) := Locate(Top, tree.shape, i);
    LocateSplits(tree.shape, i);
    tree.AtIs(c, t);
    if start.right != null {
      node := GetFirstNode(start.right, t.r, start);
      assert InOrder(tree.shape)[i + 1..][0] == InOrder(t.r)[0];
    } else {
      node := ClimbFromRight(tree, start, c, t);
      assert InOrder(tree.shape)[i + 1..] == After(c);
    }
  }

  method ClimbFromRight(tree: AvlTree, start: Node, ghost c0: Path, ghost t0: Tree) returns (node: Node?)
    requires tree.At(c0, t0) && start == Ptr(t0)
    ensures node == First(After(c0))
  {
    ghost var c, t := c0, t0;
    var cur := start;
    node := start.parent;
    while node != null && node.left != cur
      invariant tree.At(c, t) && t.Br? && cur == t.n && node == Parent(c)
      invariant After(c) == After(c0)
      decreases c
    {
      tree.Up(c, t);
      c, t := c.up, Attach(c, t);
      cur := node;
      node := node.parent;
    }
    assert node != null ==> c.InLeft? && After(c)[0] == node;
  }

  /** _GetPrevNode */
  method GetPrevNode(tree: AvlTree, start: Node, ghost i: nat) returns (node: Node?)
    requires tree.Valid() && i < |InOrder(tree.shape)| && start == InOrder(tree.shape)[i]
    ensures node == if i > 0 then InOrder(tree.shape)[i - 1] else null
  {
    ghost var (c, t) := Locate(Top, tree.shape, i);
    LocateSplits(tree.shape, i);
    tree.AtIs(c, t);
    if start.left != null {
      node := GetLastNode(start.left, t.l, start);
      assert InOrder(tree.shape)[..i][i - 1] == InOrder(t.l)[|InOrder(t.l)| - 1];
    } else {
      node := ClimbFromLeft(tree, start, c, t);
      assert InOrder(tree.shape)[..i] == Before(c);
    }
  }

  method ClimbFromLeft(tree: AvlTree, start: Node, ghost c0: Path, ghost t0: Tree) returns (node: Node?)
    requires tree.At(c0, t0) && start == Ptr(t0)
    ensures node == Last(Before(c0))
  {
    ghost var c, t := c0, t0;
    var cur := start;
    node := start.parent;
    while node != null && node.right != cur
      invariant tree.At(c, t) && t.Br? && cur == t.n && node == Parent(c)
      invariant Before(c) == Before(c0)
      decreases c
    {
      tree.Up(c, t);
      c, t := c.up, Attach(c, t);
      cur := node;
      node := node.parent;
    }
    assert node != null ==> c.InRight? && Before(c)[|Before(c)| - 1] == node;
  }

  /** Iterating with begin() and ++ until end() visits the in-order sequence. */
  method Iterate(tree: AvlTree) returns (log: seq<Node>)
    requires tree.Valid()
    ensures log == InOrder(tree.shape)
  {
    log := [];
    NodesAllocated(tree.shape);
    var node := GetFirstNode(tree.root, tree.shape, null);
    while node != null
      invariant tree.Valid()
      invariant |log| <= |InOrder(tree.shape)| && log == InOrder(tree.shape)[..|log|]
      invariant node == if |log| < |InOrder(tree.shape)| then InOrder(tree.shape)[|log|] else null
      decreases |InOrder(tree.shape)| - |log|
    {
      log := log + [node];
      node := GetNextNode(tree, node, |log| - 1);
    }
  }

  /** DoInAll: the same sequence with an explicit stack. */
  method DoInAll(tree: AvlTree) returns (log: seq<Node>)
    requires tree.Valid()
    ensures log == InOrder(tree.shape)
  {
    var stack: seq<Node> := [];
    ghost var t, p, trees := tree.shape, null, [];
    var node := tree.root;
    log := [];
    while node != null || stack != []
      invariant Stacked(stack, trees) && node == Ptr(t) && Linked(t, p)
      invariant log + InOrder(t) + Pending(trees) == InOrder(tree.shape)
      decreases |InOrder(tree.shape)| - |log|
    {
      stack, trees := PushLeftSpine(node, stack, t, p, trees, log);
      var top := |stack| - 1;
      PopPending(log, trees);
      node := stack[top];
      log := log + [node];
      t, p := trees[top].r, node;
      stack, trees := stack[..top], trees[..top];
      node := node.right;
    }
  }

  /** The inner loop of DoInAll. */
  method PushLeftSpine(start: Node?, stack0: seq<Node>, ghost t0: Tree, ghost p0: Node?, ghost trees0: seq<Tree>,
                       ghost log: seq<Node>) returns (stack: seq<Node>, ghost trees: seq<Tree>)
    requires Stacked(stack0, trees0) && start == Ptr(t0) && Linked(t0, p0)
    ensures Stacked(stack, trees) && (start != null || stack0 != [] ==> stack != [])
    ensures log + [] + Pending(trees) == log + InOrder(t0) + Pending(trees0)
  {
    ghost var t, p := t0, p0;
    var node := start;
    stack, trees := stack0, trees0;
    while node != null
      invariant Stacked(stack, trees) && node == Ptr(t) && Linked(t, p)
      invariant log + InOrder(t) + Pending(trees) == log + InOrder(t0) + Pending(trees0)
      invariant start != null || stack0 != [] ==> node != null || stack != []
      decreases t
    {
      PushPending(log, t, trees);
      stack, trees := stack + [node], trees + [t];
      node := node.left;
      t, p := t.l, t.n;
    }
  }

  /** A node on the stack: its right subtree is still to come. */
  ghost predicate Waiting(n: Node, t: Tree)
    reads Nodes(t)
  {
    t.Br? && t.n == n && n.right == Ptr(t.r) && Linked(t.r, n)
  }

  ghost predicate Stacked(stack: seq<Node>, trees: seq<Tree>)
    reads set i, x | 0 <= i < |trees| && x in Nodes(trees[i]) :: x
  {
    |stack| == |trees| && forall i :: 0 <= i < |trees| ==> Waiting(stack[i], trees[i])
  }

  lemma PushPending(log: seq<Node>, t: Tree, trees: seq<Tree>)
    requires t.Br? && forall i :: 0 <= i < |trees| ==> trees[i].Br?
    ensures log + InOrder(t.l) + Pending(trees + [t]) == log + InOrder(t) + Pending(trees)
  {
    assert (trees + [t])[..|trees|] == trees;
    Regroup(log, InOrder(t.l), [t.n], InOrder(t.r), Pending(trees));
  }

  lemma PopPending(log: seq<Node>, trees: seq<Tree>)
    requires trees != [] && forall i :: 0 <= i < |trees| ==> trees[i].Br?
    ensures var t := trees[|trees| - 1];
      (log + [t.n]) + InOrder(t.r) + Pending(trees[..|trees| - 1]) == log + [] + Pending(trees)
  {
  }
}
