/** ReuseAllNodes: the destructive post-order walk that hands every node to a callback. */
module AvlReuse {
  import opened Basics
  import opened AvlShape
  import opened AvlWalk
  import opened AvlHeap

  /** Any callback: it receives an unlinked node of height 0 and may rewrite that node, every node
      it received before, and whatever else it owns. */
  method Callback(node: Node, ghost owned: set<Node>)
    requires node.parent == null && node.left == null && node.right == null && node.height == 0
    modifies node, owned
  {
    modify {node} + owned;
  }

  /** The part of the tree not handed over yet. */
  ghost predicate Remaining(c: Path, t: Tree)
    reads Nodes(t), PathNodes(c)
  {
    forall x :: Broken(x) ==>
      Linked(t, Parent(c)) && PathLinked(c, Ptr(t)) &&
      Proper(t) && ProperPath(c) && Nodes(t) !! PathNodes(c) && LeftDone(c)
  }

  lemma RemainingIs(c: Path, t: Tree)
    ensures Remaining(c, t) <==>
      Linked(t, Parent(c)) && PathLinked(c, Ptr(t)) &&
      Proper(t) && ProperPath(c) && Nodes(t) !! PathNodes(c) && LeftDone(c)
  {
    assert Broken(Seal);
  }

  /** Unlink a leaf from both sides and give it away. */
  method HandOver(node: Node, parent: Node?, ghost c: Path, ghost t: Tree, ghost owned: set<Node>)
    requires Remaining(c, t) && t.Br? && t.l.Leaf? && t.r.Leaf? && node == t.n && parent == Parent(c)
    requires owned !! Nodes(t) + PathNodes(c)
    modifies Nodes(t), PathNodes(c), owned
    ensures !c.Top? ==> Remaining(c.up, Attach(c, Leaf))
  {
    RemainingIs(c, t);
    PathAllocated(c);
    Unlink(node, parent, c, t);
    if !c.Top? {
      RemainingIs(c.up, Attach(c, Leaf));
    }
    Callback(node, owned);
  }

  method Unlink(node: Node, parent: Node?, ghost c: Path, ghost t: Tree)
    requires Linked(t, Parent(c)) && PathLinked(c, Ptr(t)) && Proper(t) && ProperPath(c) && Nodes(t) !! PathNodes(c)
    requires t.Br? && t.l.Leaf? && t.r.Leaf? && node == t.n && parent == Parent(c)
    modifies Nodes(t), PathNodes(c)
    ensures node.left == null && node.right == null && node.parent == null && node.height == 0
    ensures !c.Top? ==> PathLinked(c.up, parent) && Linked(Attach(c, Leaf), Parent(c.up))
  {
    PathAllocated(c);
    node.left, node.right, node.parent := null, null, null;
    node.height := 0;
    if parent != null {
      if parent.left == node {
        parent.left := null;
      } else {
        parent.right := null;
      }
      assert PathLinked(c.up, parent);
      assert Linked(if c.InLeft? then c.r else c.l, parent);
    }
  }

  lemma RemainingDown(c: Path, t: Tree)
    requires Remaining(c, t) && t.Br?
    ensures t.n.left == Ptr(t.l) && t.n.right == Ptr(t.r) && t.n.parent == Parent(c)
    ensures Remaining(InLeft(c, t.n, t.h, t.r), t.l)
    ensures Nodes(t.l) + PathNodes(InLeft(c, t.n, t.h, t.r)) == Nodes(t) + PathNodes(c)
    ensures t.l.Leaf? ==> Remaining(InRight(c, t.l, t.n, t.h), t.r)
    ensures Nodes(t.r) + PathNodes(InRight(c, t.l, t.n, t.h)) == Nodes(t) + PathNodes(c)
  {
    RemainingIs(c, t);
  }

  lemma RemainingPop(c: Path, t: Tree)
    requires Remaining(c, t) && t.Br? && t.l.Leaf? && t.r.Leaf?
    ensures LeftDone(c) && t == Single(t.n, t.h) && Nodes(t) == {t.n} && t.n !in PathNodes(c)
    ensures !c.Top? ==> Nodes(Attach(c, Leaf)) + PathNodes(c.up) == PathNodes(c)
  {
    RemainingIs(c, t);
  }

  lemma GiveAway(log: seq<Node>, n: Node, rest: seq<Node>, owned: set<Node>, others: set<Node>, all: set<Node>)
    requires n !in others && owned !! {n} + others && owned + ({n} + others) == all
    ensures log + [n] + rest == log + ([n] + rest)
    ensures owned + {n} !! others && owned + {n} + others == all
  {
  }

  /** ReuseAllNodes.  The log is the sequence of nodes given to the callback: every node once,
      children before parents, although the callback relinks what it was given. */
  method ReuseAllNodes(tree: AvlTree, ghost foreign: set<Node>) returns (log: seq<Node>)
    requires tree.Valid() && foreign !! Nodes(tree.shape)
    modifies tree, Nodes(tree.shape), foreign
    ensures tree.Valid() && tree.shape == Leaf
    ensures log == PostOrder(old(tree.shape))
  {
    log := Walk(tree.root, tree.shape, foreign);
    tree.root := null;
    tree.shape := Leaf;
  }

  /** The loop of ReuseAllNodes. */
  method Walk(root: Node?, ghost shape: Tree, ghost foreign: set<Node>) returns (log: seq<Node>)
    requires root == Ptr(shape) && Linked(shape, null) && Proper(shape) && foreign !! Nodes(shape)
    modifies Nodes(shape), foreign
    ensures log == PostOrder(shape)
  {
    ghost var c, t, owned := Top, shape, foreign;
    RemainingIs(c, t);
    var node := root;
    log := [];
    while node != null
      invariant node == Ptr(t) && Remaining(c, t) && (t.Leaf? ==> c.Top?)
      invariant owned !! Nodes(t) + PathNodes(c)
      invariant owned + (Nodes(t) + PathNodes(c)) == foreign + Nodes(shape)
      invariant log + PostRest(c, t) == PostOrder(shape)
      decreases |PostRest(c, t)|, t
    {
      RemainingDown(c, t);
      PostRestDown(c, t);
      if node.left != null {
        node := node.left;
        c, t := InLeft(c, t.n, t.h, t.r), t.l;
      } else if node.right != null {
        node := node.right;
        c, t := InRight(c, t.l, t.n, t.h), t.r;
      } else {
        var leaf: Node, parent := node, node.parent;
        RemainingPop(c, t);
        PostRestPop(c, leaf, t.h);
        ghost var rest := if c.Top? then [] else PostRest(c.up, Attach(c, Leaf));
        GiveAway(log, leaf, rest, owned, PathNodes(c), foreign + Nodes(shape));
        HandOver(leaf, parent, c, t, owned);
        log := log + [leaf];
        if parent == null {
          assert log + [] == log;
          break;
        }
        owned := owned + {leaf};
        c, t := c.up, Attach(c, Leaf);
        node := parent;
      }
    }
  }
}
