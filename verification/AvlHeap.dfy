/** The AVL tree as the source keeps it: nodes with parent, left, right and height fields,
    rewired in place. */
module AvlHeap {
  import opened AvlShape
  import opened AvlBalance
  import opened AvlOrder
  import opened AvlWalk

  /** The pointers below `parent` realise the shape `t`, with the stored heights of `t`. */
  ghost predicate Linked(t: Tree, parent: Node?)
    reads Nodes(t)
  {
    match t
    case Leaf => true
    case Br(l, n, h, r) =>
      n.parent == parent && n.height == h && n.left == Ptr(l) && n.right == Ptr(r) &&
      Linked(l, n) && Linked(r, n)
  }

  /** The pointers of the nodes around a hole realise the path `c`; `hole` fills the hole. */
  ghost predicate PathLinked(c: Path, hole: Node?)
    reads PathNodes(c)
  {
    match c
    case Top => true
    case InLeft(up, n, h, r) =>
      n.parent == Parent(up) && n.height == h && n.left == hole && n.right == Ptr(r) &&
      Linked(r, n) && PathLinked(up, n)
    case InRight(up, l, n, h) =>
      n.parent == Parent(up) && n.height == h && n.left == Ptr(l) && n.right == hole &&
      Linked(l, n) && PathLinked(up, n)
  }

  lemma {:induction false} PlugLinked(c: Path, t: Tree)
    ensures Linked(Plug(c, t), null) <==> Linked(t, Parent(c)) && PathLinked(c, Ptr(t))
  {
    if !c.Top? {
      PlugLinked(c.up, Attach(c, t));
    }
  }

  lemma {:induction false} NodesAllocated(t: Tree)
    ensures forall x :: x in Nodes(t) ==> allocated(x)
  {
    if t.Br? {
      NodesAllocated(t.l);
      NodesAllocated(t.r);
    }
  }

  lemma {:induction false} PathAllocated(c: Path)
    ensures forall x :: x in PathNodes(c) ==> allocated(x)
  {
    if !c.Top? {
      PathAllocated(c.up);
      NodesAllocated(if c.InLeft? then c.r else c.l);
    }
  }

  /** `if (child) child->parent = parent`, for the child of shape `b`. */
  method Adopt(child: Node?, parent: Node?, ghost b: Tree, ghost from: Node?)
    requires child == Ptr(b) && Linked(b, from) && Proper(b)
    modifies (if child == null then {} else {child})`parent
    ensures Linked(b, parent)
  {
    if child != null {
      child.parent := parent;
      assert Linked(b.l, b.n) && Linked(b.r, b.n);
    }
  }

  /** LEFT_HEIGHT and RIGHT_HEIGHT */
  function LeftHeight(n: Node): nat
    reads n, n.left
  {
    if n.left != null then n.left.height else 0
  }

  function RightHeight(n: Node): nat
    reads n, n.right
  {
    if n.right != null then n.right.height else 0
  }

  lemma StoredHeights(t: Tree, parent: Node?)
    requires t.Br? && Linked(t, parent)
    ensures t.n.height == t.h && LeftHeight(t.n) == H(t.l) && RightHeight(t.n) == H(t.r)
  {
    assert Linked(t.l, t.n) && Linked(t.r, t.n);
  }

  class AvlTree {
    var root: Node?
    ghost var shape: Tree

    constructor ()
      ensures Valid() && shape == Leaf
    {
      root, shape := null, Leaf;
    }

    /** The pointers form the tree `shape`, whose keys are in order.  Nothing is said of balance:
        nodes may be pushed with any stored height. */
    ghost predicate Valid()
      reads this, Nodes(shape)
    {
      Is(shape) && Sorted(InOrder(shape))
    }

    /** This tree is the one of shape `t`. */
    ghost predicate Is(t: Tree)
      reads this, Nodes(t)
    {
      root == Ptr(t) && Linked(t, null) && Proper(t)
    }

    /** This tree is `Plug(c, t)`, seen from the subtree `t` at `c`. */
    ghost predicate At(c: Path, t: Tree)
      reads this, Nodes(t), PathNodes(c)
    {
      root == Ptr(Plug(c, t)) &&
      Linked(t, Parent(c)) && PathLinked(c, Ptr(t)) &&
      Proper(t) && ProperPath(c) && Nodes(t) !! PathNodes(c)
    }

    lemma AtIs(c: Path, t: Tree)
      ensures At(c, t) <==> Is(Plug(c, t))
      ensures Nodes(Plug(c, t)) == Nodes(t) + PathNodes(c)
    {
      PlugLinked(c, t);
      PlugProper(c, t);
    }

    lemma {:induction false} PlugPtr(c: Path, t: Tree, u: Tree)
      ensures !c.Top? ==> Plug(c, t).Br? && Ptr(Plug(c, t)) == Ptr(Plug(c, u))
    {
      if !c.Top? && !c.up.Top? {
        PlugPtr(c.up, Attach(c, t), Attach(c, u));
      }
    }

    /** _ChildPlace, at the path `c` of `oldNode`. */
    method ChildPlace(oldNode: Node, newNode: Node?, parent: Node?, ghost c: Path)
      requires PathLinked(c, oldNode) && ProperPath(c) && parent == Parent(c) && oldNode !in PathNodes(c)
      modifies this`root, (if parent == null then {} else {parent})`left,
        (if parent == null then {} else {parent})`right
      ensures PathLinked(c, newNode)
      ensures root == if c.Top? then newNode else old(root)
    {
      if parent != null {
        if oldNode == parent.left {
          parent.left := newNode;
        } else {
          parent.right := newNode;
        }
      } else {
        root := newNode;
      }
    }

    /** Hang the subtree `u`, already linked below `parent`, in the place of `node`. */
    method Hang(node: Node, newNode: Node?, parent: Node?, ghost c: Path, ghost t: Tree, ghost u: Tree)
      requires root == Ptr(Plug(c, t)) && node == Ptr(t) && parent == Parent(c)
      requires PathLinked(c, node) && ProperPath(c) && node !in PathNodes(c)
      requires newNode == Ptr(u) && Linked(u, parent) && Proper(u) && Nodes(u) !! PathNodes(c)
      modifies this`root, (if parent == null then {} else {parent})`left,
        (if parent == null then {} else {parent})`right
      ensures At(c, u)
    {
      NodesAllocated(u);
      ChildPlace(node, newNode, parent, c);
      PlugPtr(c, t, u);
    }

    /** _RotateLeft */
    method RotateLeft(node: Node, ghost c: Path, ghost t: Tree) returns (right: Node)
      requires At(c, t) && t.Br? && t.r.Br? && node == t.n
      modifies this`root, Nodes(t), PathNodes(c)
      ensures At(c, AvlShape.RotateLeft(t)) && right == AvlShape.RotateLeft(t).n
      ensures Nodes(AvlShape.RotateLeft(t)) == Nodes(t)
    {
      var parent := node.parent;
      Reassociate(t.l, t.n, t.r.l, t.r.n, t.r.r, t.h, t.r.h, t.h, t.r.h);
      PathAllocated(c);
      right := TurnLeft(node, parent, t);
      Hang(node, right, parent, c, t, AvlShape.RotateLeft(t));
    }

    /** The part of _RotateLeft below the parent. */
    method TurnLeft(node: Node, parent: Node?, ghost t: Tree) returns (right: Node)
      requires Linked(t, parent) && Proper(t) && t.Br? && t.r.Br? && node == t.n
      modifies Nodes(t)
      ensures Linked(AvlShape.RotateLeft(t), parent) && right == t.r.n
    {
      right := node.right;
      ghost var a, b, d := t.l, t.r.l, t.r.r;
      assert Linked(t.r, node) && Proper(t.r);
      NodesAllocated(t.l);
      NodesAllocated(t.r);
      node.right := right.left;
      Adopt(node.right, node, b, right);
      right.left := node;
      right.parent := parent;
      node.parent := right;
      assert Linked(a, node) && Linked(b, node) && Linked(d, right);
    }

    /** _RotateRight */
    method RotateRight(node: Node, ghost c: Path, ghost t: Tree) returns (left: Node)
      requires At(c, t) && t.Br? && t.l.Br? && node == t.n
      modifies this`root, Nodes(t), PathNodes(c)
      ensures At(c, AvlShape.RotateRight(t)) && left == AvlShape.RotateRight(t).n
      ensures Nodes(AvlShape.RotateRight(t)) == Nodes(t)
    {
      var parent := node.parent;
      Reassociate(t.l.l, t.l.n, t.l.r, t.n, t.r, t.l.h, t.h, t.l.h, t.h);
      PathAllocated(c);
      left := TurnRight(node, parent, t);
      Hang(node, left, parent, c, t, AvlShape.RotateRight(t));
    }

    method TurnRight(node: Node, parent: Node?, ghost t: Tree) returns (left: Node)
      requires Linked(t, parent) && Proper(t) && t.Br? && t.l.Br? && node == t.n
      modifies Nodes(t)
      ensures Linked(AvlShape.RotateRight(t), parent) && left == t.l.n
    {
      left := node.left;
      ghost var a, b, d := t.l.l, t.l.r, t.r;
      assert Linked(t.l, node) && Proper(t.l);
      NodesAllocated(t.l);
      NodesAllocated(t.r);
      node.left := left.right;
      Adopt(node.left, node, b, left);
      left.right := node;
      left.parent := parent;
      node.parent := left;
      assert Linked(a, left) && Linked(b, node) && Linked(d, node);
    }

    /** Looking at the same tree from one level further down. */
    lemma Down(c: Path, t: Tree)
      requires At(c, t) && t.Br?
      ensures At(InLeft(c, t.n, t.h, t.r), t.l) && At(InRight(c, t.l, t.n, t.h), t.r)
    {
    }

    lemma Up(c: Path, t: Tree)
      requires At(c, t) && !c.Top?
      ensures At(c.up, Attach(c, t))
      ensures Nodes(Attach(c, t)) + PathNodes(c.up) == Nodes(t) + PathNodes(c)
    {
    }

    method SetHeight(node: Node, h: nat, ghost c: Path, ghost t: Tree)
      requires At(c, t) && t.Br? && node == t.n
      modifies node`height
      ensures At(c, t.(h := h))
    {
      node.height := h;
      PlugPtr(c, t, t.(h := h));
      assert Linked(t.l, node) && Linked(t.r, node);
    }

    /** _UpdateHeight */
    method UpdateHeight(node: Node, ghost c: Path, ghost t: Tree)
      requires At(c, t) && t.Br? && node == t.n
      modifies node`height
      ensures At(c, Update(t))
    {
      StoredHeights(t, Parent(c));
      var lh := LeftHeight(node);
      var rh := RightHeight(node);
      SetHeight(node, Max(lh, rh) + 1, c, t);
    }

    /** A left rotation followed by the two height updates that the fixups make. */
    method TurnLeftAndUpdate(node: Node, ghost c: Path, ghost t: Tree) returns (top: Node)
      requires At(c, t) && t.Br? && t.r.Br? && node == t.n
      modifies this`root, Nodes(t), PathNodes(c)
      ensures At(c, LeftWithHeights(t)) && top == LeftWithHeights(t).n
      ensures Nodes(LeftWithHeights(t)) == Nodes(t)
    {
      ghost var s := AvlShape.RotateLeft(t);
      top := RotateLeft(node, c, t);
      Down(c, s);
      UpdateHeight(top.left, InLeft(c, s.n, s.h, s.r), s.l);
      Up(InLeft(c, s.n, s.h, s.r), Update(s.l));
      UpdateHeight(top, c, s.(l := Update(s.l)));
      LeftWithHeightsKeeps(t);
    }

    method TurnRightAndUpdate(node: Node, ghost c: Path, ghost t: Tree) returns (top: Node)
      requires At(c, t) && t.Br? && t.l.Br? && node == t.n
      modifies this`root, Nodes(t), PathNodes(c)
      ensures At(c, RightWithHeights(t)) && top == RightWithHeights(t).n
      ensures Nodes(RightWithHeights(t)) == Nodes(t)
    {
      ghost var s := AvlShape.RotateRight(t);
      top := RotateRight(node, c, t);
      Down(c, s);
      UpdateHeight(top.right, InRight(c, s.l, s.n, s.h), s.r);
      Up(InRight(c, s.l, s.n, s.h), Update(s.r));
      UpdateHeight(top, c, s.(r := Update(s.r)));
      RightWithHeightsKeeps(t);
    }

    /** _FixupLeftHeavy: nothing is assumed of the stored heights beyond the caller's test, yet
        no rotation ever meets a null child. */
    method FixupLeftHeavy(node: Node, ghost c: Path, ghost t: Tree) returns (top: Node)
      requires At(c, t) && t.Br? && H(t.l) >= 2 && node == t.n
      modifies this`root, Nodes(t), PathNodes(c)
      ensures At(c, FixLeftHeavy(t)) && top == FixLeftHeavy(t).n
      ensures Nodes(FixLeftHeavy(t)) == Nodes(t)
    {
      var left := node.left;
      ghost var c1 := InLeft(c, t.n, t.h, t.r);
      ghost var s := t;
      Down(c, t);
      StoredHeights(t.l, node);
      var lh := LeftHeight(left);
      var rh := RightHeight(left);
      if lh < rh {
        left := TurnLeftAndUpdate(left, c1, t.l);
        Up(c1, LeftWithHeights(t.l));
        s := t.(l := LeftWithHeights(t.l));
      }
      top := TurnRightAndUpdate(node, c, s);
    }

    /** _FixupRigtHeavy */
    method FixupRightHeavy(node: Node, ghost c: Path, ghost t: Tree) returns (top: Node)
      requires At(c, t) && t.Br? && H(t.r) >= 2 && node == t.n
      modifies this`root, Nodes(t), PathNodes(c)
      ensures At(c, FixRightHeavy(t)) && top == FixRightHeavy(t).n
      ensures Nodes(FixRightHeavy(t)) == Nodes(t)
    {
      var right := node.right;
      ghost var c1 := InRight(c, t.l, t.n, t.h);
      ghost var s := t;
      Down(c, t);
      StoredHeights(t.r, node);
      var lh := LeftHeight(right);
      var rh := RightHeight(right);
      if lh > rh {
        right := TurnRightAndUpdate(right, c1, t.r);
        Up(c1, RightWithHeights(t.r));
        s := t.(r := RightWithHeights(t.r));
      }
      top := TurnLeftAndUpdate(node, c, s);
    }

    /** The tail of one fixup iteration: store the height, then rotate if out of balance. */
    method Restore(node: Node, h: nat, bf: int, ghost c: Path, ghost t: Tree) returns (top: Node)
      requires At(c, t) && t.Br? && node == t.n
      requires h == Max(H(t.l), H(t.r)) + 1 && bf == H(t.l) - H(t.r)
      modifies this`root, Nodes(t), PathNodes(c)
      ensures At(c, Rebalance(Update(t))) && top == Rebalance(Update(t)).n
      ensures Nodes(Rebalance(Update(t))) == Nodes(t)
    {
      top := node;
      SetHeight(node, h, c, t);
      if bf >= 2 {
        top := FixupLeftHeavy(node, c, Update(t));
      } else if bf <= -2 {
        top := FixupRightHeavy(node, c, Update(t));
      }
    }

    /** _InsertFixup, started at the parent of the subtree `t0`. */
    method InsertFixup(start: Node?, ghost c0: Path, ghost t0: Tree)
      requires At(c0, t0) && start == Parent(c0)
      modifies this`root, Nodes(t0), PathNodes(c0)
      ensures Is(InsertFixUp(c0, t0))
    {
      var node := start;
      ghost var c, t := c0, t0;
      while node != null
        invariant node == Parent(c) && At(c, t)
        invariant Nodes(t) + PathNodes(c) == Nodes(t0) + PathNodes(c0)
        invariant InsertFixUp(c, t) == InsertFixUp(c0, t0)
        decreases c
      {
        Up(c, t);
        c, t := c.up, Attach(c, t);
        StoredHeights(t, Parent(c));
        var lh: int, rh: int := LeftHeight(node), RightHeight(node);
        var h := Max(lh, rh) + 1;
        if node.height == h {
          AtIs(c, t);
          return;
        }
        var bf := lh - rh;
        node := Restore(node, h, bf, c, t);
        t := Rebalance(Update(t));
        node := node.parent;
      }
    }

    /** _EraseFixup, started at the parent of the subtree `t0`. */
    method EraseFixup(start: Node?, ghost c0: Path, ghost t0: Tree)
      requires At(c0, t0) && start == Parent(c0)
      modifies this`root, Nodes(t0), PathNodes(c0)
      ensures Is(EraseFixUp(c0, t0))
    {
      var node := start;
      ghost var c, t := c0, t0;
      while node != null
        invariant node == Parent(c) && At(c, t)
        invariant Nodes(t) + PathNodes(c) == Nodes(t0) + PathNodes(c0)
        invariant EraseFixUp(c, t) == EraseFixUp(c0, t0)
        decreases c
      {
        Up(c, t);
        c, t := c.up, Attach(c, t);
        StoredHeights(t, Parent(c));
        var lh: int, rh: int := LeftHeight(node), RightHeight(node);
        var h := Max(lh, rh) + 1;
        var bf := lh - rh;
        if node.height == h && -1 <= bf <= 1 {
          AtIs(c, t);
          return;
        }
        node := Restore(node, h, bf, c, t);
        t := Rebalance(Update(t));
        node := node.parent;
      }
    }

    /** _Erase of the root of the subtree `t` at `c`. */
    method Erase(node: Node, ghost c: Path, ghost t: Tree)
      requires At(c, t) && t.Br? && node == t.n
      modifies this`root, Nodes(t), PathNodes(c)
      ensures Is(EraseAt(c, t)) && node.height == old(node.height)
    {
      if node.left != null && node.right != null {
        EraseInner(node, c, t);
      } else {
        var parent := node.parent;
        var child := if node.left != null then node.left else node.right;
        ghost var u := if t.l.Br? then t.l else t.r;
        Splice(node, child, parent, c, t, u);
        EraseFixup(parent, c, u);
      }
    }

    /** Put the only child `u` of `node` (or nothing) in the place of `node`. */
    method Splice(node: Node, child: Node?, parent: Node?, ghost c: Path, ghost t: Tree, ghost u: Tree)
      requires At(c, t) && t.Br? && node == t.n && parent == Parent(c)
      requires child == Ptr(u) && (u == t.l || u == t.r)
      modifies this`root, (if child == null then {} else {child})`parent,
        (if parent == null then {} else {parent})`left, (if parent == null then {} else {parent})`right
      ensures At(c, u)
    {
      PathAllocated(c);
      NodesAllocated(u);
      assert Linked(u, node) && Proper(u);
      ChildPlace(node, child, parent, c);
      assert Linked(u, node);
      Adopt(child, parent, u, node);
      PlugPtr(c, t, u);
      assert c.Top? ==> root == child;
    }

    /** The two-child case: the leftmost node of the right subtree takes the place of `node`. */
    method EraseInner(node: Node, ghost c: Path, ghost t: Tree)
      requires At(c, t) && t.Br? && node == t.n && t.l.Br? && t.r.Br?
      modifies this`root, Nodes(t), PathNodes(c)
      ensures Is(EraseAt(c, t)) && node.height == old(node.height)
    {
      ghost var base := InRight(c, t.l, t.n, t.h);
      ghost var seg, m := Top, t.r;
      Down(c, t);
      var succ := node.right;
      while succ.left != null
        invariant m.Br? && succ == m.n && At(Compose(seg, base), m)
        invariant LeftSpine(seg, m) == LeftSpine(Top, t.r) && (seg.Top? ==> m == t.r)
        invariant Nodes(m) + PathNodes(Compose(seg, base)) == Nodes(t) + PathNodes(c)
        invariant node.height == old(node.height)
        decreases m
      {
        Down(Compose(seg, base), m);
        succ := succ.left;
        seg, m := InLeft(seg, m.n, m.h, m.r), m.l;
      }
      ComposeBase(seg, base);
      if succ.parent == node {
        Up(base, t.r);
        EraseNear(node, succ, c, t);
      } else {
        EraseFar(node, succ, c, t, seg, m);
      }
    }

    /** `succ` is the right child of `node` and has no left child. */
    method EraseNear(node: Node, succ: Node, ghost c: Path, ghost t: Tree)
      requires At(c, t) && t.Br? && node == t.n && t.l.Br? && t.r.Br? && succ == t.r.n && t.r.l.Leaf?
      modifies this`root, Nodes(t), PathNodes(c)
      ensures Is(EraseFixUp(InLeft(c, succ, t.h, t.r.r), t.l)) && node.height == old(node.height)
    {
      assert node !in Nodes(t.l) && node !in PathNodes(InLeft(c, succ, t.h, t.r.r));
      TakeOverNear(node, succ, c, t);
      EraseFixup(succ, InLeft(c, succ, t.h, t.r.r), t.l);
    }

    /** `succ`, the leftmost node below the right child, lies deeper than that child. */
    method EraseFar(node: Node, succ: Node, ghost c: Path, ghost t: Tree, ghost seg: Path, ghost m: Tree)
      requires t.Br? && t.l.Br? && t.r.Br? && node == t.n && LeftSpine(Top, t.r) == (seg, m)
      requires succ == m.n && At(Compose(seg, InRight(c, t.l, t.n, t.h)), m) && !seg.Top?
      requires Nodes(m) + PathNodes(Compose(seg, InRight(c, t.l, t.n, t.h))) == Nodes(t) + PathNodes(c)
      modifies this`root, Nodes(t), PathNodes(c)
      ensures Is(EraseAt(c, t)) && node.height == old(node.height)
    {
      var parent2 := succ.parent;
      ghost var base := InRight(c, t.l, t.n, t.h);
      ghost var t1 := t.(r := Plug(seg, m.r));
      Splice(succ, succ.right, parent2, Compose(seg, base), m, m.r);
      PlugCompose(seg, base, m.r);
      AtIs(Compose(seg, base), m.r);
      AtIs(c, t1);
      PlugPtr(seg, m.r, m.r);
      EraseFarUp(node, succ, parent2, c, t1, seg, m.r);
    }

    /** The rest, once `succ` is taken out of the right subtree, which then is `seg` filled with `u`. */
    method EraseFarUp(node: Node, succ: Node, parent2: Node?, ghost c: Path, ghost t: Tree, ghost seg: Path,
                      ghost u: Tree)
      requires At(c, t) && t.Br? && node == t.n && t.l.Br? && t.r.Br? && t.r == Plug(seg, u)
      requires succ !in Nodes(t) && succ !in PathNodes(c)
      requires !seg.Top? && parent2 == Parent(seg)
      modifies this`root, succ, Nodes(t), PathNodes(c)
      ensures Is(EraseFixUp(Compose(seg, InRight(c, t.l, succ, t.h)), u)) && node.height == old(node.height)
    {
      ghost var base := InRight(c, t.l, succ, t.h);
      ghost var all := Compose(seg, base);
      TakeOver(node, succ, c, t);
      PlugCompose(seg, base, u);
      AtIs(c, t.(n := succ));
      AtIs(all, u);
      assert node !in Nodes(u) + PathNodes(all);
      ComposeParent(seg, base);
      EraseFixup(parent2, all, u);
    }

    lemma ComposeParent(seg: Path, base: Path)
      requires !seg.Top?
      ensures Parent(Compose(seg, base)) == Parent(seg)
    {
    }

    lemma {:induction false} ComposeBase(seg: Path, base: Path)
      requires ProperPath(Compose(seg, base)) && !base.Top?
      ensures PathNodes(base) <= PathNodes(Compose(seg, base))
      ensures Parent(Compose(seg, base)) == base.n <==> seg.Top?
    {
      if !seg.Top? {
        ComposeBase(seg.up, base);
      }
    }

    /** `succ` is the right child of `node` and has no left child. */
    method TakeOverNear(node: Node, succ: Node, ghost c: Path, ghost t: Tree)
      requires At(c, t) && t.Br? && node == t.n && t.l.Br? && t.r.Br? && succ == t.r.n && t.r.l.Leaf?
      modifies this`root, Nodes(t), PathNodes(c)
      ensures At(c, Br(t.l, succ, t.h, t.r.r)) && node.height == old(node.height)
    {
      var parent := node.parent;
      PathAllocated(c);
      assert Proper(t.r);
      InheritNear(node, succ, parent, t);
      Hang(node, succ, parent, c, t, Br(t.l, succ, t.h, t.r.r));
    }

    method InheritNear(node: Node, succ: Node, parent: Node?, ghost t: Tree)
      requires Linked(t, parent) && Proper(t)
      requires t.Br? && node == t.n && t.l.Br? && t.r.Br? && succ == t.r.n && t.r.l.Leaf?
      modifies Nodes(t)
      ensures Linked(Br(t.l, succ, t.h, t.r.r), parent) && node.height == old(node.height)
    {
      assert Linked(t.r, node) && Proper(t.r);
      NodesAllocated(t.r.r);
      succ.left := node.left;
      Adopt(node.left, succ, t.l, node);
      succ.parent := parent;
      succ.height := node.height;
      assert Linked(t.l, succ) && Linked(t.r.r, succ);
    }

    /** `succ` is outside the tree. */
    method TakeOver(node: Node, succ: Node, ghost c: Path, ghost t: Tree)
      requires At(c, t) && t.Br? && node == t.n && t.l.Br? && t.r.Br?
      requires succ !in Nodes(t) && succ !in PathNodes(c)
      modifies this`root, succ, Nodes(t), PathNodes(c)
      ensures At(c, t.(n := succ)) && node.height == old(node.height)
    {
      var parent := node.parent;
      PathAllocated(c);
      Inherit(node, succ, parent, t);
      Hang(node, succ, parent, c, t, t.(n := succ));
    }

    method Inherit(node: Node, succ: Node, parent: Node?, ghost t: Tree)
      requires Linked(t, parent) && Proper(t)
      requires t.Br? && node == t.n && t.l.Br? && t.r.Br? && succ !in Nodes(t)
      modifies succ, Nodes(t)
      ensures Linked(t.(n := succ), parent) && node.height == old(node.height)
    {
      var right, left := node.right, node.left;
      NodesAllocated(t.l);
      NodesAllocated(t.r);
      succ.right := right;
      Adopt(right, succ, t.r, node);
      succ.left := left;
      Adopt(left, succ, t.l, node);
      succ.height := node.height;
      succ.parent := parent;
      assert Linked(t.l, succ) && Linked(t.r, succ);
    }

    // ---------- search ----------

    /** FindNode.  The ghost results locate the node and count the loop's iterations. */
    method FindNode(key: int) returns (node: Node?, ghost c: Path, ghost s: Tree, ghost steps: nat)
      requires Valid()
      ensures (c, s) == Descend(Top, shape, key) && At(c, s) && node == Ptr(s)
      ensures Plug(c, s) == shape
      ensures node != null <==> HasKey(shape, key)
      ensures node != null ==> node in Nodes(shape) && node.key == key
      ensures steps == Visits(shape, key)
    {
      c, s, steps := Top, shape, 0;
      node := root;
      while node != null
        invariant At(c, s) && node == Ptr(s) && Descend(c, s, key) == Descend(Top, shape, key)
        invariant steps + Visits(s, key) == Visits(shape, key)
        decreases s
      {
        Down(c, s);
        steps := steps + 1;
        if node.key > key {
          node := node.left;
          c, s := InLeft(c, s.n, s.h, s.r), s.l;
        } else if node.key < key {
          node := node.right;
          c, s := InRight(c, s.l, s.n, s.h), s.r;
        } else {
          break;
        }
      }
      DescendPlug(Top, shape, key);
      DescendFinds(shape, key);
      AtIs(c, s);
    }

    // ---------- insertion ----------

    /** The descent of the unique insertions: the empty slot for `key`, or the node that has it.
        The source's pointer to a child slot is the pair of the parent and the side. */
    method FindSlot(key: int) returns (parent: Node?, onLeft: bool, dup: Node?, ghost c: Path, ghost s: Tree)
      requires Valid()
      ensures (c, s) == Descend(Top, shape, key) && At(c, s) && dup == Ptr(s)
      ensures parent == Parent(c) && (parent != null ==> onLeft == c.InLeft?)
      ensures Nodes(s) + PathNodes(c) == Nodes(shape)
    {
      c, s := Top, shape;
      parent, onLeft, dup := null, false, root;
      while dup != null
        invariant At(c, s) && dup == Ptr(s) && Descend(c, s, key) == Descend(Top, shape, key)
        invariant parent == Parent(c) && (parent != null ==> onLeft == c.InLeft?)
        invariant Nodes(s) + PathNodes(c) == Nodes(shape)
        decreases s
      {
        Down(c, s);
        if dup.key > key {
          parent, onLeft, dup := dup, true, dup.left;
          c, s := InLeft(c, s.n, s.h, s.r), s.l;
        } else if dup.key < key {
          parent, onLeft, dup := dup, false, dup.right;
          c, s := InRight(c, s.l, s.n, s.h), s.r;
        } else {
          return;
        }
      }
    }

    /** The descent of PushEq. */
    method FindSlotEq(key: int) returns (parent: Node?, onLeft: bool, ghost c: Path)
      requires Valid()
      ensures c == DescendEq(Top, shape, key) && At(c, Leaf)
      ensures parent == Parent(c) && (parent != null ==> onLeft == c.InLeft?)
      ensures PathNodes(c) == Nodes(shape)
    {
      ghost var s := shape;
      c := Top;
      parent, onLeft := null, false;
      var slot := root;
      while slot != null
        invariant At(c, s) && slot == Ptr(s) && DescendEq(c, s, key) == DescendEq(Top, shape, key)
        invariant parent == Parent(c) && (parent != null ==> onLeft == c.InLeft?)
        invariant Nodes(s) + PathNodes(c) == Nodes(shape)
        decreases s
      {
        Down(c, s);
        StoredHeights(s, Parent(c));
        parent := slot;
        if slot.key > key {
          onLeft := true;
        } else if slot.key < key {
          onLeft := false;
        } else {
          onLeft := LeftHeight(slot) < RightHeight(slot);
        }
        if onLeft {
          slot := slot.left;
          c, s := InLeft(c, s.n, s.h, s.r), s.l;
        } else {
          slot := slot.right;
          c, s := InRight(c, s.l, s.n, s.h), s.r;
        }
      }
    }

    /** _LinkSlot */
    method LinkSlot(node: Node, parent: Node, onLeft: bool, ghost c: Path)
      requires At(c, Leaf) && parent == Parent(c) && onLeft == c.InLeft?
      requires node !in PathNodes(c) && node.left == null && node.right == null
      modifies node`parent, parent`left, parent`right
      ensures At(c, Single(node, node.height))
    {
      if onLeft {
        parent.left := node;
      } else {
        parent.right := node;
      }
      node.parent := parent;
      assert PathLinked(c.up, parent);
      assert Linked(if c.InLeft? then c.r else c.l, parent);
      PlugPtr(c, Leaf, Single(node, node.height));
    }

    /** A node that is in no tree. */
    ghost predicate Loose(node: Node)
      reads this, node
    {
      node !in Nodes(shape) && node.parent == null && node.left == null && node.right == null
    }

    /** PushWithDuplicate (with a null `duplicate`): unique insertion of an existing node with
        whatever height it carries. */
    method Push(node: Node) returns (ok: bool)
      requires Valid() && Loose(node)
      modifies this, node, Nodes(shape)
      ensures Valid() && shape == AvlShape.Push(old(shape), node, old(node.height))
      ensures ok <==> !old(HasKey(shape, node.key))
      ensures ok ==> Inserts(old(InOrder(shape)), node, InOrder(shape))
      ensures !ok ==> shape == old(shape) && unchanged(node)
      ensures Balanced(old(shape)) && old(node.height) == 1 ==> Balanced(shape)
    {
      PushSpec(shape, node, node.height);
      if Balanced(shape) && node.height == 1 {
        PushBalanced(shape, node);
      }
      DescendFinds(shape, node.key);
      if root == null {
        root := node;
        ok, shape := true, Single(node, node.height);
        return;
      }
      if root.left == null && root.right == null {
        ok := PushBelowRoot(node);
        return;
      }
      ok := PushDeep(node);
    }

    /** The general case: descend, link, fix up. */
    method PushDeep(node: Node) returns (ok: bool)
      requires Valid() && Loose(node) && shape.Br? && (shape.l.Br? || shape.r.Br?)
      modifies this, node, Nodes(shape)
      ensures Is(shape) && shape == AvlShape.Push(old(shape), node, old(node.height))
      ensures ok <==> Descend(Top, old(shape), node.key).1.Leaf?
      ensures !ok ==> unchanged(node)
    {
      var parent, onLeft, dup;
      ghost var c, s;
      parent, onLeft, dup, c, s := FindSlot(node.key);
      if dup != null {
        DescendPlug(Top, shape, node.key);
        AtIs(c, s);
        return false;
      }
      ghost var h := node.height;
      LinkSlot(node, parent, onLeft, c);
      InsertFixup(parent, c, Single(node, h));
      shape := InsertFixUp(c, Single(node, h));
      ok := true;
    }

    /** The shortcut for a one-node tree: link, but leave the root's height alone. */
    method PushBelowRoot(node: Node) returns (ok: bool)
      requires Valid() && Loose(node) && shape.Br? && shape.l.Leaf? && shape.r.Leaf?
      modifies this`shape, node, Nodes(shape)
      ensures Is(shape) && shape == AvlShape.Push(old(shape), node, old(node.height))
      ensures ok <==> old(shape).n.key != node.key
      ensures !ok ==> unchanged(node)
    {
      ghost var t := shape;
      var parent := root;
      if node.key > parent.key {
        LinkSlot(node, parent, false, InRight(Top, t.l, t.n, t.h));
        shape := t.(r := Single(node, node.height));
      } else if node.key < parent.key {
        LinkSlot(node, parent, true, InLeft(Top, t.n, t.h, t.r));
        shape := t.(l := Single(node, node.height));
      } else {
        return false;
      }
      ok := true;
    }

    /** PushEq: insert even if the key is present, on the side of an equal key that is lower. */
    method PushEq(node: Node)
      requires Valid() && Loose(node)
      modifies this, node, Nodes(shape)
      ensures Valid() && shape == AvlShape.PushEq(old(shape), node, old(node.height))
      ensures Inserts(old(InOrder(shape)), node, InOrder(shape)) && Sides(old(shape), node, InOrder(shape))
      ensures Balanced(old(shape)) && old(node.height) == 1 ==> Balanced(shape)
    {
      PushEqSpec(shape, node, node.height);
      PushEqSides(shape, node, node.height);
      if Balanced(shape) && node.height == 1 {
        PushBalanced(shape, node);
      }
      if root == null {
        root := node;
        shape := Single(node, node.height);
      } else {
        PushEqDeep(node);
      }
    }

    method PushEqDeep(node: Node)
      requires Valid() && Loose(node) && shape.Br?
      modifies this, node, Nodes(shape)
      ensures Is(shape) && shape == AvlShape.PushEq(old(shape), node, old(node.height))
    {
      var parent, onLeft;
      ghost var c;
      ghost var h := node.height;
      parent, onLeft, c := FindSlotEq(node.key);
      LinkSlot(node, parent, onLeft, c);
      InsertFixup(parent, c, Single(node, h));
      shape := InsertFixUp(c, Single(node, h));
    }

    /** _InsertWithDuplicate: the same descent; a node is only created for an absent key, otherwise the one
        that has the key is reported. */
    method Insert(key: int) returns (ok: bool, node: Node)
      requires Valid()
      modifies this, Nodes(shape)
      ensures Valid() && node.key == key && (ok <==> !old(HasKey(shape, key)))
      ensures ok ==> fresh(node) && shape == AvlShape.Push(old(shape), node, 1)
      ensures !ok ==> node in Nodes(shape) && shape == old(shape)
      ensures ok ==> Inserts(old(InOrder(shape)), node, InOrder(shape))
      ensures Balanced(old(shape)) ==> Balanced(shape)
    {
      NodesAllocated(shape);
      DescendFinds(shape, key);
      if root == null {
        node := new Node(key);
        ok := Push(node);
      } else if root.left == null && root.right == null {
        if root.key == key {
          return false, root;
        }
        node := new Node(key);
        ok := Push(node);
      } else {
        ok, node := InsertDeep(key);
        if ok {
          PushSpec(old(shape), node, 1);
          if old(Balanced(shape)) {
            PushBalanced(old(shape), node);
          }
        }
      }
    }

    method InsertDeep(key: int) returns (ok: bool, node: Node)
      requires Valid() && shape.Br? && (shape.l.Br? || shape.r.Br?)
      modifies this, Nodes(shape)
      ensures Is(shape) && node.key == key && (ok <==> Descend(Top, old(shape), key).1.Leaf?)
      ensures ok ==> fresh(node) && shape == AvlShape.Push(old(shape), node, 1)
      ensures !ok ==> node in Nodes(shape) && shape == old(shape)
    {
      NodesAllocated(shape);
      var parent, onLeft, dup;
      ghost var c, s;
      parent, onLeft, dup, c, s := FindSlot(key);
      if dup != null {
        DescendPlug(Top, shape, key);
        AtIs(c, s);
        return false, dup;
      }
      node := new Node(key);
      LinkSlot(node, parent, onLeft, c);
      InsertFixup(parent, c, Single(node, 1));
      shape := InsertFixUp(c, Single(node, 1));
      ok := true;
    }

    /** Extract(key): unlink one node with the key.  Its stored height stays whatever it was. */
    method Extract(key: int) returns (node: Node?)
      requires Valid()
      modifies this, Nodes(shape)
      ensures Valid() && shape == Remove(old(shape), key)
      ensures node != null <==> old(HasKey(shape, key))
      ensures node != null ==> node in old(Nodes(shape)) && node.key == key && Loose(node)
      ensures node != null ==> Inserts(InOrder(shape), node, old(InOrder(shape)))
      ensures node != null ==> var s := Descend(Top, old(shape), key).1; s.Br? && s.n == node && node.height == s.h
      ensures Balanced(old(shape)) ==> Balanced(shape)
    {
      ghost var c, s, steps;
      RemoveSpec(shape, key);
      if Balanced(shape) {
        RemoveBalanced(shape, key);
      }
      NodesAllocated(shape);
      node, c, s, steps := FindNode(key);
      if node == null {
        return;
      }
      EraseOrder(c, s);
      AtIs(c, s);
      Unlink(node, c, s);
      shape := EraseAt(c, s);
    }

    /** _Erase, then reset the links of the node that was taken out. */
    method Unlink(node: Node, ghost c: Path, ghost t: Tree)
      requires At(c, t) && t.Br? && node == t.n
      modifies this`root, Nodes(t), PathNodes(c)
      ensures Is(EraseAt(c, t)) && node !in Nodes(EraseAt(c, t))
      ensures node.parent == null && node.left == null && node.right == null && node.height == old(node.height)
    {
      AtIs(c, t);
      EraseAtNodes(c, t);
      Erase(node, c, t);
      node.parent, node.left, node.right := null, null, null;
    }

    lemma EraseOrder(c: Path, t: Tree)
      requires t.Br?
      ensures Inserts(InOrder(EraseAt(c, t)), t.n, InOrder(Plug(c, t)))
    {
      EraseAtSpec(c, t);
      PlugInOrder(c, t);
      InsertsAt(Before(c) + InOrder(t.l), t.n, InOrder(t.r) + After(c));
    }

    /** Erase(key) */
    method EraseKey(key: int) returns (ok: bool)
      requires Valid()
      modifies this, Nodes(shape)
      ensures Valid() && shape == Remove(old(shape), key) && (ok <==> old(HasKey(shape, key)))
      ensures Balanced(old(shape)) ==> Balanced(shape)
    {
      var node := Extract(key);
      ok := node != null;
    }
  }
}
