/** Balance of the AVL tree: stored heights are exact and siblings differ by at most one. */
module AvlBalance {
  import opened AvlShape

  predicate Near(a: int, b: int) {
    -1 <= a - b <= 1
  }

  /** Every stored height is the true height, and every node is balanced. */
  predicate Avl(t: Tree) {
    match t
    case Leaf => true
    case Br(l, _, h, r) => Avl(l) && Avl(r) && Near(H(l), H(r)) && h == Max(H(l), H(r)) + 1
  }

  /** The same for the nodes around a hole that holds a tree of height `k`. */
  predicate AvlPath(c: Path, k: nat) {
    match c
    case Top => true
    case InLeft(up, _, h, r) => Avl(r) && Near(k, H(r)) && h == Max(k, H(r)) + 1 && AvlPath(up, h)
    case InRight(up, l, _, h) => Avl(l) && Near(k, H(l)) && h == Max(k, H(l)) + 1 && AvlPath(up, h)
  }

  lemma {:induction false} AvlPlug(c: Path, t: Tree)
    ensures Avl(Plug(c, t)) <==> Avl(t) && AvlPath(c, H(t))
  {
    if !c.Top? {
      AvlPlug(c.up, Attach(c, t));
    }
  }

  lemma {:induction false} FixLeftHeavyAvl(t: Tree)
    requires t.Br? && Avl(t.l) && Avl(t.r) && H(t.l) - H(t.r) == 2 && t.h == H(t.l) + 1
    ensures Avl(FixLeftHeavy(t)) && t.h - 1 <= H(FixLeftHeavy(t)) <= t.h
  {
    if H(t.l.l) < H(t.l.r) {
      assert Avl(t.l.r);
    }
  }

  lemma {:induction false} FixRightHeavyAvl(t: Tree)
    requires t.Br? && Avl(t.l) && Avl(t.r) && H(t.r) - H(t.l) == 2 && t.h == H(t.r) + 1
    ensures Avl(FixRightHeavy(t)) && t.h - 1 <= H(FixRightHeavy(t)) <= t.h
  {
    if H(t.r.l) > H(t.r.r) {
      assert Avl(t.r.l);
    }
  }

  /** One rebalancing of a node whose subtrees are sound and differ by at most two. */
  lemma {:induction false} RebalanceAvl(t: Tree)
    requires t.Br? && Avl(t.l) && Avl(t.r) && -2 <= H(t.l) - H(t.r) <= 2
    requires t.h == Max(H(t.l), H(t.r)) + 1
    ensures Avl(Rebalance(t)) && t.h - 1 <= H(Rebalance(t)) <= t.h
    ensures Near(H(t.l), H(t.r)) ==> Rebalance(t) == t
  {
    if H(t.l) - H(t.r) == 2 {
      FixLeftHeavyAvl(t);
    } else if H(t.l) - H(t.r) == -2 {
      FixRightHeavyAvl(t);
    }
  }

  /** After the subtree in the hole grew by at most one, the insert fixup restores the tree. */
  lemma {:induction false} InsertFixUpAvl(c: Path, t: Tree, was: nat)
    requires Avl(t) && AvlPath(c, was) && was <= H(t) <= was + 1
    ensures Avl(InsertFixUp(c, t))
  {
    if !c.Top? {
      var u := Attach(c, t);
      if u.h == Max(H(u.l), H(u.r)) + 1 {
        AvlPlug(c.up, u);
      } else {
        RebalanceAvl(Update(u));
        InsertFixUpAvl(c.up, Rebalance(Update(u)), u.h);
      }
    }
  }

  /** After the subtree in the hole shrank by at most one, the erase fixup restores the tree. */
  lemma {:induction false} EraseFixUpAvl(c: Path, t: Tree, was: nat)
    requires Avl(t) && AvlPath(c, was) && was - 1 <= H(t) <= was
    ensures Avl(EraseFixUp(c, t))
  {
    if !c.Top? {
      var u := Attach(c, t);
      if u.h == Max(H(u.l), H(u.r)) + 1 && Near(H(u.l), H(u.r)) {
        AvlPlug(c.up, u);
      } else {
        RebalanceAvl(Update(u));
        EraseFixUpAvl(c.up, Rebalance(Update(u)), u.h);
      }
    }
  }

  /** _Erase of any node of an AVL tree leaves an AVL tree. */
  lemma {:induction false} EraseAtAvl(c: Path, t: Tree)
    requires t.Br? && Avl(Plug(c, t))
    ensures Avl(EraseAt(c, t))
  {
    AvlPlug(c, t);
    if t.l.Br? && t.r.Br? {
      var (seg, m) := LeftSpine(Top, t.r);
      var base := InRight(c, t.l, m.n, t.h);
      LeftSpinePlug(Top, t.r);
      PlugCompose(seg, base, m);
      AvlPlug(c, t.(n := m.n));
      AvlPlug(Compose(seg, base), m);
      EraseFixUpAvl(Compose(seg, base), m.r, H(m));
    } else {
      EraseFixUpAvl(c, if t.l.Br? then t.l else t.r, H(t));
    }
  }

  /** The root of a two-node tree built through the one-node shortcut still says height 1. */
  predicate StaleRoot(t: Tree) {
    t.Br? && t.h == 1 &&
    ((t.l.Leaf? && t.r.Br? && t.r == Single(t.r.n, 1)) || (t.r.Leaf? && t.l.Br? && t.l == Single(t.l.n, 1)))
  }

  /** What every tree built from fresh nodes satisfies. */
  predicate Balanced(t: Tree) {
    Avl(t) || StaleRoot(t)
  }

  lemma {:induction false} DescendPlug(c: Path, t: Tree, k: int)
    ensures Plug(Descend(c, t, k).0, Descend(c, t, k).1) == Plug(c, t)
    ensures Plug(DescendEq(c, t, k), Leaf) == Plug(c, t)
    decreases t
  {
    if t.Br? {
      DescendPlug(InLeft(c, t.n, t.h, t.r), t.l, k);
      DescendPlug(InRight(c, t.l, t.n, t.h), t.r, k);
    }
  }

  /** The true height. */
  function Tall(t: Tree): nat {
    if t.Leaf? then 0 else 1 + Max(Tall(t.l), Tall(t.r))
  }

  function Depth(c: Path): nat {
    if c.Top? then 0 else 1 + Depth(c.up)
  }

  lemma {:induction false} PlugTall(c: Path, t: Tree)
    ensures Tall(Plug(c, t)) >= Depth(c) + Tall(t)
  {
    if !c.Top? {
      PlugTall(c.up, Attach(c, t));
    }
  }

  lemma StalePath(c: Path, t: Tree)
    requires StaleRoot(Plug(c, t))
    ensures Depth(c) + Tall(t) <= 2
  {
    PlugTall(c, t);
    var u := Plug(c, t);
    assert Tall(u.l) <= 1 && Tall(u.r) <= 1;
  }

  /** Linking a fresh node below a null slot of a balanced tree of at least two nodes. */
  lemma {:induction false} LinkBalanced(c: Path, n: Node)
    requires Balanced(Plug(c, Leaf)) && !c.Top?
    ensures Avl(InsertFixUp(c, Single(n, 1)))
  {
    if Avl(Plug(c, Leaf)) {
      AvlPlug(c, Leaf);
      InsertFixUpAvl(c, Single(n, 1), 0);
    } else {
      StalePath(c, Leaf);
      if c.up.Top? {
        assert Plug(c, Leaf) == Attach(c, Leaf);
      } else {
        assert Depth(c.up) == 1 + Depth(c.up.up);
        var d := c.up;
        assert d.up.Top? && Plug(d, Attach(c, Leaf)) == Plug(d.up, Attach(d, Attach(c, Leaf)));
        var u := Attach(c, Single(n, 1));
        assert InsertFixUp(c.up, Update(u)) == InsertFix(Top, Attach(c.up, Update(u)));
        RebalanceAvl(Update(Attach(c.up, Update(u))));
      }
    }
  }

  /** Fresh nodes keep the tree balanced, whichever way they are inserted. */
  lemma {:induction false} PushBalanced(t: Tree, n: Node)
    requires Balanced(t)
    ensures Balanced(Push(t, n, 1)) && Balanced(PushEq(t, n, 1))
  {
    if t.Br? {
      DescendPlug(Top, t, n.key);
      var (c, s) := Descend(Top, t, n.key);
      if s.Leaf? {
        LinkBalanced(c, n);
      }
      LinkBalanced(DescendEq(Top, t, n.key), n);
    }
  }

  lemma {:induction false} RemoveBalanced(t: Tree, k: int)
    requires Balanced(t)
    ensures Balanced(Remove(t, k))
  {
    DescendPlug(Top, t, k);
    var (c, s) := Descend(Top, t, k);
    if s.Br? {
      EraseBalanced(c, s);
    }
  }

  lemma {:induction false} EraseBalanced(c: Path, t: Tree)
    requires t.Br? && Balanced(Plug(c, t))
    ensures Avl(EraseAt(c, t))
  {
    if Avl(Plug(c, t)) {
      EraseAtAvl(c, t);
    } else {
      StalePath(c, t);
      if !c.Top? {
        assert Depth(c.up) == 0;
        assert Plug(c, t) == Attach(c, t);
        assert t == Single(t.n, 1);
        assert EraseAt(c, t) == EraseFix(Top, Attach(c, Leaf));
      }
    }
  }
}
