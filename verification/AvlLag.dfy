/** Trees whose nodes were linked with height 0 (by migration) or 1 (by insertion), in any mix.  Stored
    heights may lag behind the true ones: by one level below the root, by up to three at a root with one
    child.  The trees stay logarithmic all the same. */
module AvlLag {
  import opened AvlShape
  import opened AvlBalance

  /** As in an AVL tree, but a leaf may store 0. */
  predicate Lag(t: Tree) {
    match t
    case Leaf => true
    case Br(l, _, h, r) =>
      (l.Leaf? && r.Leaf? && h == 0) ||
      (Lag(l) && Lag(r) && Near(H(l), H(r)) && h == Max(H(l), H(r)) + 1)
  }

  /** The root over one low subtree may say less than that subtree requires: the one-node shortcut links
      without a fixup, and later fixups below may stop before they reach it. */
  predicate LagRoot(t: Tree) {
    t.Br? && t.h <= 1 &&
    ((t.l.Leaf? && t.r.Br? && Lag(t.r) && H(t.r) <= 1) || (t.r.Leaf? && t.l.Br? && Lag(t.l) && H(t.l) <= 1))
  }

  predicate Lagging(t: Tree) {
    Lag(t) || LagRoot(t)
  }

  /** The same for the nodes around a hole that holds a tree of stored height `k`. */
  predicate LagPath(c: Path, k: nat) {
    match c
    case Top => true
    case InLeft(up, _, h, r) =>
      (Lag(r) && Near(k, H(r)) && h == Max(k, H(r)) + 1 && LagPath(up, h)) || LagTop(up, h, k, r)
    case InRight(up, l, _, h) =>
      (Lag(l) && Near(k, H(l)) && h == Max(k, H(l)) + 1 && LagPath(up, h)) || LagTop(up, h, k, l)
  }

  predicate LagTop(up: Path, h: nat, k: nat, sibling: Tree) {
    up.Top? && sibling.Leaf? && h <= 1 && k <= 1
  }

  lemma {:induction false} LagPlug(c: Path, t: Tree)
    requires t.Br? && !c.Top?
    ensures Lagging(Plug(c, t)) <==> Lag(t) && LagPath(c, H(t))
  {
    var u := Attach(c, t);
    if c.up.Top? {
      assert Plug(c, t) == u;
    } else {
      LagPlug(c.up, u);
    }
  }

  // ---------- the fixups ----------

  lemma {:induction false} LagParts(t: Tree)
    requires Lag(t) && H(t) >= 1
    ensures Lag(t.l) && Lag(t.r) && Near(H(t.l), H(t.r)) && t.h == Max(H(t.l), H(t.r)) + 1
  {
  }

  function Join(l: Tree, n: Node, r: Tree): Tree {
    Br(l, n, Max(H(l), H(r)) + 1, r)
  }

  lemma {:induction false} LagJoin(l: Tree, n: Node, r: Tree)
    requires Lag(l) && Lag(r) && Near(H(l), H(r))
    ensures Lag(Join(l, n, r))
  {
  }

  /** Four subtrees of about the same height under three nodes. */
  lemma {:induction false} JoinUp(a: Tree, x: Node, b: Tree, y: Node, c: Tree, z: Node, d: Tree)
    requires Lag(a) && Lag(b) && Lag(c) && Lag(d) && H(a) == H(d)
    requires H(a) - 1 <= H(b) <= H(a) && H(d) - 1 <= H(c) <= H(d)
    ensures var t := Join(Join(a, x, b), y, Join(c, z, d)); Lag(t) && H(t) == H(a) + 2
  {
    LagJoin(a, x, b);
    LagJoin(c, z, d);
    LagJoin(Join(a, x, b), y, Join(c, z, d));
  }

  /** The rotations of the fixups, with the heights they leave. */
  lemma FixesAre(t: Tree)
    requires t.Br?
    ensures H(t.l) >= 2 && t.l.Br? && H(t.l.l) >= H(t.l.r) ==>
      FixLeftHeavy(t) == Join(t.l.l, t.l.n, Join(t.l.r, t.n, t.r))
    ensures H(t.l) >= 2 && t.l.Br? && H(t.l.l) < H(t.l.r) ==> var m := t.l.r;
      FixLeftHeavy(t) == Join(Join(t.l.l, t.l.n, m.l), m.n, Join(m.r, t.n, t.r))
    ensures H(t.r) >= 2 && t.r.Br? && H(t.r.l) <= H(t.r.r) ==>
      FixRightHeavy(t) == Join(Join(t.l, t.n, t.r.l), t.r.n, t.r.r)
    ensures H(t.r) >= 2 && t.r.Br? && H(t.r.l) > H(t.r.r) ==> var m := t.r.l;
      FixRightHeavy(t) == Join(Join(t.l, t.n, m.l), m.n, Join(m.r, t.r.n, t.r.r))
  {
  }

  lemma {:induction false} FixLeftHeavyLag(t: Tree)
    requires t.Br? && Lag(t.l) && Lag(t.r) && H(t.l) - H(t.r) == 2 && t.h == H(t.l) + 1
    ensures Lag(FixLeftHeavy(t)) && t.h - 1 <= H(FixLeftHeavy(t)) <= t.h
    ensures H(t.l.l) != H(t.l.r) ==> H(FixLeftHeavy(t)) == t.h - 1
  {
    LagParts(t.l);
    FixesAre(t);
    if H(t.l.l) < H(t.l.r) {
      var m := t.l.r;
      LagParts(m);
      JoinUp(t.l.l, t.l.n, m.l, m.n, m.r, t.n, t.r);
    } else {
      LagJoin(t.l.r, t.n, t.r);
      LagJoin(t.l.l, t.l.n, Join(t.l.r, t.n, t.r));
    }
  }

  lemma {:induction false} FixRightHeavyLag(t: Tree)
    requires t.Br? && Lag(t.l) && Lag(t.r) && H(t.r) - H(t.l) == 2 && t.h == H(t.r) + 1
    ensures Lag(FixRightHeavy(t)) && t.h - 1 <= H(FixRightHeavy(t)) <= t.h
    ensures H(t.r.l) != H(t.r.r) ==> H(FixRightHeavy(t)) == t.h - 1
  {
    LagParts(t.r);
    FixesAre(t);
    if H(t.r.l) > H(t.r.r) {
      var m := t.r.l;
      LagParts(m);
      JoinUp(t.l, t.n, m.l, m.n, m.r, t.r.n, t.r.r);
    } else {
      LagJoin(t.l, t.n, t.r.l);
      LagJoin(Join(t.l, t.n, t.r.l), t.r.n, t.r.r);
    }
  }

  /** The subtree has children of different heights. */
  predicate Uneven(t: Tree) {
    t.Br? && H(t.l) != H(t.r)
  }

  lemma {:induction false} RebalanceLag(t: Tree)
    requires t.Br? && Lag(t.l) && Lag(t.r) && -2 <= H(t.l) - H(t.r) <= 2
    requires t.h == Max(H(t.l), H(t.r)) + 1
    ensures Lag(Rebalance(t)) && t.h - 1 <= H(Rebalance(t)) <= t.h
    ensures Near(H(t.l), H(t.r)) ==> Rebalance(t) == t
    ensures H(t.l) - H(t.r) == 2 && Uneven(t.l) ==> H(Rebalance(t)) == t.h - 1
    ensures H(t.l) - H(t.r) == -2 && Uneven(t.r) ==> H(Rebalance(t)) == t.h - 1
  {
    if H(t.l) - H(t.r) == 2 {
      FixLeftHeavyLag(t);
    } else if H(t.l) - H(t.r) == -2 {
      FixRightHeavyLag(t);
    } else {
      LagJoin(t.l, t.n, t.r);
    }
  }

  /** The subtree in the hole grew by at most one, or a leaf that stored 0 got a child of height 1. */
  predicate Grew(was: nat, t: Tree) {
    was <= H(t) <= was + 1 || (was == 0 && H(t) == 2 && Uneven(t))
  }

  /** One level of the insert fixup. */
  lemma {:induction false} GrowStep(c: Path, t: Tree, was: nat)
    requires !c.Top? && t.Br? && Lag(t) && LagPath(c, was) && Grew(was, t)
    ensures var u := Attach(c, t);
      if u.h == Max(H(u.l), H(u.r)) + 1 then Lag(u) && LagPath(c.up, u.h)
      else Lag(Rebalance(Update(u))) && LagPath(c.up, u.h) && (c.up.Top? || Grew(u.h, Rebalance(Update(u))))
  {
    var u := Attach(c, t);
    assert Lag(u.l) && Lag(u.r);
    if u.h == Max(H(u.l), H(u.r)) + 1 {
      LagJoin(u.l, u.n, u.r);
    } else {
      RebalanceLag(Update(u));
    }
  }

  /** The rest of the insert fixup above a level that is already in order, or grown. */
  lemma {:induction false} InsertStep(c: Path, t: Tree)
    requires !c.Top?
    requires var u := Attach(c, t);
      if u.h == Max(H(u.l), H(u.r)) + 1 then Lag(u) && LagPath(c.up, u.h)
      else Lag(Rebalance(Update(u))) && LagPath(c.up, u.h) && (c.up.Top? || Grew(u.h, Rebalance(Update(u))))
    ensures Lagging(InsertFixUp(c, t))
    decreases c, 0
  {
    var u := Attach(c, t);
    if u.h == Max(H(u.l), H(u.r)) + 1 {
      assert InsertFixUp(c, t) == Plug(c.up, u);
      if !c.up.Top? {
        LagPlug(c.up, u);
      }
    } else {
      assert InsertFixUp(c, t) == InsertFixUp(c.up, Rebalance(Update(u)));
      if !c.up.Top? {
        GrowStep(c.up, Rebalance(Update(u)), u.h);
        InsertStep(c.up, Rebalance(Update(u)));
      }
    }
  }

  /** One level of the erase fixup. */
  lemma {:induction false} ShrinkStep(c: Path, t: Tree, was: nat)
    requires !c.Top? && Lag(t) && LagPath(c, was) && was - 1 <= H(t) <= was
    ensures var u := Attach(c, t);
      LagPath(c.up, u.h) &&
      if u.h == Max(H(u.l), H(u.r)) + 1 && Near(H(u.l), H(u.r)) then Lag(u)
      else Lag(Rebalance(Update(u))) && (c.up.Top? || u.h - 1 <= H(Rebalance(Update(u))) <= u.h)
  {
    var u := Attach(c, t);
    assert Lag(u.l) && Lag(u.r);
    if u.h == Max(H(u.l), H(u.r)) + 1 && Near(H(u.l), H(u.r)) {
      LagJoin(u.l, u.n, u.r);
    } else {
      RebalanceLag(Update(u));
    }
  }

  lemma {:induction false} EraseFixUpLag(c: Path, t: Tree, was: nat)
    requires Lag(t) && LagPath(c, was) && was - 1 <= H(t) <= was
    ensures Lagging(EraseFixUp(c, t))
  {
    if !c.Top? {
      var u := Attach(c, t);
      ShrinkStep(c, t, was);
      if u.h == Max(H(u.l), H(u.r)) + 1 && Near(H(u.l), H(u.r)) {
        assert EraseFixUp(c, t) == Plug(c.up, u);
        if !c.up.Top? {
          LagPlug(c.up, u);
        }
      } else {
        assert EraseFixUp(c, t) == EraseFixUp(c.up, Rebalance(Update(u)));
        if !c.up.Top? {
          EraseFixUpLag(c.up, Rebalance(Update(u)), u.h);
        }
      }
    }
  }

  // ---------- the operations ----------

  lemma {:induction false} EraseAtLag(c: Path, t: Tree)
    requires t.Br? && Lagging(Plug(c, t))
    ensures Lagging(EraseAt(c, t))
  {
    if !c.Top? {
      LagPlug(c, t);
    }
    if t.l.Br? && t.r.Br? {
      var (seg, m) := LeftSpine(Top, t.r);
      var base := InRight(c, t.l, m.n, t.h);
      LeftSpinePlug(Top, t.r);
      PlugCompose(seg, base, m);
      if !c.Top? {
        LagPlug(c, t.(n := m.n));
      }
      LagPlug(Compose(seg, base), m);
      EraseFixUpLag(Compose(seg, base), m.r, H(m));
    } else if c.Top? {
      assert EraseAt(c, t) == if t.l.Br? then t.l else t.r;
    } else {
      EraseFixUpLag(c, if t.l.Br? then t.l else t.r, H(t));
    }
  }

  lemma {:induction false} LinkLag(c: Path, n: Node, h: nat)
    requires Lagging(Plug(c, Leaf)) && !c.Top? && h <= 1
    ensures Lagging(InsertFixUp(c, Single(n, h)))
  {
    var p, u := Attach(c, Leaf), Attach(c, Single(n, h));
    if c.up.Top? {
      assert Plug(c, Leaf) == p;
    } else {
      LagPlug(c.up, p);
    }
    LinkStep(c, n, h);
    InsertStep(c, Single(n, h));
  }

  lemma {:induction false} LagSingle(n: Node, h: nat)
    requires h <= 1
    ensures Lag(Single(n, h))
  {
    LagJoin(Leaf, n, Leaf);
  }

  /** Next to a null child there is little. */
  lemma {:induction false} Sibling(p: Tree)
    requires p.Br? && Lagging(p)
    ensures p.l.Leaf? ==> Lag(p.r) && H(p.r) <= 1
    ensures p.r.Leaf? ==> Lag(p.l) && H(p.l) <= 1
    ensures p.l.Leaf? && p.r.Leaf? ==> p.h <= 1
  {
  }

  lemma {:induction false} LinkStep(c: Path, n: Node, h: nat)
    requires !c.Top? && h <= 1
    requires if c.up.Top? then Lagging(Attach(c, Leaf)) else Lag(Attach(c, Leaf)) && LagPath(c.up, H(Attach(c, Leaf)))
    ensures var u := Attach(c, Single(n, h));
      if u.h == Max(H(u.l), H(u.r)) + 1 then Lag(u) && LagPath(c.up, u.h)
      else Lag(Rebalance(Update(u))) && LagPath(c.up, u.h) && (c.up.Top? || Grew(u.h, Rebalance(Update(u))))
  {
    var u := Attach(c, Single(n, h));
    LagSingle(n, h);
    Sibling(Attach(c, Leaf));
    LagJoin(u.l, u.n, u.r);
    assert Rebalance(Update(u)) == Update(u) == Join(u.l, u.n, u.r);
  }

  /** Insertions of height 0 or 1, unique or not, and removals keep the tree lagging. */
  lemma {:induction false} PushLag(t: Tree, n: Node, h: nat)
    requires Lagging(t) && h <= 1
    ensures Lagging(Push(t, n, h)) && Lagging(PushEq(t, n, h))
  {
    LagSingle(n, h);
    if t.Br? {
      Sibling(t);
      DescendPlug(Top, t, n.key);
      var (c, s) := Descend(Top, t, n.key);
      if s.Leaf? {
        LinkLag(c, n, h);
      }
      LinkLag(DescendEq(Top, t, n.key), n, h);
    }
  }

  lemma {:induction false} RemoveLag(t: Tree, k: int)
    requires Lagging(t)
    ensures Lagging(Remove(t, k))
  {
    DescendPlug(Top, t, k);
    var (c, s) := Descend(Top, t, k);
    if s.Br? {
      EraseAtLag(c, s);
    }
  }

  // ---------- true heights ----------

  /** Siblings differ by at most `d` in true height, everywhere. */
  predicate Skew(t: Tree, d: nat) {
    t.Leaf? || (Skew(t.l, d) && Skew(t.r, d) && Tall(t.l) <= Tall(t.r) + d && Tall(t.r) <= Tall(t.l) + d)
  }

  lemma {:induction false} LagTall(t: Tree)
    requires Lag(t)
    ensures H(t) <= Tall(t) <= H(t) + 1 && Skew(t, 2)
  {
    if t.Br? && t.h > 0 {
      LagTall(t.l);
      LagTall(t.r);
    }
  }

  lemma {:induction false} LagRootTall(t: Tree)
    requires LagRoot(t)
    ensures Tall(t) <= 3
  {
    LagTall(t.l);
    LagTall(t.r);
  }

  /** How far heights lag: by one level at most below the root, and at the root too, unless it has one
      child that is taller than the root says. */
  lemma {:induction false} LagBy(t: Tree)
    requires t.Br? && Lagging(t)
    ensures Lag(t.l) && Lag(t.r) && Tall(t.l) <= H(t.l) + 1 && Tall(t.r) <= H(t.r) + 1
    ensures t.h <= Tall(t) <= t.h + 3
    ensures Tall(t) > t.h + 1 <==> t.l.Leaf? != t.r.Leaf? && t.h < Max(Tall(t.l), Tall(t.r))
  {
    LagTall(t.l);
    LagTall(t.r);
    if Lag(t) {
      LagTall(t);
    }
  }

  /** Both extremes occur: two nodes under a root that says 0, and three. */
  lemma RootLags(a: Node, b: Node, c: Node)
    requires a.key < b.key < c.key
    ensures var t := Push(Push(Leaf, a, 0), b, 0); H(t) == 0 && Tall(t) == 2
    ensures var t := Push(Push(Push(Leaf, a, 0), b, 1), c, 0); H(t) == 0 && Tall(t) == 3
  {
    var t := Push(Push(Leaf, a, 0), b, 1);
    var p := InRight(Top, Leaf, a, 0);
    var q := InRight(p, Leaf, b, 1);
    assert t == Br(Leaf, a, 0, Single(b, 1));
    assert Descend(Top, t, c.key) == Descend(p, t.r, c.key) == Descend(q, Leaf, c.key) == (q, Leaf);
    assert InsertFixUp(q, Single(c, 0)) == InsertFix(p, Attach(q, Single(c, 0))) == Plug(p, Attach(q, Single(c, 0)));
    var u := Br(Leaf, b, 1, Single(c, 0));
    assert Plug(p, u) == Plug(Top, Attach(p, u)) == Br(Leaf, a, 0, u);
    assert Tall(Single(c, 0)) == 1 && Tall(u) == 2;
  }

  /** Sibling balance is off by one level at most. */
  lemma {:induction false} LaggingTall(t: Tree)
    requires Lagging(t)
    ensures Skew(t, 2)
  {
    if Lag(t) {
      LagTall(t);
    } else {
      LagTall(t.l);
      LagTall(t.r);
    }
  }

  lemma {:induction false} AvlTall(t: Tree)
    requires Avl(t)
    ensures H(t) == Tall(t) && Skew(t, 1)
  {
    if t.Br? {
      AvlTall(t.l);
      AvlTall(t.r);
    }
  }

  lemma BalancedSkew(t: Tree)
    requires Balanced(t)
    ensures Skew(t, 1)
  {
    if Avl(t) {
      AvlTall(t);
    } else {
      assert Tall(t.l) <= 1 && Tall(t.r) <= 1;
    }
  }

  predicate SkewPath(c: Path, k: nat) {
    match c
    case Top => true
    case InLeft(up, _, _, r) => Skew(r, 1) && Near(k, Tall(r)) && SkewPath(up, Max(k, Tall(r)) + 1)
    case InRight(up, l, _, _) => Skew(l, 1) && Near(k, Tall(l)) && SkewPath(up, Max(k, Tall(l)) + 1)
  }

  lemma {:induction false} SkewAttach(c: Path, t: Tree)
    requires !c.Top?
    ensures var u, s := Attach(c, t), if c.InLeft? then c.r else c.l;
      Tall(u) == Max(Tall(t), Tall(s)) + 1 && (Skew(u, 1) <==> Skew(t, 1) && Skew(s, 1) && Near(Tall(t), Tall(s)))
  {
  }

  lemma {:induction false} SkewPlug(c: Path, t: Tree)
    ensures Skew(Plug(c, t), 1) <==> Skew(t, 1) && SkewPath(c, Tall(t))
  {
    if !c.Top? {
      var u := Attach(c, t);
      SkewPlug(c.up, u);
      SkewAttach(c, t);
    }
  }

  /** The slot at the end of the way `c` takes one more level without a rotation: going up, a node is
      met that is taller on its other side before any that is taller on this side. */
  predicate Absorbs(c: Path, k: nat) {
    if c.Top? then true
    else
      var other := Tall(if c.InLeft? then c.r else c.l);
      k < other || (k == other && Absorbs(c.up, k + 1))
  }

  lemma {:induction false} AbsorbsIff(c: Path, k: nat)
    requires SkewPath(c, k)
    ensures SkewPath(c, k + 1) <==> Absorbs(c, k)
  {
    if !c.Top? && k == Tall(if c.InLeft? then c.r else c.l) {
      AbsorbsIff(c.up, k + 1);
    }
  }

  /** A leaf linked into any tree without a fixup keeps siblings within one level exactly if the slot
      absorbs it. */
  lemma UnfixedLeaf(c: Path, n: Node, h: nat)
    requires Skew(Plug(c, Leaf), 1)
    ensures Skew(Plug(c, Single(n, h)), 1) <==> Absorbs(c, 0)
  {
    SkewPlug(c, Leaf);
    SkewPlug(c, Single(n, h));
    AbsorbsIff(c, 0);
    assert Tall(Single(n, h)) == 1;
  }

  lemma SkewSame(t: Tree, h: nat)
    requires t.Br?
    ensures Skew(t.(h := h), 1) <==> Skew(t, 1)
  {
  }

  /** Into a balanced tree a node of height 0 goes without a rotation. */
  lemma {:induction false} LinkZero(c: Path, n: Node)
    requires Balanced(Plug(c, Leaf)) && !c.Top?
    ensures Skew(InsertFixUp(c, Single(n, 0)), 1) <==> Skew(Plug(c, Single(n, 0)), 1)
  {
    var s := Single(n, 0);
    if Avl(Plug(c, Leaf)) {
      AvlPlug(c, Leaf);
      assert InsertFixUp(c, s) == Plug(c, s);
    } else {
      StalePath(c, Leaf);
      if c.up.Top? {
        assert Plug(c, Leaf) == Attach(c, Leaf);
        assert Plug(c, s) == Plug(c.up, Attach(c, s)) == Attach(c, s);
        assert InsertFixUp(c, s) == Update(Attach(c, s));
        SkewSame(Attach(c, s), Update(Attach(c, s)).h);
      } else {
        var d := c.up;
        assert Depth(d) == 1 + Depth(d.up);
        assert d.up.Top? && Plug(d, Attach(c, Leaf)) == Plug(d.up, Attach(d, Attach(c, Leaf)));
        assert InsertFixUp(c, s) == Plug(c, s);
      }
    }
  }

  /** A new key in a tree of fresh nodes keeps siblings within one level if and only if it comes with
      height 1, or the slot it goes to absorbs it. */
  lemma PushSkew(t: Tree, n: Node, h: nat)
    requires Balanced(t) && h <= 1 && Descend(Top, t, n.key).1.Leaf?
    ensures Skew(Push(t, n, h), 1) <==> h == 1 || Absorbs(Descend(Top, t, n.key).0, 0)
  {
    var c := Descend(Top, t, n.key).0;
    DescendPlug(Top, t, n.key);
    BalancedSkew(t);
    if h == 1 {
      PushBalanced(t, n);
      BalancedSkew(Push(t, n, 1));
    } else {
      UnfixedLeaf(c, n, 0);
      if t.Br? {
        LinkZero(c, n);
        PushLinks(t, n);
      }
    }
  }

  /** The one-node shortcut is the unfixed link too. */
  lemma PushLinks(t: Tree, n: Node)
    requires t.Br? && Balanced(t) && Descend(Top, t, n.key).1.Leaf?
    ensures Push(t, n, 0) == InsertFixUp(Descend(Top, t, n.key).0, Single(n, 0))
  {
    if t.l.Leaf? && t.r.Leaf? {
      var c := if n.key > t.n.key then InRight(Top, t.l, t.n, t.h) else InLeft(Top, t.n, t.h, t.r);
      assert Descend(Top, t, n.key).0 == c;
      assert InsertFixUp(c, Single(n, 0)) == InsertFix(Top, Attach(c, Single(n, 0)));
    }
  }

  /** Two levels of difference do occur: three nodes of height 0 in ascending order are a chain. */
  lemma MigratedChain(a: Node, b: Node, c: Node)
    requires a.key < b.key < c.key
    ensures var t := Push(Push(Push(Leaf, a, 0), b, 0), c, 0); t.Br? && Tall(t.l) == 0 && Tall(t.r) == 2
  {
    var t := Push(Push(Leaf, a, 0), b, 0);
    var pa := InRight(Top, Leaf, a, 0);
    var pb := InRight(pa, Leaf, b, 0);
    assert t == Br(Leaf, a, 0, Single(b, 0));
    assert Descend(pa, t.r, c.key) == Descend(pb, Leaf, c.key);
    assert Descend(Top, t, c.key) == (pb, Leaf);
    var u := Br(Leaf, b, 1, Single(c, 0));
    assert InsertFixUp(pb, Single(c, 0)) == InsertFix(pa, Attach(pb, Single(c, 0))) == InsertFixUp(pa, u);
    assert InsertFixUp(pa, u) == InsertFix(Top, Attach(pa, u)) == Br(Leaf, a, 2, u);
  }
}
