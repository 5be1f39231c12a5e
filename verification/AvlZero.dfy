/** What linking a node of height 0 does to the true heights, in any tree that migration, insertion and
    removal can build: exactly when siblings stay within one level. */
module AvlZero {
  import opened AvlShape
  import opened AvlBalance
  import opened AvlLag

  // ---------- the way of a key ----------

  /** The child a search for `k` goes to. */
  function Way(t: Tree, k: int): Tree
    requires t.Br?
  {
    if t.n.key > k then t.l else t.r
  }

  function Beside(t: Tree, k: int): Tree
    requires t.Br?
  {
    if t.n.key > k then t.r else t.l
  }

  /** The search goes to the same side at both nodes. */
  predicate SameSide(t: Tree, u: Tree, k: int)
    requires t.Br? && u.Br?
  {
    t.n.key > k <==> u.n.key > k
  }

  /** The stored height of the subtree grows when a node of height 0 is linked for `k`: a leaf that stores
      0, and above it nodes with children of equal stored height. */
  predicate Grows(t: Tree, k: int) {
    t.Br? &&
    ((t.l.Leaf? && t.r.Leaf? && t.h == 0) || (Grows(Way(t, k), k) && H(Way(t, k)) == H(Beside(t, k))))
  }

  /** The fixup rotates at the root of `t`. */
  predicate TurnsAt(t: Tree, k: int)
    requires t.Br?
  {
    Grows(Way(t, k), k) && H(Way(t, k)) == H(Beside(t, k)) + 1
  }

  predicate Turns(t: Tree, k: int) {
    t.Br? && (Turns(Way(t, k), k) || TurnsAt(t, k))
  }

  /** All along the way of `k` siblings have the same true height. */
  predicate Even(t: Tree, k: int) {
    t.Leaf? || (Tall(Way(t, k)) == Tall(Beside(t, k)) && Even(Way(t, k), k))
  }

  /** The rotation at `t` leaves siblings within one level: the way is even from the grandchild `z` on, or
      it is uneven only there and at the child `y`, and a double rotation gives the taller subtree of `z`
      to the turning node. */
  predicate MendsAt(t: Tree, k: int)
    requires t.Br?
  {
    var y := Way(t, k);
    y.Br? && Way(y, k).Br? &&
    var z := Way(y, k);
    Even(Way(z, k), k) &&
    (Tall(Way(z, k)) == Tall(Beside(z, k)) ||
     (!SameSide(t, y, k) && SameSide(y, z, k) && Tall(z) != Tall(Beside(y, k))))
  }

  predicate Mends(t: Tree, k: int) {
    t.Br? && if TurnsAt(t, k) then MendsAt(t, k) else Mends(Way(t, k), k)
  }

  // ---------- growing ----------

  /** The subtree with `n` linked at the end of the way and the heights updated along it. */
  function Raised(t: Tree, k: int, n: Node): Tree {
    if t.Leaf? then Single(n, 0)
    else if t.n.key > k then Join(Raised(t.l, k, n), t.n, t.r)
    else Join(t.l, t.n, Raised(t.r, k, n))
  }

  /** A growing subtree is one level taller than its height says, and becomes taller by one; siblings stay
      within one level exactly if they are even. */
  lemma {:induction false} RaisedTall(t: Tree, k: int, n: Node)
    requires Lag(t) && Skew(t, 1) && (t.Leaf? || Grows(t, k))
    ensures Tall(Raised(t, k, n)) == Tall(t) + 1 && (Skew(Raised(t, k, n), 1) <==> Even(t, k))
    ensures t.Br? ==> Tall(t) == H(t) + 1 && H(Raised(t, k, n)) == H(t) + 1
  {
    if t.Br? && t.h > 0 {
      RaisedTall(Way(t, k), k, n);
      LagTall(Beside(t, k));
    }
  }

  lemma {:induction false} GrowsTurnless(t: Tree, k: int)
    requires Grows(t, k)
    ensures !Turns(t, k)
  {
    if Grows(Way(t, k), k) {
      GrowsTurnless(Way(t, k), k);
    }
  }

  // ---------- rotating ----------

  /** The tree at a turning node before the fixup reaches it. */
  function Linked(t: Tree, k: int, n: Node): (u: Tree)
    requires t.Br?
    ensures u.Br?
  {
    if t.n.key > k then t.(l := Raised(t.l, k, n)) else t.(r := Raised(t.r, k, n))
  }

  /** The pieces at a turning node: its child and grandchild on the way both grow. */
  predicate Pieces(t: Tree, k: int, n: Node) {
    t.Br? && Way(t, k).Br? && Way(Way(t, k), k).Br? &&
    var y, s := Way(t, k), Beside(t, k);
    var z, v := Way(y, k), Beside(y, k);
    var w, w2 := Way(z, k), Beside(z, k);
    && H(Raised(y, k, n)) == H(s) + 2 && H(Raised(z, k, n)) == H(s) + 1 && H(v) == H(s)
    && Tall(y) == H(s) + 2 && Tall(z) == Tall(s) == H(s) + 1 && Tall(w) == H(s)
    && Tall(Raised(w, k, n)) == H(s) + 1 && H(s) <= Tall(v) <= H(s) + 1 && H(s) - 1 <= Tall(w2) <= H(s)
    && Skew(s, 1) && Skew(v, 1) && Skew(w2, 1)
    && Tall(Raised(z, k, n)) == Tall(z) + 1
    && (Skew(Raised(w, k, n), 1) <==> Even(w, k)) && (Skew(Raised(z, k, n), 1) <==> Even(z, k))
  }

  lemma {:induction false} PiecesAre(t: Tree, k: int, n: Node)
    requires t.Br? && t.h > 0 && Lag(t) && Skew(t, 1) && TurnsAt(t, k)
    ensures Pieces(t, k, n) && H(t) == H(Beside(t, k)) + 2
  {
    var y := Way(t, k);
    var z := Way(y, k);
    RaisedTall(y, k, n);
    LagTall(Beside(t, k));
    RaisedTall(z, k, n);
    LagTall(Beside(y, k));
    RaisedTall(Way(z, k), k, n);
    LagTall(Beside(z, k));
  }

  lemma {:induction false} SkewJoin(l: Tree, n: Node, r: Tree)
    ensures Tall(Join(l, n, r)) == Max(Tall(l), Tall(r)) + 1
    ensures Skew(Join(l, n, r), 1) <==> Skew(l, 1) && Skew(r, 1) && Near(Tall(l), Tall(r))
  {
  }

  lemma {:induction false} SkewJoins(a: Tree, x: Node, b: Tree, y: Node, c: Tree, z: Node, d: Tree)
    ensures var t, p, q := Join(Join(a, x, b), y, Join(c, z, d)), Max(Tall(a), Tall(b)), Max(Tall(c), Tall(d));
      Tall(t) == Max(p, q) + 2 && H(t) == Max(Max(H(a), H(b)), Max(H(c), H(d))) + 2 &&
      (Skew(t, 1) <==> (Skew(a, 1) && Skew(b, 1) && Skew(c, 1) && Skew(d, 1) &&
                        Near(Tall(a), Tall(b)) && Near(Tall(c), Tall(d)) && Near(p, q)))
  {
    SkewJoin(a, x, b);
    SkewJoin(c, z, d);
    SkewJoin(Join(a, x, b), y, Join(c, z, d));
  }

  /** A rotation leaves both heights of the node as they were, so the fixup ends there. */
  predicate Turned(t: Tree, k: int, r: Tree)
    requires t.Br?
  {
    H(r) == H(t) && Tall(r) == Tall(t) && (Skew(r, 1) <==> MendsAt(t, k))
  }

  lemma {:induction false} SingleTurn(t: Tree, k: int, n: Node)
    requires Pieces(t, k, n) && H(t) == H(Beside(t, k)) + 2 && SameSide(t, Way(t, k), k)
    ensures var y, m, v, s := Way(t, k), Raised(Way(Way(t, k), k), k, n), Beside(Way(t, k), k), Beside(t, k);
      Turned(t, k, Join(m, y.n, Join(v, t.n, s))) && Turned(t, k, Join(Join(s, t.n, v), y.n, m))
  {
    var y, m, v, s := Way(t, k), Raised(Way(Way(t, k), k), k, n), Beside(Way(t, k), k), Beside(t, k);
    SkewJoin(v, t.n, s);
    SkewJoin(s, t.n, v);
    SkewJoin(m, y.n, Join(v, t.n, s));
    SkewJoin(Join(s, t.n, v), y.n, m);
  }

  /** The subtree of the grandchild that a double rotation gives to the turning node. */
  function GivenUp(t: Tree, k: int, n: Node): Tree
    requires t.Br? && Way(t, k).Br? && Way(Way(t, k), k).Br?
  {
    var z := Way(Way(t, k), k);
    if SameSide(Way(t, k), z, k) then Raised(Way(z, k), k, n) else Beside(z, k)
  }

  /** The one that it gives to the child. */
  function GivenDown(t: Tree, k: int, n: Node): Tree
    requires t.Br? && Way(t, k).Br? && Way(Way(t, k), k).Br?
  {
    var z := Way(Way(t, k), k);
    if SameSide(Way(t, k), z, k) then Beside(z, k) else Raised(Way(z, k), k, n)
  }

  lemma {:induction false} DoubleTurn(t: Tree, k: int, n: Node)
    requires Pieces(t, k, n) && H(t) == H(Beside(t, k)) + 2 && !SameSide(t, Way(t, k), k)
    ensures var y, v, s, a, b := Way(t, k), Beside(Way(t, k), k), Beside(t, k), GivenUp(t, k, n), GivenDown(t, k, n);
      Turned(t, k, Join(Join(v, y.n, b), Way(y, k).n, Join(a, t.n, s))) &&
      Turned(t, k, Join(Join(s, t.n, a), Way(y, k).n, Join(b, y.n, v)))
  {
    var y, v, s, a, b := Way(t, k), Beside(Way(t, k), k), Beside(t, k), GivenUp(t, k, n), GivenDown(t, k, n);
    SkewJoins(v, y.n, b, Way(y, k).n, a, t.n, s);
    SkewJoins(s, t.n, a, Way(y, k).n, b, y.n, v);
  }

  lemma {:induction false} TurnLeft(t: Tree, k: int, n: Node)
    requires Pieces(t, k, n) && t.n.key > k && H(t) == H(t.r) + 2
    ensures var y, m := t.l, Raised(Way(t.l, k), k, n);
      Rebalance(Update(Linked(t, k, n))) ==
        if y.n.key > k then Join(m, y.n, Join(y.r, t.n, t.r))
        else Join(Join(y.l, y.n, m.l), m.n, Join(m.r, t.n, t.r))
  {
    FixesAre(Update(Linked(t, k, n)));
  }

  lemma {:induction false} TurnRight(t: Tree, k: int, n: Node)
    requires Pieces(t, k, n) && t.n.key <= k && H(t) == H(t.l) + 2
    ensures var y, m := t.r, Raised(Way(t.r, k), k, n);
      Rebalance(Update(Linked(t, k, n))) ==
        if y.n.key <= k then Join(Join(t.l, t.n, y.l), y.n, m)
        else Join(Join(t.l, t.n, m.l), m.n, Join(m.r, y.n, y.r))
  {
    FixesAre(Update(Linked(t, k, n)));
  }

  lemma {:induction false} TurnStep(t: Tree, k: int, n: Node)
    requires t.Br? && t.h > 0 && Lag(t) && Skew(t, 1) && TurnsAt(t, k)
    ensures Turned(t, k, Rebalance(Update(Linked(t, k, n))))
  {
    PiecesAre(t, k, n);
    if t.n.key > k {
      TurnLeft(t, k, n);
    } else {
      TurnRight(t, k, n);
    }
    if SameSide(t, Way(t, k), k) {
      SingleTurn(t, k, n);
    } else {
      DoubleTurn(t, k, n);
    }
  }

  // ---------- the whole way up ----------

  /** The hole is where a search for `k` goes. */
  predicate Leads(c: Path, k: int) {
    c.Top? || ((if c.InLeft? then c.n.key > k else c.n.key < k) && Leads(c.up, k))
  }

  lemma {:induction false} DescendLeads(c: Path, t: Tree, k: int)
    requires Leads(c, k)
    ensures Leads(Descend(c, t, k).0, k)
    decreases t
  {
    if t.Br? && t.n.key > k {
      DescendLeads(InLeft(c, t.n, t.h, t.r), t.l, k);
    } else if t.Br? && t.n.key < k {
      DescendLeads(InRight(c, t.l, t.n, t.h), t.r, k);
    }
  }

  /** What is known of a subtree that does not grow is known of the tree. */
  lemma {:induction false} TurnsAbove(c: Path, t: Tree, k: int)
    requires Leads(c, k) && t.Br? && !Grows(t, k)
    ensures Turns(Plug(c, t), k) <==> Turns(t, k)
    ensures Mends(Plug(c, t), k) <==> Mends(t, k)
  {
    if !c.Top? {
      var u := Attach(c, t);
      assert Way(u, k) == t;
      TurnsAbove(c.up, u, k);
    }
  }

  lemma {:induction false} SkewSameAt(c: Path, t: Tree, h: nat)
    requires t.Br?
    ensures Skew(Plug(c, t.(h := h)), 1) <==> Skew(Plug(c, t), 1)
  {
    SkewPlug(c, t);
    SkewPlug(c, t.(h := h));
    SkewSame(t, h);
  }

  /** A subtree whose heights are as before ends the fixup. */
  lemma {:induction false} FixEnds(c: Path, t: Tree)
    requires t.Br? && H(t) >= 2 && LagPath(c, H(t))
    ensures InsertFixUp(c, t) == Plug(c, t)
  {
  }

  /** The fixup meets a node at which it rotates. */
  lemma {:induction false} ClimbTurn(c: Path, t: Tree, k: int, n: Node)
    requires Lag(t) && Grows(t, k) && LagPath(c, H(t)) && Leads(c, k) && Skew(Plug(c, t), 1)
    requires !c.Top? && TurnsAt(Attach(c, t), k)
    ensures Turns(Plug(c, t), k) && !Skew(Plug(c, Raised(t, k, n)), 1)
    ensures Skew(InsertFixUp(c, Raised(t, k, n)), 1) <==> Mends(Plug(c, t), k)
  {
    var u, v := Attach(c, t), Attach(c, Raised(t, k, n));
    var r := Rebalance(Update(v));
    assert Way(u, k) == t && v == Linked(u, k, n);
    SkewPlug(c.up, u);
    RaisedTall(t, k, n);
    LagTall(Beside(u, k));
    assert Lag(u) && LagPath(c.up, u.h);
    TurnStep(u, k, n);
    FixEnds(c.up, r);
    assert InsertFixUp(c, Raised(t, k, n)) == Plug(c.up, r);
    SkewPlug(c.up, r);
    TurnsAbove(c.up, u, k);
    SkewPlug(c.up, v);
  }

  /** The fixup goes on above a node that neither turns nor ends it. */
  lemma {:induction false} ClimbOn(c: Path, t: Tree, k: int, n: Node)
    requires Lag(t) && Grows(t, k) && LagPath(c, H(t)) && Leads(c, k) && Skew(Plug(c, t), 1)
    requires !c.Top? && !TurnsAt(Attach(c, t), k)
    requires var v := Attach(c, Raised(t, k, n)); v.h != Max(H(v.l), H(v.r)) + 1
    ensures var u, v := Attach(c, t), Attach(c, Raised(t, k, n));
      Rebalance(Update(v)) == v.(h := H(Raised(u, k, n))) == Raised(u, k, n) && Grows(u, k) &&
      (c.up.Top? || (Lag(u) && LagPath(c.up, H(u))))
  {
    assert Way(Attach(c, t), k) == t;
    SkewPlug(c, t);
    RaisedTall(t, k, n);
  }

  /** The fixup ends without a rotation. */
  lemma {:induction false} ClimbEnds(c: Path, t: Tree, k: int, n: Node)
    requires Lag(t) && Grows(t, k) && LagPath(c, H(t)) && Leads(c, k) && Skew(Plug(c, t), 1)
    requires !c.Top? && !TurnsAt(Attach(c, t), k)
    requires var v := Attach(c, Raised(t, k, n)); v.h == Max(H(v.l), H(v.r)) + 1
    ensures InsertFixUp(c, Raised(t, k, n)) == Plug(c, Raised(t, k, n)) && !Turns(Plug(c, t), k)
  {
    var u := Attach(c, t);
    assert Way(u, k) == t;
    SkewPlug(c, t);
    RaisedTall(t, k, n);
    GrowsTurnless(t, k);
    TurnsAbove(c.up, u, k);
  }

  /** The fixup above a subtree that has grown. */
  lemma {:induction false} Climb(c: Path, t: Tree, k: int, n: Node)
    requires Lag(t) && Grows(t, k) && LagPath(c, H(t)) && Leads(c, k) && Skew(Plug(c, t), 1)
    ensures var r := InsertFixUp(c, Raised(t, k, n));
      if Turns(Plug(c, t), k) then (Skew(r, 1) <==> Mends(Plug(c, t), k)) && !Skew(Plug(c, Raised(t, k, n)), 1)
      else Skew(r, 1) <==> Skew(Plug(c, Raised(t, k, n)), 1)
  {
    GrowsTurnless(t, k);
    if !c.Top? {
      var u, v := Attach(c, t), Attach(c, Raised(t, k, n));
      assert Way(u, k) == t && v == Linked(u, k, n);
      if TurnsAt(u, k) {
        ClimbTurn(c, t, k, n);
      } else if v.h == Max(H(v.l), H(v.r)) + 1 {
        ClimbEnds(c, t, k, n);
      } else {
        ClimbOn(c, t, k, n);
        SkewSameAt(c.up, v, H(Raised(u, k, n)));
        GrowsTurnless(u, k);
        if !c.up.Top? {
          Climb(c.up, u, k, n);
        }
      }
    }
  }

  /** The parent of a null slot. */
  lemma {:induction false} SlotParent(c: Path, k: int)
    requires !c.Top? && Leads(c, k) && Lagging(Plug(c, Leaf))
    ensures var p := Attach(c, Leaf);
      Way(p, k).Leaf? && !Turns(p, k) && H(Beside(p, k)) <= 1 &&
      (Grows(p, k) <==> p == Single(p.n, 0)) &&
      ((Lag(p) && LagPath(c.up, H(p))) || (c.up.Top? && LagRoot(p)))
  {
    var p := Attach(c, Leaf);
    if c.up.Top? {
      assert Plug(c, Leaf) == p;
    } else {
      LagPlug(c.up, p);
    }
    Sibling(p);
    assert Way(p, k).Leaf? && !Grows(Way(p, k), k) && !Turns(Way(p, k), k);
  }

  /** Linking below any null slot. */
  lemma {:induction false} LinkSkew(c: Path, k: int, n: Node)
    requires !c.Top? && Leads(c, k) && Lagging(Plug(c, Leaf)) && Skew(Plug(c, Leaf), 1)
    ensures var t, r := Plug(c, Leaf), InsertFixUp(c, Single(n, 0));
      if Turns(t, k) then (Skew(r, 1) <==> Mends(t, k)) && !Skew(Plug(c, Single(n, 0)), 1)
      else Skew(r, 1) <==> Skew(Plug(c, Single(n, 0)), 1)
  {
    var p, v := Attach(c, Leaf), Attach(c, Single(n, 0));
    SlotParent(c, k);
    if Grows(p, k) {
      assert Rebalance(Update(v)) == Update(v) == Raised(p, k, n);
      SkewSameAt(c.up, v, 1);
      Climb(c.up, p, k, n);
    } else {
      TurnsAbove(c.up, p, k);
      if v.h != Max(H(v.l), H(v.r)) + 1 {
        assert c.up.Top? && Rebalance(Update(v)) == Update(v);
        SkewSame(v, Update(v).h);
      }
    }
  }

  /** Exactly when a migrated node with a new key keeps siblings within one level, in whatever tree they
      are so: its slot absorbs it, or the fixup rotates where that mends the way.  A slot that absorbs
      needs no rotation. */
  lemma ZeroSkew(t: Tree, n: Node)
    requires Lagging(t) && Skew(t, 1) && Descend(Top, t, n.key).1.Leaf?
    ensures Skew(Push(t, n, 0), 1) <==> Absorbs(Descend(Top, t, n.key).0, 0) || Mends(t, n.key)
    ensures Turns(t, n.key) ==> !Absorbs(Descend(Top, t, n.key).0, 0)
  {
    var c := Descend(Top, t, n.key).0;
    DescendPlug(Top, t, n.key);
    DescendLeads(Top, t, n.key);
    UnfixedLeaf(c, n, 0);
    if Mends(t, n.key) {
      MendsTurns(t, n.key);
    }
    if t.Br? {
      LinkSkew(c, n.key, n);
      if t.l.Leaf? && t.r.Leaf? {
        assert Push(t, n, 0) == Plug(c, Single(n, 0));
      }
    }
  }

  lemma {:induction false} MendsTurns(t: Tree, k: int)
    requires Mends(t, k)
    ensures Turns(t, k)
  {
    if !TurnsAt(t, k) {
      MendsTurns(Way(t, k), k);
    }
  }

  /** The slot of `e` does not absorb it, and yet the rotation mends the way. */
  lemma Mended(a: Node, b: Node, c: Node, d: Node, e: Node)
    requires a.key < b.key < c.key < d.key < e.key
    ensures var t := Br(Single(a, 0), b, 2, Br(Leaf, c, 1, Single(d, 0)));
      Push(Push(Push(Push(Leaf, b, 0), a, 0), c, 0), d, 0) == t &&
      !Absorbs(Descend(Top, t, e.key).0, 0) && Skew(Push(t, e, 0), 1)
  {
    var t := Br(Single(a, 0), b, 2, Br(Leaf, c, 1, Single(d, 0)));
    MendedFirst(a, b, c);
    MendedFourth(a, b, c, d);
    assert Even(Leaf, e.key);
    assert TurnsAt(t, e.key) by {
      assert Grows(Single(d, 0), e.key) && Grows(t.r, e.key);
    }
    var p := InRight(Top, t.l, b, 2);
    var q := InRight(p, Leaf, c, 1);
    var s := InRight(q, Leaf, d, 0);
    assert Descend(Top, t, e.key) == Descend(p, t.r, e.key) == Descend(q, Single(d, 0), e.key);
    assert Descend(q, Single(d, 0), e.key) == Descend(s, Leaf, e.key) == (s, Leaf);
    LagSingle(a, 0);
    LagSingle(d, 0);
    LagJoin(Leaf, c, Single(d, 0));
    assert t.r == Join(Leaf, c, Single(d, 0)) && t == Join(t.l, b, t.r);
    LagJoin(t.l, b, t.r);
    SkewJoin(Leaf, c, Single(d, 0));
    SkewJoin(t.l, b, t.r);
    assert Tall(Single(a, 0)) == 1 && Tall(Single(d, 0)) == 1 && Skew(t, 1);
    ZeroSkew(t, e);
  }

  lemma MendedFirst(a: Node, b: Node, c: Node)
    requires a.key < b.key < c.key
    ensures Push(Push(Push(Leaf, b, 0), a, 0), c, 0) == Br(Single(a, 0), b, 1, Single(c, 0))
  {
    var t := Br(Single(a, 0), b, 0, Leaf);
    var p := InRight(Top, Single(a, 0), b, 0);
    assert Push(Push(Leaf, b, 0), a, 0) == t;
    assert Descend(Top, t, c.key) == Descend(p, Leaf, c.key) == (p, Leaf);
    assert InsertFixUp(p, Single(c, 0)) == InsertFix(Top, Attach(p, Single(c, 0)));
  }

  lemma MendedFourth(a: Node, b: Node, c: Node, d: Node)
    requires a.key < b.key < c.key < d.key
    ensures Push(Br(Single(a, 0), b, 1, Single(c, 0)), d, 0) == Br(Single(a, 0), b, 2, Br(Leaf, c, 1, Single(d, 0)))
  {
    var t := Br(Single(a, 0), b, 1, Single(c, 0));
    var p := InRight(Top, Single(a, 0), b, 1);
    var q := InRight(p, Leaf, c, 0);
    var u := Br(Leaf, c, 1, Single(d, 0));
    assert Descend(Top, t, d.key) == Descend(p, t.r, d.key) == Descend(q, Leaf, d.key) == (q, Leaf);
    assert InsertFixUp(q, Single(d, 0)) == InsertFix(p, Attach(q, Single(d, 0))) == InsertFixUp(p, u);
    assert InsertFixUp(p, u) == InsertFix(Top, Attach(p, u));
  }
}
