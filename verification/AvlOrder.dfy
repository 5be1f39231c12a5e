/** Keys of the AVL tree: order, search, and what the operations do to the in-order sequence. */
module AvlOrder {
  import opened Basics
  import opened AvlShape
  import opened AvlBalance

  predicate Sorted(s: seq<Node>) {
    forall i, j :: 0 <= i < j < |s| ==> s[i].key <= s[j].key
  }

  predicate AllBelow(s: seq<Node>, k: int) {
    forall x :: x in s ==> x.key < k
  }

  predicate AllAbove(k: int, s: seq<Node>) {
    forall x :: x in s ==> k < x.key
  }

  predicate AtMost(s: seq<Node>, k: int) {
    forall x :: x in s ==> x.key <= k
  }

  predicate AtLeast(k: int, s: seq<Node>) {
    forall x :: x in s ==> k <= x.key
  }

  /** Everything before a member is at most it, everything after at least it. */
  lemma SortedAround(a: seq<Node>, x: Node, b: seq<Node>)
    requires Sorted(a + [x] + b)
    ensures Sorted(a + b) && AtMost(a, x.key) && AtLeast(x.key, b)
  {
    var s, u := a + [x] + b, a + b;
    assert s[|a|] == x;
    forall y | y in a
      ensures y.key <= x.key
    {
      var i :| 0 <= i < |a| && a[i] == y;
      assert s[i] == y;
    }
    forall y | y in b
      ensures x.key <= y.key
    {
      var i :| 0 <= i < |b| && b[i] == y;
      assert s[|a| + 1 + i] == y;
    }
    forall i, j | 0 <= i < j < |u|
      ensures u[i].key <= u[j].key
    {
      assert u[i] == s[if i < |a| then i else i + 1];
      assert u[j] == s[if j < |a| then j else j + 1];
    }
  }

  lemma SortedInsert(a: seq<Node>, x: Node, b: seq<Node>)
    requires Sorted(a + b) && AtMost(a, x.key) && AtLeast(x.key, b)
    ensures Sorted(a + [x] + b)
  {
    var s, u := a + [x] + b, a + b;
    forall i, j | 0 <= i < j < |s|
      ensures s[i].key <= s[j].key
    {
      if i != |a| && j != |a| {
        assert s[i] == u[if i < |a| then i else i - 1];
        assert s[j] == u[if j < |a| then j else j - 1];
      } else if i == |a| {
        assert s[j] == b[j - |a| - 1];
      } else {
        assert s[i] == a[i];
      }
    }
  }

  /** The whole in-order sequence, cut at the root of a subtree. */
  function Whole(c: Path, t: Tree): seq<Node> {
    Before(c) + InOrder(t) + After(c)
  }

  lemma WholeDown(c: Path, t: Tree)
    requires t.Br?
    ensures Whole(InLeft(c, t.n, t.h, t.r), t.l) == Whole(c, t) == Whole(InRight(c, t.l, t.n, t.h), t.r)
  {
    Regroup(Before(c), InOrder(t.l), [t.n], InOrder(t.r), After(c));
  }

  /** Around the root of a subtree of a sorted tree. */
  lemma SortedAt(c: Path, t: Tree)
    requires t.Br? && Sorted(Whole(c, t))
    ensures AtMost(Before(c) + InOrder(t.l), t.n.key) && AtLeast(t.n.key, InOrder(t.r) + After(c))
  {
    Regroup(Before(c), InOrder(t.l), [t.n], InOrder(t.r), After(c));
    SortedAround(Before(c) + InOrder(t.l), t.n, InOrder(t.r) + After(c));
  }

  /** The descent of the searches keeps everything to the left of the hole below the key,
      and everything to the right of it above. */
  lemma {:induction false} DescendSplits(c: Path, t: Tree, k: int)
    requires Sorted(Whole(c, t)) && AllBelow(Before(c), k) && AllAbove(k, After(c))
    ensures var (d, s) := Descend(c, t, k); AllBelow(Before(d), k) && AllAbove(k, After(d))
    decreases t
  {
    if t.Br? {
      WholeDown(c, t);
      SortedAt(c, t);
      if t.n.key > k {
        DescendSplits(InLeft(c, t.n, t.h, t.r), t.l, k);
      } else if t.n.key < k {
        DescendSplits(InRight(c, t.l, t.n, t.h), t.r, k);
      }
    }
  }

  lemma {:induction false} DescendEqSplits(c: Path, t: Tree, k: int)
    requires Sorted(Whole(c, t)) && AtMost(Before(c), k) && AtLeast(k, After(c))
    ensures var d := DescendEq(c, t, k); AtMost(Before(d), k) && AtLeast(k, After(d))
    decreases t
  {
    if t.Br? {
      WholeDown(c, t);
      SortedAt(c, t);
      if t.n.key > k || (t.n.key == k && H(t.l) < H(t.r)) {
        DescendEqSplits(InLeft(c, t.n, t.h, t.r), t.l, k);
      } else {
        DescendEqSplits(InRight(c, t.l, t.n, t.h), t.r, k);
      }
    }
  }

  // ---------- what the operations do to the in-order sequence ----------

  predicate HasKey(t: Tree, k: int) {
    exists x :: x in InOrder(t) && x.key == k
  }

  /** `u` is `s` with `n` inserted at one place. */
  predicate Inserts(s: seq<Node>, n: Node, u: seq<Node>) {
    exists i :: 0 <= i <= |s| && u == s[..i] + [n] + s[i..]
  }

  lemma InsertsAt(a: seq<Node>, n: Node, b: seq<Node>)
    ensures Inserts(a + b, n, a + [n] + b)
  {
    var s := a + b;
    assert s[..|a|] == a && s[|a|..] == b;
  }

  /** The searching descent ends at a null slot exactly when the key is absent. */
  lemma DescendFinds(t: Tree, k: int)
    requires Sorted(InOrder(t))
    ensures var (c, s) := Descend(Top, t, k);
      (s.Br? <==> HasKey(t, k)) && InOrder(t) == Whole(c, s) && AllBelow(Before(c), k) && AllAbove(k, After(c))
  {
    var (c, s) := Descend(Top, t, k);
    assert Whole(Top, t) == InOrder(t);
    DescendSplits(Top, t, k);
    DescendPlug(Top, t, k);
    PlugInOrder(c, s);
    if s.Br? {
      assert s.n in InOrder(s) && InOrder(s) <= InOrder(s) + After(c);
      assert s.n in InOrder(t);
    }
  }

  /** Linking below a null slot inserts the node there, whatever heights are stored. */
  lemma InsertFixUpSpec(c: Path, n: Node, h: nat)
    ensures InOrder(InsertFixUp(c, Single(n, h))) == Before(c) + [n] + After(c)
  {
    PlugInOrder(c, Single(n, h));
    if !c.Top? {
      InsertFixKeeps(c.up, Attach(c, Single(n, h)));
    }
  }

  /** The one-node shortcut links where the descent would. */
  lemma PushAt(t: Tree, n: Node, h: nat)
    requires Descend(Top, t, n.key).1.Leaf?
    ensures var c := Descend(Top, t, n.key).0; InOrder(Push(t, n, h)) == Before(c) + [n] + After(c)
  {
    var c := Descend(Top, t, n.key).0;
    if t.Leaf? {
      assert c == Top;
    } else if t.l.Leaf? && t.r.Leaf? {
      if n.key > t.n.key {
        assert c == InRight(Top, t.l, t.n, t.h);
      } else {
        assert c == InLeft(Top, t.n, t.h, t.r);
      }
    } else {
      InsertFixUpSpec(c, n, h);
    }
  }

  /** A unique insertion adds the node at one place exactly when its key is absent, and keeps the
      order; stored heights do not matter. */
  lemma PushSpec(t: Tree, n: Node, h: nat)
    requires Sorted(InOrder(t))
    ensures HasKey(t, n.key) ==> Push(t, n, h) == t
    ensures !HasKey(t, n.key) ==> Inserts(InOrder(t), n, InOrder(Push(t, n, h)))
    ensures Sorted(InOrder(Push(t, n, h)))
  {
    var (c, s) := Descend(Top, t, n.key);
    DescendFinds(t, n.key);
    if s.Leaf? {
      PushAt(t, n, h);
      InsertsAt(Before(c), n, After(c));
      assert Whole(c, s) == Before(c) + After(c);
      SortedInsert(Before(c), n, After(c));
    }
  }

  lemma PushEqSpec(t: Tree, n: Node, h: nat)
    requires Sorted(InOrder(t))
    ensures Inserts(InOrder(t), n, InOrder(PushEq(t, n, h))) && Sorted(InOrder(PushEq(t, n, h)))
  {
    var c := DescendEq(Top, t, n.key);
    assert Whole(Top, t) == InOrder(t);
    DescendEqSplits(Top, t, n.key);
    DescendPlug(Top, t, n.key);
    PlugInOrder(c, Leaf);
    assert Before(c) + [] + After(c) == Before(c) + After(c);
    InsertFixUpSpec(c, n, h);
    InsertsAt(Before(c), n, After(c));
    SortedInsert(Before(c), n, After(c));
  }

  // ---------- the side an equal key takes ----------

  lemma {:induction false} DescendEqWithin(c: Path, t: Tree, k: int)
    ensures |Before(c)| <= |Before(DescendEq(c, t, k))| <= |Before(c)| + |InOrder(t)|
    decreases t
  {
    if t.Br? {
      DescendEqWithin(InLeft(c, t.n, t.h, t.r), t.l, k);
      DescendEqWithin(InRight(c, t.l, t.n, t.h), t.r, k);
    }
  }

  /** A descent that ends within the stretch of a subtree came through its root. */
  lemma {:induction false} DescendEqThrough(c: Path, s: Tree, k: int)
    requires var i := |Before(DescendEq(Top, Plug(c, s), k))|; |Before(c)| <= i <= |Before(c)| + |InOrder(s)|
    ensures DescendEq(Top, Plug(c, s), k) == DescendEq(c, s, k)
  {
    if !c.Top? {
      var u := Attach(c, s);
      DescendEqThrough(c.up, u, k);
      DescendEqWithin(InLeft(c.up, u.n, u.h, u.r), u.l, k);
      DescendEqWithin(InRight(c.up, u.l, u.n, u.h), u.r, k);
    }
  }

  /** The place a non-unique insertion takes. */
  lemma {:induction false} PushEqAt(t: Tree, n: Node, h: nat)
    ensures var i := |Before(DescendEq(Top, t, n.key))|;
      i <= |InOrder(t)| && InOrder(PushEq(t, n, h)) == InOrder(t)[..i] + [n] + InOrder(t)[i..]
  {
    var d := DescendEq(Top, t, n.key);
    DescendPlug(Top, t, n.key);
    PlugInOrder(d, Leaf);
    InsertFixUpSpec(d, n, h);
    assert InOrder(t) == Before(d) + After(d);
    assert InOrder(t)[..|Before(d)|] == Before(d) && InOrder(t)[|Before(d)|..] == After(d);
  }

  /** Of a node with an equal key whose subtree that place lies in, it is before it if and only if the left
      subtree stores the smaller height. */
  lemma {:induction false} PushEqSide(t: Tree, n: Node, c: Path, s: Tree)
    requires Plug(c, s) == t && s.Br? && s.n.key == n.key
    ensures var i := |Before(DescendEq(Top, t, n.key))|;
      |Before(c)| <= i <= |Before(c)| + |InOrder(s)| ==> (i <= |Before(c)| + |InOrder(s.l)| <==> H(s.l) < H(s.r))
  {
    var i := |Before(DescendEq(Top, t, n.key))|;
    if |Before(c)| <= i <= |Before(c)| + |InOrder(s)| {
      DescendEqThrough(c, s, n.key);
      DescendEqWithin(InLeft(c, s.n, s.h, s.r), s.l, n.key);
      DescendEqWithin(InRight(c, s.l, s.n, s.h), s.r, n.key);
    }
  }

  /** At the root: the new node stands before it if and only if the left subtree stores the smaller height. */
  lemma {:induction false} PushEqRoot(t: Tree, n: Node, h: nat)
    requires t.Br? && t.n.key == n.key
    ensures var u := InOrder(PushEq(t, n, h));
      exists i :: 0 <= i < |u| && u[i] == n && u[..i] + u[i + 1..] == InOrder(t) &&
        (i <= |InOrder(t.l)| <==> H(t.l) < H(t.r))
  {
    var i := |Before(DescendEq(Top, t, n.key))|;
    PushEqAt(t, n, h);
    PushEqSide(t, n, Top, t);
    var u := InOrder(PushEq(t, n, h));
    assert u[..i] == InOrder(t)[..i] && u[i + 1..] == InOrder(t)[i..];
    assert u[..i] + u[i + 1..] == InOrder(t);
  }

  lemma {:induction false} EraseFixUpKeeps(c: Path, t: Tree)
    ensures InOrder(EraseFixUp(c, t)) == Whole(c, t)
  {
    PlugInOrder(c, t);
    if !c.Top? {
      EraseFixKeeps(c.up, Attach(c, t));
    }
  }

  lemma {:induction false} ComposeOrder(seg: Path, base: Path)
    ensures Before(Compose(seg, base)) == Before(base) + Before(seg)
    ensures After(Compose(seg, base)) == After(seg) + After(base)
  {
    match seg
    case Top =>
    case InLeft(up, n, h, r) =>
      ComposeOrder(up, base);
      assert [n] + InOrder(r) + (After(up) + After(base)) == ([n] + InOrder(r) + After(up)) + After(base);
    case InRight(up, l, n, h) =>
      ComposeOrder(up, base);
      assert (Before(base) + Before(up)) + InOrder(l) + [n] == Before(base) + (Before(up) + InOrder(l) + [n]);
  }

  /** _Erase removes exactly the given node from the in-order sequence, in every case of the
      deletion and for arbitrary stored heights. */
  lemma {:induction false} EraseAtSpec(c: Path, t: Tree)
    requires t.Br?
    ensures InOrder(EraseAt(c, t)) == (Before(c) + InOrder(t.l)) + (InOrder(t.r) + After(c))
    ensures Whole(c, t) == (Before(c) + InOrder(t.l)) + [t.n] + (InOrder(t.r) + After(c))
  {
    Regroup(Before(c), InOrder(t.l), [t.n], InOrder(t.r), After(c));
    if t.l.Br? && t.r.Br? {
      EraseInnerSpec(c, t);
    } else {
      EraseFixUpKeeps(c, if t.l.Br? then t.l else t.r);
    }
  }

  lemma {:induction false} EraseInnerSpec(c: Path, t: Tree)
    requires t.Br? && t.l.Br? && t.r.Br?
    ensures InOrder(EraseAt(c, t)) == (Before(c) + InOrder(t.l)) + (InOrder(t.r) + After(c))
  {
    var (seg, m) := LeftSpine(Top, t.r);
    var base := InRight(c, t.l, m.n, t.h);
    LeftSpinePlug(Top, t.r);
    LeftSpineBefore(Top, t.r);
    PlugInOrder(seg, m);
    ComposeOrder(seg, base);
    EraseFixUpKeeps(Compose(seg, base), m.r);
    assert EraseAt(c, t) == EraseFixUp(Compose(seg, base), m.r);
    assert InOrder(m) == [m.n] + InOrder(m.r);
    Shift(Before(c) + InOrder(t.l), m.n, InOrder(m.r), After(seg), After(c));
  }

  lemma Shift<T>(a: seq<T>, x: T, b: seq<T>, d: seq<T>, e: seq<T>)
    ensures ((a + [x]) + []) + b + (d + e) == a + (([] + ([x] + b) + d) + e)
  {
  }

  lemma {:induction false} LeftSpineBefore(c: Path, t: Tree)
    requires t.Br?
    ensures Before(LeftSpine(c, t).0) == Before(c)
    decreases t
  {
    if t.l.Br? {
      LeftSpineBefore(InLeft(c, t.n, t.h, t.r), t.l);
    }
  }

  // ---------- the node that takes the place of an erased one ----------

  /** The height stored above a hole that holds a tree of height `k`. */
  function TopHeight(c: Path, k: nat): nat {
    if c.Top? then k else TopHeight(c.up, c.h)
  }

  lemma {:induction false} TopHeightIs(c: Path, t: Tree)
    ensures H(Plug(c, t)) == TopHeight(c, H(t))
  {
    if !c.Top? {
      TopHeightIs(c.up, Attach(c, t));
    }
  }

  /** The erase fixup lets the tree lose at most one level. */
  lemma {:induction false} EraseFixUpHeight(c: Path, t: Tree, was: nat)
    requires Avl(t) && AvlPath(c, was) && was - 1 <= H(t) <= was
    ensures TopHeight(c, was) - 1 <= H(EraseFixUp(c, t)) <= TopHeight(c, was)
  {
    if !c.Top? {
      var u := Attach(c, t);
      if u.h == Max(H(u.l), H(u.r)) + 1 && Near(H(u.l), H(u.r)) {
        TopHeightIs(c.up, u);
      } else {
        RebalanceAvl(Update(u));
        EraseFixUpHeight(c.up, Rebalance(Update(u)), u.h);
      }
    }
  }

  /** What the fixup does to a subtree does not depend on what is above it. */
  lemma {:induction false} EraseFixUpCompose(seg: Path, base: Path, t: Tree)
    ensures var all, r := EraseFixUp(Compose(seg, base), t), EraseFixUp(seg, t);
      all == EraseFixUp(base, r) || all == Plug(base, r)
  {
    if !seg.Top? {
      var u := Attach(seg, t);
      assert Attach(Compose(seg, base), t) == u && Compose(seg, base).up == Compose(seg.up, base);
      if u.h == Max(H(u.l), H(u.r)) + 1 && Near(H(u.l), H(u.r)) {
        PlugCompose(seg.up, base, u);
      } else {
        EraseFixUpCompose(seg.up, base, Rebalance(Update(u)));
      }
    }
  }

  /** A root with two children is replaced by the next node in order, which keeps the left subtree, if the
      right one is not the lower one; otherwise a rotation may follow. */
  lemma {:induction false} EraseRoot(t: Tree)
    requires Avl(t) && t.Br? && t.l.Br? && t.r.Br? && H(t.l) <= H(t.r)
    ensures var u := EraseAt(Top, t); InOrder(t.r) != [] && u.Br? && u.n == InOrder(t.r)[0] && u.l == t.l
  {
    var (seg, m) := LeftSpine(Top, t.r);
    var base := InRight(Top, t.l, m.n, t.h);
    LeftSpinePlug(Top, t.r);
    LeftSpineBefore(Top, t.r);
    PlugInOrder(seg, m);
    assert InOrder(m) == [m.n] + InOrder(m.r);
    AvlPlug(seg, m);
    EraseFixUpHeight(seg, m.r, H(m));
    TopHeightIs(seg, m);
    EraseFixUpCompose(seg, base, m.r);
    assert EraseAt(Top, t) == EraseFixUp(Compose(seg, base), m.r);
    var r := EraseFixUp(seg, m.r);
    assert Attach(base, r) == Br(t.l, m.n, t.h, r) && Plug(base, r) == Br(t.l, m.n, t.h, r);
    assert EraseFixUp(base, r) == EraseFix(Top, Br(t.l, m.n, t.h, r));
  }

  /** Removing by key deletes one node with that key if there is one, and nothing otherwise. */
  lemma RemoveSpec(t: Tree, k: int)
    requires Sorted(InOrder(t))
    ensures !HasKey(t, k) ==> Remove(t, k) == t
    ensures HasKey(t, k) ==> exists x :: x in InOrder(t) && x.key == k && Inserts(InOrder(Remove(t, k)), x, InOrder(t))
    ensures Sorted(InOrder(Remove(t, k)))
  {
    var (c, s) := Descend(Top, t, k);
    DescendFinds(t, k);
    if s.Br? {
      EraseAtSpec(c, s);
      var a, b := Before(c) + InOrder(s.l), InOrder(s.r) + After(c);
      InsertsAt(a, s.n, b);
      SortedAround(a, s.n, b);
      assert InOrder(t)[|a|] == s.n;
    }
  }

  // ---------- no node twice ----------

  lemma NoDupParts(a: seq<Node>, x: Node, b: seq<Node>)
    requires NoDup(a) && NoDup(b) && x !in a && x !in b && Members(a) !! Members(b)
    ensures NoDup(a + [x] + b)
  {
    var s := a + [x] + b;
    forall i, j | 0 <= i < j < |s|
      ensures s[i] != s[j]
    {
      if i < |a| && j > |a| {
        assert s[i] in Members(a) && s[j] == b[j - |a| - 1] && s[j] in Members(b);
      }
    }
  }

  lemma {:induction false} ProperNoDup(t: Tree)
    requires Proper(t)
    ensures NoDup(InOrder(t))
  {
    if t.Br? {
      ProperNoDup(t.l);
      ProperNoDup(t.r);
      NodesInOrder(t.l);
      NodesInOrder(t.r);
      NoDupParts(InOrder(t.l), t.n, InOrder(t.r));
    }
  }

  lemma {:induction false} ComposeNodes(seg: Path, base: Path)
    ensures PathNodes(Compose(seg, base)) == PathNodes(seg) + PathNodes(base)
  {
    if !seg.Top? {
      ComposeNodes(seg.up, base);
    }
  }

  lemma {:induction false} EraseFixUpNodes(c: Path, t: Tree)
    ensures Nodes(EraseFixUp(c, t)) == Nodes(t) + PathNodes(c)
  {
    PlugProper(c, t);
    if !c.Top? {
      EraseFixKeeps(c.up, Attach(c, t));
    }
  }

  /** What is left after erasing a node are exactly the other nodes. */
  lemma {:induction false} EraseAtNodes(c: Path, t: Tree)
    requires t.Br? && Proper(Plug(c, t))
    ensures Nodes(EraseAt(c, t)) == Nodes(Plug(c, t)) - {t.n}
  {
    PlugProper(c, t);
    if t.l.Br? && t.r.Br? {
      var (seg, m) := LeftSpine(Top, t.r);
      var base := InRight(c, t.l, m.n, t.h);
      LeftSpinePlug(Top, t.r);
      PlugProper(seg, m);
      ComposeNodes(seg, base);
      EraseFixUpNodes(Compose(seg, base), m.r);
      assert EraseAt(c, t) == EraseFixUp(Compose(seg, base), m.r);
      assert Nodes(m) == {m.n} + Nodes(m.r);
    } else {
      EraseFixUpNodes(c, if t.l.Br? then t.l else t.r);
    }
  }
}
