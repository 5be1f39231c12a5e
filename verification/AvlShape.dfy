/** Pointer-level nodes of the AVL tree and the value-level shapes they represent.

    A `Tree` is the shape hanging below one pointer, stored heights included.  A `Path` is the
    way back up from a hole in a larger tree, so the parent-climbing loops of the source become
    recursion over a `Path`.  Everything here is independent of the heap: only the `key` of a
    node is ever looked at, and that field never changes. */
module AvlShape {

  class Node {
    const key: int
    var parent: Node?
    var left: Node?
    var right: Node?
    var height: nat

    /** CreateNode: an unlinked node of height 1. */
    constructor (key: int)
      ensures this.key == key && height == 1
      ensures parent == null && left == null && right == null
    {
      this.key := key;
      parent, left, right, height := null, null, null, 1;
    }
  }

  datatype Tree = Leaf | Br(l: Tree, n: Node, h: nat, r: Tree)

  /** `InLeft(up, n, h, r)`: the hole is the left child of `n`, whose stored height is `h`,
      whose right child is `r`, and which itself sits at `up`. */
  datatype Path =
    | Top
    | InLeft(up: Path, n: Node, h: nat, r: Tree)
    | InRight(up: Path, l: Tree, n: Node, h: nat)

  // ---------- shapes and paths ----------

  function Max(a: int, b: int): int {
    if a < b then b else a
  }

  /** LEFT_HEIGHT / RIGHT_HEIGHT: the stored height, 0 for a null pointer. */
  function H(t: Tree): nat {
    if t.Leaf? then 0 else t.h
  }

  function Ptr(t: Tree): Node? {
    if t.Leaf? then null else t.n
  }

  function Parent(c: Path): Node? {
    if c.Top? then null else c.n
  }

  /** Fill the hole and step up one level. */
  function Attach(c: Path, t: Tree): Tree
    requires !c.Top?
  {
    match c
    case InLeft(_, n, h, r) => Br(t, n, h, r)
    case InRight(_, l, n, h) => Br(l, n, h, t)
  }

  function Plug(c: Path, t: Tree): Tree {
    if c.Top? then t else Plug(c.up, Attach(c, t))
  }

  /** `seg` continued above its top by `base`. */
  function Compose(seg: Path, base: Path): Path {
    match seg
    case Top => base
    case InLeft(up, n, h, r) => InLeft(Compose(up, base), n, h, r)
    case InRight(up, l, n, h) => InRight(Compose(up, base), l, n, h)
  }

  function Nodes(t: Tree): set<Node> {
    match t
    case Leaf => {}
    case Br(l, n, _, r) => Nodes(l) + {n} + Nodes(r)
  }

  function PathNodes(c: Path): set<Node> {
    match c
    case Top => {}
    case InLeft(up, n, _, r) => PathNodes(up) + {n} + Nodes(r)
    case InRight(up, l, n, _) => PathNodes(up) + {n} + Nodes(l)
  }

  /** No node occurs twice. */
  predicate Proper(t: Tree) {
    match t
    case Leaf => true
    case Br(l, n, _, r) =>
      Proper(l) && Proper(r) && n !in Nodes(l) && n !in Nodes(r) && Nodes(l) !! Nodes(r)
  }

  predicate ProperPath(c: Path) {
    match c
    case Top => true
    case InLeft(up, n, _, r) =>
      ProperPath(up) && Proper(r) && n !in Nodes(r) && n !in PathNodes(up) && Nodes(r) !! PathNodes(up)
    case InRight(up, l, n, _) =>
      ProperPath(up) && Proper(l) && n !in Nodes(l) && n !in PathNodes(up) && Nodes(l) !! PathNodes(up)
  }

  lemma {:induction false} PlugProper(c: Path, t: Tree)
    ensures Nodes(Plug(c, t)) == Nodes(t) + PathNodes(c)
    ensures Proper(Plug(c, t)) <==> Proper(t) && ProperPath(c) && Nodes(t) !! PathNodes(c)
  {
    if !c.Top? {
      PlugProper(c.up, Attach(c, t));
    }
  }

  lemma {:induction false} PlugCompose(seg: Path, base: Path, t: Tree)
    ensures Plug(Compose(seg, base), t) == Plug(base, Plug(seg, t))
  {
    if !seg.Top? {
      PlugCompose(seg.up, base, Attach(seg, t));
      assert Attach(Compose(seg, base), t) == Attach(seg, t);
    }
  }

  // ---------- in-order sequence ----------

  function InOrder(t: Tree): seq<Node> {
    match t
    case Leaf => []
    case Br(l, n, _, r) => InOrder(l) + [n] + InOrder(r)
  }

  function Before(c: Path): seq<Node> {
    match c
    case Top => []
    case InLeft(up, _, _, _) => Before(up)
    case InRight(up, l, n, _) => Before(up) + InOrder(l) + [n]
  }

  function After(c: Path): seq<Node> {
    match c
    case Top => []
    case InLeft(up, n, _, r) => [n] + InOrder(r) + After(up)
    case InRight(up, _, _, _) => After(up)
  }

  lemma Regroup<T>(a: seq<T>, b: seq<T>, c: seq<T>, d: seq<T>, e: seq<T>)
    ensures a + (b + c + d) + e == a + b + (c + d + e)
    ensures a + (b + c + d) + e == a + b + c + d + e
    ensures a + (b + c + d) + e == (a + b) + c + (d + e)
    ensures (a + b + c) + d + e == a + b + (c + d + e)
  {
  }

  lemma {:induction false} PlugInOrder(c: Path, t: Tree)
    ensures InOrder(Plug(c, t)) == Before(c) + InOrder(t) + After(c)
  {
    match c
    case Top =>
    case InLeft(up, n, h, r) =>
      PlugInOrder(up, Attach(c, t));
      Regroup(Before(up), InOrder(t), [n], InOrder(r), After(up));
    case InRight(up, l, n, h) =>
      PlugInOrder(up, Attach(c, t));
      Regroup(Before(up), InOrder(l), [n], InOrder(t), After(up));
  }

  function Members(s: seq<Node>): set<Node> {
    set x | x in s
  }

  lemma {:induction false} NodesInOrder(t: Tree)
    ensures Nodes(t) == Members(InOrder(t))
  {
    if t.Br? {
      NodesInOrder(t.l);
      NodesInOrder(t.r);
    }
  }

  // ---------- rotations and fixups ----------

  /** _RotateLeft */
  function RotateLeft(t: Tree): (r: Tree)
    requires t.Br? && t.r.Br?
    ensures r.Br? && r.l.Br?
  {
    Br(Br(t.l, t.n, t.h, t.r.l), t.r.n, t.r.h, t.r.r)
  }

  /** _RotateRight */
  function RotateRight(t: Tree): (r: Tree)
    requires t.Br? && t.l.Br?
    ensures r.Br? && r.r.Br?
  {
    Br(t.l.l, t.l.n, t.l.h, Br(t.l.r, t.n, t.h, t.r))
  }

  /** _UpdateHeight */
  function Update(t: Tree): (r: Tree)
    requires t.Br?
    ensures r.Br?
  {
    t.(h := Max(H(t.l), H(t.r)) + 1)
  }

  /** Rotate right, then update the demoted right child and the new root. */
  function RightWithHeights(t: Tree): (r: Tree)
    requires t.Br? && t.l.Br?
    ensures r.Br?
  {
    var s := RotateRight(t);
    Update(s.(r := Update(s.r)))
  }

  function LeftWithHeights(t: Tree): (r: Tree)
    requires t.Br? && t.r.Br?
    ensures r.Br?
  {
    var s := RotateLeft(t);
    Update(s.(l := Update(s.l)))
  }

  /** _FixupLeftHeavy */
  function FixLeftHeavy(t: Tree): (r: Tree)
    requires t.Br? && H(t.l) >= 2
    ensures r.Br?
  {
    RightWithHeights(if H(t.l.l) < H(t.l.r) then t.(l := LeftWithHeights(t.l)) else t)
  }

  /** _FixupRigtHeavy */
  function FixRightHeavy(t: Tree): (r: Tree)
    requires t.Br? && H(t.r) >= 2
    ensures r.Br?
  {
    LeftWithHeights(if H(t.r.l) > H(t.r.r) then t.(r := RightWithHeights(t.r)) else t)
  }

  /** The part of the fixup loops that reacts to the balance factor. */
  function Rebalance(t: Tree): (r: Tree)
    requires t.Br?
    ensures r.Br?
  {
    if H(t.l) - H(t.r) >= 2 then FixLeftHeavy(t)
    else if H(t.l) - H(t.r) <= -2 then FixRightHeavy(t)
    else t
  }

  /** _InsertFixup started at the root of `t`, whose way up is `c`. */
  function InsertFix(c: Path, t: Tree): Tree
    requires t.Br?
    decreases c, 1
  {
    if t.h == Max(H(t.l), H(t.r)) + 1 then Plug(c, t)
    else InsertFixUp(c, Rebalance(Update(t)))
  }

  /** One level up; done above the root. */
  function InsertFixUp(c: Path, t: Tree): Tree
    decreases c, 0
  {
    if c.Top? then t else InsertFix(c.up, Attach(c, t))
  }

  /** _EraseFixup started at the root of `t`, whose way up is `c`. */
  function EraseFix(c: Path, t: Tree): Tree
    requires t.Br?
    decreases c, 1
  {
    if t.h == Max(H(t.l), H(t.r)) + 1 && -1 <= H(t.l) - H(t.r) <= 1 then Plug(c, t)
    else EraseFixUp(c, Rebalance(Update(t)))
  }

  function EraseFixUp(c: Path, t: Tree): Tree
    decreases c, 0
  {
    if c.Top? then t else EraseFix(c.up, Attach(c, t))
  }

  lemma RebalanceKeeps(t: Tree)
    requires t.Br?
    ensures InOrder(Rebalance(t)) == InOrder(t)
    ensures Nodes(Rebalance(t)) == Nodes(t)
    ensures Proper(t) ==> Proper(Rebalance(t))
  {
    if H(t.l) - H(t.r) >= 2 {
      if H(t.l.l) < H(t.l.r) {
        LeftWithHeightsKeeps(t.l);
        RightWithHeightsKeeps(t.(l := LeftWithHeights(t.l)));
      } else {
        RightWithHeightsKeeps(t);
      }
    } else if H(t.l) - H(t.r) <= -2 {
      if H(t.r.l) > H(t.r.r) {
        RightWithHeightsKeeps(t.r);
        LeftWithHeightsKeeps(t.(r := RightWithHeights(t.r)));
      } else {
        LeftWithHeightsKeeps(t);
      }
    }
  }

  lemma {:induction false} LeftWithHeightsKeeps(t: Tree)
    requires t.Br? && t.r.Br?
    ensures InOrder(LeftWithHeights(t)) == InOrder(t)
    ensures Nodes(LeftWithHeights(t)) == Nodes(t)
    ensures Proper(t) ==> Proper(LeftWithHeights(t))
  {
    Reassociate(t.l, t.n, t.r.l, t.r.n, t.r.r, t.h, t.r.h, LeftWithHeights(t).l.h, LeftWithHeights(t).h);
  }

  lemma {:induction false} RightWithHeightsKeeps(t: Tree)
    requires t.Br? && t.l.Br?
    ensures InOrder(RightWithHeights(t)) == InOrder(t)
    ensures Nodes(RightWithHeights(t)) == Nodes(t)
    ensures Proper(t) ==> Proper(RightWithHeights(t))
  {
    Reassociate(t.l.l, t.l.n, t.l.r, t.n, t.r, RightWithHeights(t).h, RightWithHeights(t).r.h, t.l.h, t.h);
  }

  /** Both nestings of three subtrees around two nodes hold the same nodes in the same order. */
  lemma {:induction false} Reassociate(a: Tree, x: Node, b: Tree, y: Node, c: Tree,
                                       h1: nat, h2: nat, h3: nat, h4: nat)
    ensures var t, u := Br(a, x, h1, Br(b, y, h2, c)), Br(Br(a, x, h3, b), y, h4, c);
      InOrder(t) == InOrder(u) && Nodes(t) == Nodes(u) && (Proper(t) <==> Proper(u))
  {
    Regroup(InOrder(a), [x], InOrder(b), [y], InOrder(c));
  }

  /** Whatever heights are stored, the insert fixup neither loses, adds nor reorders a node. */
  lemma {:induction false} InsertFixKeeps(c: Path, t: Tree)
    requires t.Br?
    ensures InOrder(InsertFix(c, t)) == InOrder(Plug(c, t))
    ensures Nodes(InsertFix(c, t)) == Nodes(Plug(c, t))
    ensures Proper(Plug(c, t)) ==> Proper(InsertFix(c, t))
    decreases c, 1
  {
    if t.h != Max(H(t.l), H(t.r)) + 1 {
      var u := Update(t);
      RebalanceKeeps(u);
      PlugKeeps(c, t, Rebalance(u));
      if !c.Top? {
        InsertFixKeeps(c.up, Attach(c, Rebalance(u)));
      }
    }
  }

  /** The same for the erase fixup. */
  lemma {:induction false} EraseFixKeeps(c: Path, t: Tree)
    requires t.Br?
    ensures InOrder(EraseFix(c, t)) == InOrder(Plug(c, t))
    ensures Nodes(EraseFix(c, t)) == Nodes(Plug(c, t))
    ensures Proper(Plug(c, t)) ==> Proper(EraseFix(c, t))
    decreases c, 1
  {
    if !(t.h == Max(H(t.l), H(t.r)) + 1 && -1 <= H(t.l) - H(t.r) <= 1) {
      var u := Update(t);
      RebalanceKeeps(u);
      PlugKeeps(c, t, Rebalance(u));
      if !c.Top? {
        EraseFixKeeps(c.up, Attach(c, Rebalance(u)));
      }
    }
  }

  /** Replacing a subtree by one with the same nodes in the same order. */
  lemma PlugKeeps(c: Path, t: Tree, u: Tree)
    requires InOrder(u) == InOrder(t) && Nodes(u) == Nodes(t) && (Proper(t) ==> Proper(u))
    ensures InOrder(Plug(c, u)) == InOrder(Plug(c, t))
    ensures Nodes(Plug(c, u)) == Nodes(Plug(c, t))
    ensures Proper(Plug(c, t)) ==> Proper(Plug(c, u))
  {
    PlugInOrder(c, t); PlugInOrder(c, u);
    PlugProper(c, t); PlugProper(c, u);
  }

  // ---------- erasing ----------

  /** Descend to the leftmost node; its subtree and the way back up. */
  function LeftSpine(c: Path, t: Tree): (r: (Path, Tree))
    requires t.Br?
    ensures r.1.Br? && r.1.l.Leaf?
    decreases t
  {
    if t.l.Leaf? then (c, t) else LeftSpine(InLeft(c, t.n, t.h, t.r), t.l)
  }

  lemma {:induction false} LeftSpinePlug(c: Path, t: Tree)
    requires t.Br?
    ensures Plug(LeftSpine(c, t).0, LeftSpine(c, t).1) == Plug(c, t)
    decreases t
  {
    if t.l.Br? {
      LeftSpinePlug(InLeft(c, t.n, t.h, t.r), t.l);
    }
  }

  /** _Erase of the root of the subtree `t` at `c`, fixup included. */
  function EraseAt(c: Path, t: Tree): Tree
    requires t.Br?
  {
    if t.l.Br? && t.r.Br? then
      var (seg, m) := LeftSpine(Top, t.r);
      if seg.Top? then EraseFix(c, Br(t.l, m.n, t.h, m.r))
      else EraseFixUp(Compose(seg, InRight(c, t.l, m.n, t.h)), m.r)
    else
      EraseFixUp(c, if t.l.Br? then t.l else t.r)
  }

  // ---------- searching and inserting ----------

  /** The descent of FindNode and of the unique insertions: stop at a null slot or at the key. */
  function Descend(c: Path, t: Tree, k: int): (r: (Path, Tree))
    ensures r.1.Leaf? || r.1.n.key == k
    decreases t
  {
    if t.Leaf? || t.n.key == k then (c, t)
    else if t.n.key > k then Descend(InLeft(c, t.n, t.h, t.r), t.l, k)
    else Descend(InRight(c, t.l, t.n, t.h), t.r, k)
  }

  /** The number of nodes a search compares with. */
  function Visits(t: Tree, k: int): nat {
    if t.Leaf? then 0
    else if t.n.key > k then 1 + Visits(t.l, k)
    else if t.n.key < k then 1 + Visits(t.r, k)
    else 1
  }

  /** The descent of PushEq: an equal key goes to the side with the smaller stored height. */
  function DescendEq(c: Path, t: Tree, k: int): Path
    decreases t
  {
    if t.Leaf? then c
    else if t.n.key > k || (t.n.key == k && H(t.l) < H(t.r)) then DescendEq(InLeft(c, t.n, t.h, t.r), t.l, k)
    else DescendEq(InRight(c, t.l, t.n, t.h), t.r, k)
  }

  function Single(n: Node, h: nat): Tree {
    Br(Leaf, n, h, Leaf)
  }

  /** PushWithDuplicate / _InsertWithDuplicate of an unlinked node with stored height `h`.
      Below a one-node root the node is linked without any fixup. */
  function Push(t: Tree, n: Node, h: nat): Tree {
    if t.Leaf? then Single(n, h)
    else if t.l.Leaf? && t.r.Leaf? then
      if n.key > t.n.key then t.(r := Single(n, h))
      else if n.key < t.n.key then t.(l := Single(n, h))
      else t
    else
      var (c, s) := Descend(Top, t, n.key);
      if s.Br? then t else InsertFixUp(c, Single(n, h))
  }

  /** PushEq */
  function PushEq(t: Tree, n: Node, h: nat): Tree {
    if t.Leaf? then Single(n, h) else InsertFixUp(DescendEq(Top, t, n.key), Single(n, h))
  }

  /** Extract(key) / Erase(key) */
  function Remove(t: Tree, k: int): Tree {
    var (c, s) := Descend(Top, t, k);
    if s.Leaf? then t else EraseAt(c, s)
  }
}
