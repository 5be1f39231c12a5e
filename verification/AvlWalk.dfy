/** In-order positions, post-order and the pending part of a stack walk. */
module AvlWalk {
  import opened Basics
  import opened AvlShape
  import opened AvlOrder

  function First(s: seq<Node>): Node? {
    if s == [] then null else s[0]
  }

  function Last(s: seq<Node>): Node? {
    if s == [] then null else s[|s| - 1]
  }

  /** The subtree whose root is the `i`-th node in order, with its path. */
  function Locate(c: Path, t: Tree, i: nat): (r: (Path, Tree))
    requires i < |InOrder(t)|
    ensures r.1.Br?
    decreases t
  {
    if i < |InOrder(t.l)| then Locate(InLeft(c, t.n, t.h, t.r), t.l, i)
    else if i == |InOrder(t.l)| then (c, t)
    else Locate(InRight(c, t.l, t.n, t.h), t.r, i - |InOrder(t.l)| - 1)
  }

  lemma {:induction false} LocateSpec(c: Path, t: Tree, i: nat)
    requires i < |InOrder(t)|
    ensures var (d, s) := Locate(c, t, i); Plug(d, s) == Plug(c, t) && |Before(d)| + |InOrder(s.l)| == |Before(c)| + i
    decreases t
  {
    if i < |InOrder(t.l)| {
      LocateSpec(InLeft(c, t.n, t.h, t.r), t.l, i);
    } else if i > |InOrder(t.l)| {
      LocateSpec(InRight(c, t.l, t.n, t.h), t.r, i - |InOrder(t.l)| - 1);
    }
  }

  /** The `i`-th node, and the nodes on both sides of it. */
  lemma {:induction false} LocateSplits(t: Tree, i: nat)
    requires i < |InOrder(t)|
    ensures var (c, s) := Locate(Top, t, i);
      Plug(c, s) == t && s.n == InOrder(t)[i] &&
      InOrder(t)[..i] == Before(c) + InOrder(s.l) && InOrder(t)[i + 1..] == InOrder(s.r) + After(c)
  {
    var (c, s) := Locate(Top, t, i);
    LocateSpec(Top, t, i);
    PlugInOrder(c, s);
    EraseAtSpec(c, s);
  }

  // ---------- the side an equal key takes ----------

  /** Inserted at place `i`, within the subtree of the `j`-th node, a node is before that one if and only if
      its left subtree stores the smaller height. */
  ghost predicate SideAt(t: Tree, i: nat, j: nat)
    requires j < |InOrder(t)|
  {
    var (c, s) := Locate(Top, t, j);
    |Before(c)| <= i <= |Before(c)| + |InOrder(s)| ==> (i <= j <==> H(s.l) < H(s.r))
  }

  /** `u` is the in-order sequence with `n` inserted on the proper side of every node with its key. */
  ghost predicate Sides(t: Tree, n: Node, u: seq<Node>) {
    exists i :: 0 <= i <= |InOrder(t)| && SidesFrom(t, n, u, i)
  }

  ghost predicate SidesFrom(t: Tree, n: Node, u: seq<Node>, i: nat)
    requires i <= |InOrder(t)|
  {
    u == InOrder(t)[..i] + [n] + InOrder(t)[i..] &&
    forall j :: 0 <= j < |InOrder(t)| && InOrder(t)[j].key == n.key ==> SideAt(t, i, j)
  }

  lemma {:induction false} PushEqSides(t: Tree, n: Node, h: nat)
    ensures Sides(t, n, InOrder(PushEq(t, n, h)))
  {
    var i := |Before(DescendEq(Top, t, n.key))|;
    PushEqAt(t, n, h);
    forall j | 0 <= j < |InOrder(t)| && InOrder(t)[j].key == n.key
      ensures SideAt(t, i, j)
    {
      var (c, s) := Locate(Top, t, j);
      LocateSplits(t, j);
      LocateSpec(Top, t, j);
      PushEqSide(t, n, c, s);
    }
    assert SidesFrom(t, n, InOrder(PushEq(t, n, h)), i);
  }

  // ---------- post-order ----------

  function PostOrder(t: Tree): seq<Node> {
    match t
    case Leaf => []
    case Br(l, n, _, r) => PostOrder(l) + PostOrder(r) + [n]
  }

  /** A path with nothing left to the left of the hole. */
  predicate LeftDone(c: Path) {
    match c
    case Top => true
    case InLeft(up, _, _, _) => LeftDone(up)
    case InRight(up, l, _, _) => l.Leaf? && LeftDone(up)
  }

  /** What a post-order walk still has to visit once the hole is empty. */
  function PostAfter(c: Path): seq<Node> {
    match c
    case Top => []
    case InLeft(up, n, _, r) => PostOrder(r) + [n] + PostAfter(up)
    case InRight(up, _, n, _) => [n] + PostAfter(up)
  }

  /** What the walk still has to visit from the subtree `t` at `c`. */
  function PostRest(c: Path, t: Tree): seq<Node> {
    PostOrder(t) + PostAfter(c)
  }

  /** Going down changes nothing; giving up a leaf takes one node off the front. */
  lemma {:induction false} PostRestDown(c: Path, t: Tree)
    requires t.Br?
    ensures PostRest(InLeft(c, t.n, t.h, t.r), t.l) == PostRest(c, t)
    ensures t.l.Leaf? ==> PostRest(InRight(c, t.l, t.n, t.h), t.r) == PostRest(c, t)
  {
    Regroup(PostOrder(t.l), PostOrder(t.r), [t.n], PostAfter(c), []);
    if t.l.Leaf? {
      Regroup([], PostOrder(t.r), [t.n], PostAfter(c), []);
    }
  }

  lemma {:induction false} PostRestPop(c: Path, n: Node, h: nat)
    requires LeftDone(c)
    ensures PostRest(c, Single(n, h)) == [n] + if c.Top? then [] else PostRest(c.up, Attach(c, Leaf))
  {
    assert PostOrder(Single(n, h)) == [n];
    if !c.Top? {
      PostRestAttach(c);
    }
  }

  lemma {:induction false} PostRestAttach(c: Path)
    requires !c.Top? && LeftDone(c)
    ensures PostRest(c.up, Attach(c, Leaf)) == PostAfter(c)
  {
    if c.InLeft? {
      assert PostOrder(Attach(c, Leaf)) == PostOrder(c.r) + [c.n];
    } else {
      assert PostOrder(Attach(c, Leaf)) == [c.n];
    }
  }

  lemma {:induction false} PostOrderNodes(t: Tree)
    ensures Members(PostOrder(t)) == Nodes(t) && |PostOrder(t)| == |InOrder(t)|
  {
    if t.Br? {
      PostOrderNodes(t.l);
      PostOrderNodes(t.r);
    }
  }

  /** The walk meets no node twice. */
  lemma {:induction false} PostOrderOnce(t: Tree)
    requires Proper(t)
    ensures NoDup(PostOrder(t))
  {
    if t.Br? {
      PostOrderOnce(t.l);
      PostOrderOnce(t.r);
      PostOrderNodes(t.l);
      PostOrderNodes(t.r);
      NoDupApart(PostOrder(t.l), PostOrder(t.r));
      assert t.n !in Members(PostOrder(t.l)) && t.n !in Members(PostOrder(t.r));
      NoDupParts(PostOrder(t.l) + PostOrder(t.r), t.n, []);
      assert PostOrder(t.l) + PostOrder(t.r) + [t.n] + [] == PostOrder(t);
    }
  }

  lemma NoDupApart(a: seq<Node>, b: seq<Node>)
    requires NoDup(a) && NoDup(b) && Members(a) !! Members(b)
    ensures NoDup(a + b)
  {
    forall i, j | 0 <= i < j < |a + b|
      ensures (a + b)[i] != (a + b)[j]
    {
      if i < |a| <= j {
        assert a[i] in Members(a) && b[j - |a|] in Members(b);
      }
    }
  }

  /** The walk of a subtree is one stretch of the walk of the tree. */
  lemma {:induction false} PostPlug(c: Path, t: Tree) returns (a: seq<Node>, b: seq<Node>)
    ensures PostOrder(Plug(c, t)) == a + PostOrder(t) + b
  {
    match c
    case Top =>
      a, b := [], [];
    case InLeft(up, n, h, r) =>
      a, b := PostPlug(up, Attach(c, t));
      Regroup(a, PostOrder(t), PostOrder(r) + [n], b, []);
      b := PostOrder(r) + [n] + b;
    case InRight(up, l, n, h) =>
      a, b := PostPlug(up, Attach(c, t));
      Regroup(a, PostOrder(l), PostOrder(t), [n], b);
      a, b := a + PostOrder(l), [n] + b;
  }

  /** Children before parents: everything below a node comes earlier in the walk. */
  lemma BelowFirst(c: Path, t: Tree, x: Node) returns (i: nat, j: nat)
    requires t.Br? && x in Nodes(t.l) + Nodes(t.r)
    ensures i < j < |PostOrder(Plug(c, t))| && PostOrder(Plug(c, t))[i] == x && PostOrder(Plug(c, t))[j] == t.n
  {
    var a, b := PostPlug(c, t);
    var below := PostOrder(t.l) + PostOrder(t.r);
    PostOrderNodes(t.l);
    PostOrderNodes(t.r);
    assert x in PostOrder(t.l) || x in PostOrder(t.r);
    assert x in below;
    var k :| 0 <= k < |below| && below[k] == x;
    i, j := |a| + k, |a| + |below|;
  }

  /** At every node, the left subtree before the right one. */
  lemma LeftFirst(c: Path, t: Tree, x: Node, y: Node) returns (i: nat, j: nat)
    requires t.Br? && x in Nodes(t.l) && y in Nodes(t.r)
    ensures i < j < |PostOrder(Plug(c, t))| && PostOrder(Plug(c, t))[i] == x && PostOrder(Plug(c, t))[j] == y
  {
    var a, b := PostPlug(c, t);
    PostOrderNodes(t.l);
    PostOrderNodes(t.r);
    i, j := InStretches(a, PostOrder(t.l), PostOrder(t.r), [t.n], b, x, y);
  }

  lemma InStretches<T>(a: seq<T>, l: seq<T>, r: seq<T>, m: seq<T>, b: seq<T>, x: T, y: T) returns (i: nat, j: nat)
    requires x in l && y in r
    ensures var s := a + (l + r + m) + b; i < j < |s| && s[i] == x && s[j] == y
  {
    var p :| 0 <= p < |l| && l[p] == x;
    var q :| 0 <= q < |r| && r[q] == y;
    i, j := |a| + p, |a| + |l| + q;
  }

  // ---------- the stack of DoInAll ----------

  /** What is still to visit for a stack of subtrees whose left parts are done, top last. */
  function Pending(stack: seq<Tree>): seq<Node>
    requires forall i :: 0 <= i < |stack| ==> stack[i].Br?
  {
    if stack == [] then []
    else
      var t := stack[|stack| - 1];
      [t.n] + InOrder(t.r) + Pending(stack[..|stack| - 1])
  }
}
