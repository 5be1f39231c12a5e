/** One step of the tree hash table's migration on the heap: the destructive walk of one bucket whose
    callback pushes every node into one of the two buckets it can belong to. */
module AvlMigrate {
  import opened Basics
  import opened AvlShape
  import opened AvlOrder
  import opened AvlWalk
  import opened AvlHeap
  import opened AvlReuse
  import opened Assoc
  import opened TreeBucket

  lemma InsertsNodes(s: seq<Node>, n: Node, u: seq<Node>)
    requires Inserts(s, n, u)
    ensures Members(u) == Members(s) + {n}
  {
    var i :| 0 <= i <= |s| && u == s[..i] + [n] + s[i..];
    assert s == s[..i] + s[i..];
  }

  lemma PushNodes(t: Tree, n: Node, h: nat)
    requires Sorted(InOrder(t))
    ensures Nodes(Push(t, n, h)) <= Nodes(t) + {n}
  {
    PushSpec(t, n, h);
    NodesInOrder(t);
    NodesInOrder(Push(t, n, h));
    if !HasKey(t, n.key) {
      InsertsNodes(InOrder(t), n, InOrder(Push(t, n, h)));
    }
  }

  /** Unlink a leaf of the walked bucket and push it into `target`. */
  method HandTo(target: AvlTree, node: Node, parent: Node?, ghost c: Path, ghost t: Tree)
    requires Remaining(c, t) && t.Br? && t.l.Leaf? && t.r.Leaf? && node == t.n && parent == Parent(c)
    requires target.Valid() && Nodes(target.shape) !! Nodes(t) + PathNodes(c)
    modifies Nodes(t), PathNodes(c), target, Nodes(target.shape)
    ensures target.Valid() && target.shape == Push(old(target.shape), node, 0)
    ensures Nodes(target.shape) <= old(Nodes(target.shape)) + {node}
    ensures !c.Top? ==> Remaining(c.up, Attach(c, Leaf))
  {
    RemainingIs(c, t);
    PathAllocated(c);
    NodesAllocated(target.shape);
    Unlink(node, parent, c, t);
    if !c.Top? {
      RemainingIs(c.up, Attach(c, Leaf));
    }
    PushNodes(target.shape, node, 0);
    var ok := target.Push(node);
  }

  /** Two sound trees that share nothing with each other or with the nodes `x`. */
  ghost predicate Apart(low: AvlTree, high: AvlTree, x: set<Node>)
    reads low, high, Nodes(low.shape), Nodes(high.shape)
  {
    low != high && low.Valid() && high.Valid() &&
    Nodes(low.shape) !! x && Nodes(high.shape) !! x && Nodes(low.shape) !! Nodes(high.shape)
  }

  /** The callback: the node goes to the bucket its key selects. */
  method Give(low: AvlTree, high: AvlTree, up: bool, node: Node, parent: Node?, ghost c: Path, ghost t: Tree)
    requires Remaining(c, t) && t.Br? && t.l.Leaf? && t.r.Leaf? && node == t.n && parent == Parent(c)
    requires Apart(low, high, Nodes(t) + PathNodes(c))
    modifies Nodes(t), PathNodes(c), low, high, Nodes(low.shape), Nodes(high.shape)
    ensures Apart(low, high, PathNodes(c))
    ensures low.shape == if up then old(low.shape) else Push(old(low.shape), node, 0)
    ensures high.shape == if up then Push(old(high.shape), node, 0) else old(high.shape)
    ensures Nodes(low.shape) <= old(Nodes(low.shape)) + {node} && Nodes(high.shape) <= old(Nodes(high.shape)) + {node}
    ensures !c.Top? ==> Remaining(c.up, Attach(c, Leaf))
  {
    NodesAllocated(low.shape);
    NodesAllocated(high.shape);
    RemainingPop(c, t);
    if up {
      HandTo(high, node, parent, c, t);
    } else {
      HandTo(low, node, parent, c, t);
    }
  }

  lemma LogMore(log: seq<Node>, n: Node, rest: seq<Node>)
    ensures log + [n] + rest == log + ([n] + rest)
  {
  }

  /** ReuseAllNodes of the source bucket with that callback. */
  method Migrate(src: AvlTree, low: AvlTree, high: AvlTree, upper: int -> bool)
    requires src.Valid() && src != low && src != high && Apart(low, high, Nodes(src.shape))
    modifies src, low, high, Nodes(src.shape), Nodes(low.shape), Nodes(high.shape)
    ensures src.Valid() && src.shape == Leaf && Apart(low, high, {})
    ensures low.shape == PushAll(old(low.shape), Going(PostOrder(old(src.shape)), upper, false))
    ensures high.shape == PushAll(old(high.shape), Going(PostOrder(old(src.shape)), upper, true))
    ensures Nodes(low.shape) <= old(Nodes(low.shape) + Nodes(src.shape))
    ensures Nodes(high.shape) <= old(Nodes(high.shape) + Nodes(src.shape))
  {
    var log := WalkInto(src.root, src.shape, low, high, upper);
    src.root := null;
    src.shape := Leaf;
  }

  /** The two targets after `log` was handed out: each is what pushing its share gives, and their nodes
      come from where they were and from `all`. */
  ghost predicate Shared(low0: Tree, high0: Tree, low: Tree, high: Tree, log: seq<Node>, upper: int -> bool,
                         all: set<Node>) {
    forall x :: Broken(x) ==>
      low == PushAll(low0, Going(log, upper, false)) && high == PushAll(high0, Going(log, upper, true)) &&
      Nodes(low) <= Nodes(low0) + all && Nodes(high) <= Nodes(high0) + all
  }

  lemma SharedIs(low0: Tree, high0: Tree, low: Tree, high: Tree, log: seq<Node>, upper: int -> bool, all: set<Node>)
    requires Shared(low0, high0, low, high, log, upper, all)
    ensures low == PushAll(low0, Going(log, upper, false)) && high == PushAll(high0, Going(log, upper, true))
    ensures Nodes(low) <= Nodes(low0) + all && Nodes(high) <= Nodes(high0) + all
  {
    assert Broken(Seal);
  }

  lemma SharedMore(low0: Tree, high0: Tree, low: Tree, high: Tree, log: seq<Node>, upper: int -> bool, all: set<Node>,
                   n: Node, low1: Tree, high1: Tree)
    requires Shared(low0, high0, low, high, log, upper, all) && n in all
    requires low1 == if upper(n.key) then low else Push(low, n, 0)
    requires high1 == if upper(n.key) then Push(high, n, 0) else high
    requires Nodes(low1) <= Nodes(low) + {n} && Nodes(high1) <= Nodes(high) + {n}
    ensures Shared(low0, high0, low1, high1, log + [n], upper, all)
  {
    SharedIs(low0, high0, low, high, log, upper, all);
    GoingMore(low0, log, n, upper, false);
    GoingMore(high0, log, n, upper, true);
  }

  method WalkInto(root: Node?, ghost shape: Tree, low: AvlTree, high: AvlTree, upper: int -> bool)
    returns (ghost log: seq<Node>)
    requires root == Ptr(shape) && Linked(shape, null) && Proper(shape) && Apart(low, high, Nodes(shape))
    modifies low, high, Nodes(shape), Nodes(low.shape), Nodes(high.shape)
    ensures log == PostOrder(shape) && Apart(low, high, {})
    ensures low.shape == PushAll(old(low.shape), Going(log, upper, false))
    ensures high.shape == PushAll(old(high.shape), Going(log, upper, true))
    ensures Nodes(low.shape) <= old(Nodes(low.shape)) + Nodes(shape)
    ensures Nodes(high.shape) <= old(Nodes(high.shape)) + Nodes(shape)
  {
    ghost var c, t := Top, shape;
    RemainingIs(c, t);
    var node := root;
    log := [];
    while node != null
      invariant node == Ptr(t) && Remaining(c, t) && (t.Leaf? ==> c.Top?)
      invariant Apart(low, high, Nodes(t) + PathNodes(c)) && Nodes(t) + PathNodes(c) <= Nodes(shape)
      invariant Shared(old(low.shape), old(high.shape), low.shape, high.shape, log, upper, Nodes(shape))
      invariant log + PostRest(c, t) == PostOrder(shape)
      decreases |PostRest(c, t)|, t
    {
      RemainingDown(c, t);
      PostRestDown(c, t);
      if node.left != null {
        node := node.left;
        c, t := InLeft(c, t.n, t.h, t.r), t.l;
      } else if node.right != null {
        node := node.right;
        c, t := InRight(c, t.l, t.n, t.h), t.r;
      } else {
        var leaf: Node, parent := node, node.parent;
        RemainingPop(c, t);
        PostRestPop(c, leaf, t.h);
        LogMore(log, leaf, if c.Top? then [] else PostRest(c.up, Attach(c, Leaf)));
        SharedIs(old(low.shape), old(high.shape), low.shape, high.shape, log, upper, Nodes(shape));
        ghost var was, was' := low.shape, high.shape;
        Give(low, high, upper(leaf.key), leaf, parent, c, t);
        SharedMore(old(low.shape), old(high.shape), was, was', log, upper, Nodes(shape), leaf, low.shape, high.shape);
        log := log + [leaf];
        if parent == null {
          assert log + [] == log;
          break;
        }
        c, t := c.up, Attach(c, Leaf);
        node := parent;
      }
    }
    SharedIs(old(low.shape), old(high.shape), low.shape, high.shape, log, upper, Nodes(shape));
  }

  // ---------- the contents ----------

  lemma {:induction false} PushAllDict(t: Tree, ns: seq<Node>)
    requires Keyed(t) && Distinct(Pairs(ns)) && Dict(Pairs(ns)).Keys !! TDict(t).Keys
    ensures Keyed(PushAll(t, ns)) && TDict(PushAll(t, ns)) == TDict(t) + Dict(Pairs(ns))
  {
    if ns == [] {
      assert Pairs(ns) == [];
    } else {
      var init, n := ns[..|ns| - 1], ns[|ns| - 1];
      LastPair(init, n);
      assert init + [n] == ns;
      PushAllDict(t, init);
      PushDict(PushAll(t, init), n, 0);
      PutRight(TDict(t), Dict(Pairs(init)), n.key, n);
    }
  }

  lemma PutRight<K, V>(a: map<K, V>, b: map<K, V>, k: K, v: V)
    ensures (a + b)[k := v] == a + b[k := v]
  {
  }

  lemma LastPair(init: seq<Node>, n: Node)
    ensures Distinct(Pairs(init + [n])) <==> Distinct(Pairs(init)) && n.key !in Dict(Pairs(init))
    ensures n.key !in Dict(Pairs(init)) ==> Dict(Pairs(init + [n])) == Dict(Pairs(init))[n.key := n]
    ensures Dict(Pairs(init + [n])).Keys == Dict(Pairs(init)).Keys + {n.key}
  {
    PairsConcat(init, [n]);
    assert Pairs([n]) == [(n.key, n)];
    DictInsert(Pairs(init), (n.key, n), []);
    assert Pairs(init) + [(n.key, n)] + [] == Pairs(init) + [(n.key, n)] && Pairs(init) + [] == Pairs(init);
  }

  /** What goes to one bucket. */
  predicate Goes(d: map<int, Node>, g: map<int, Node>, upper: int -> bool, up: bool, k: int) {
    (k in g <==> k in d && upper(k) == up) && (k in g ==> g[k] == d[k])
  }

  lemma {:induction false} GoingDict(ns: seq<Node>, upper: int -> bool, up: bool)
    requires Distinct(Pairs(ns))
    ensures Distinct(Pairs(Going(ns, upper, up)))
    ensures forall k :: Goes(Dict(Pairs(ns)), Dict(Pairs(Going(ns, upper, up))), upper, up, k)
  {
    if ns != [] {
      var init, n := ns[..|ns| - 1], ns[|ns| - 1];
      var g := Going(init, upper, up);
      assert init + [n] == ns && g + [] == g;
      LastPair(init, n);
      LastPair(g, n);
      GoingDict(init, upper, up);
      var d, e := Dict(Pairs(init)), Dict(Pairs(g));
      var d', e' := d[n.key := n], if upper(n.key) == up then e[n.key := n] else e;
      assert Goes(d, e, upper, up, n.key);
      forall k: int
        ensures Goes(d', e', upper, up, k)
      {
        assert Goes(d, e, upper, up, k);
      }
    }
  }

  /** Conservation: with keys that are in neither target, every entry of the source bucket ends up in the
      bucket its key selects, and nothing else changes. */
  lemma MigrateDict(src: Tree, target: Tree, upper: int -> bool, up: bool)
    requires Keyed(src) && Keyed(target) && TDict(src).Keys !! TDict(target).Keys
    ensures var u := PushAll(target, Going(PostOrder(src), upper, up));
      Keyed(u) && forall k ::
        (k in TDict(u) <==> k in TDict(target) || (k in TDict(src) && upper(k) == up)) &&
        (k in TDict(u) ==> TDict(u)[k] == if k in TDict(target) then TDict(target)[k] else TDict(src)[k])
  {
    var g := Going(PostOrder(src), upper, up);
    PostOrderDict(src);
    GoingDict(PostOrder(src), upper, up);
    assert forall k :: Goes(TDict(src), Dict(Pairs(g)), upper, up, k);
    assert Dict(Pairs(g)).Keys !! TDict(target).Keys by {
      forall k | k in Dict(Pairs(g)).Keys
        ensures k !in TDict(target).Keys
      {
        assert Goes(TDict(src), Dict(Pairs(g)), upper, up, k);
      }
    }
    PushAllDict(target, g);
    var u := PushAll(target, g);
    forall k: int
      ensures k in TDict(u) <==> k in TDict(target) || (k in TDict(src) && upper(k) == up)
      ensures k in TDict(u) ==> TDict(u)[k] == if k in TDict(target) then TDict(target)[k] else TDict(src)[k]
    {
      assert Goes(TDict(src), Dict(Pairs(g)), upper, up, k);
    }
  }
}
