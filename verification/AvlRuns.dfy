/** Whole runs of the AVL tree: any sequence of insertions of nodes that carry any height, and of erasures. */
module AvlRuns {
  import opened AvlShape
  import opened AvlBalance
  import opened AvlLag
  import opened AvlOrder

  /** `h` is the height the node has stored when it is linked: 1 if it was created, 0 if migrated. */
  datatype Op = Insert(n: Node, h: nat) | InsertEq(n: Node, h: nat) | Erase(k: int)

  function Step(t: Tree, op: Op): Tree {
    match op
    case Insert(n, h) => Push(t, n, h)
    case InsertEq(n, h) => PushEq(t, n, h)
    case Erase(k) => Remove(t, k)
  }

  predicate Fresh(op: Op) {
    op.Erase? || op.h == 1
  }

  predicate Low(op: Op) {
    op.Erase? || op.h <= 1
  }

  function Run(ops: seq<Op>): Tree {
    if ops == [] then Leaf else Step(Run(ops[..|ops| - 1]), ops[|ops| - 1])
  }

  // ---------- the reference: a bag of keys ----------

  function BagStep(b: multiset<int>, op: Op): multiset<int> {
    match op
    case Insert(n, _) => if n.key in b then b else b + multiset{n.key}
    case InsertEq(n, _) => b + multiset{n.key}
    case Erase(k) => b - multiset{k}
  }

  function BagRun(ops: seq<Op>): multiset<int> {
    if ops == [] then multiset{} else BagStep(BagRun(ops[..|ops| - 1]), ops[|ops| - 1])
  }

  function Keys(s: seq<Node>): seq<int> {
    seq(|s|, i requires 0 <= i < |s| => s[i].key)
  }

  function Bag(t: Tree): multiset<int> {
    multiset(Keys(InOrder(t)))
  }

  lemma InsertsBag(s: seq<Node>, n: Node, u: seq<Node>)
    requires Inserts(s, n, u)
    ensures multiset(Keys(u)) == multiset(Keys(s)) + multiset{n.key}
  {
    var i :| 0 <= i <= |s| && u == s[..i] + [n] + s[i..];
    assert Keys(u) == Keys(s)[..i] + [n.key] + Keys(s)[i..];
    assert Keys(s) == Keys(s)[..i] + Keys(s)[i..];
  }

  lemma HasKeyBag(t: Tree, k: int)
    ensures HasKey(t, k) <==> k in Bag(t)
  {
    var s := InOrder(t);
    if HasKey(t, k) {
      var x :| x in s && x.key == k;
      var i :| 0 <= i < |s| && s[i] == x;
      assert Keys(s)[i] == k;
    }
    if k in Bag(t) {
      assert k in Keys(s);
      var i :| 0 <= i < |Keys(s)| && Keys(s)[i] == k;
      assert s[i] in s && s[i].key == k;
    }
  }

  lemma {:induction false} PushBag(t: Tree, n: Node, h: nat)
    requires Sorted(InOrder(t))
    ensures Bag(Push(t, n, h)) == BagStep(Bag(t), Insert(n, h))
  {
    PushSpec(t, n, h);
    HasKeyBag(t, n.key);
    if !HasKey(t, n.key) {
      InsertsBag(InOrder(t), n, InOrder(Push(t, n, h)));
    }
  }

  lemma {:induction false} RemoveBag(t: Tree, k: int)
    requires Sorted(InOrder(t))
    ensures Bag(Remove(t, k)) == BagStep(Bag(t), Erase(k))
  {
    RemoveSpec(t, k);
    DeleteBag(t, Remove(t, k), k);
  }

  lemma {:induction false} DeleteBag(t: Tree, u: Tree, k: int)
    requires HasKey(t, k) ==> exists x :: x in InOrder(t) && x.key == k && Inserts(InOrder(u), x, InOrder(t))
    requires !HasKey(t, k) ==> u == t
    ensures Bag(u) == Bag(t) - multiset{k}
  {
    HasKeyBag(t, k);
    if HasKey(t, k) {
      var x :| x in InOrder(t) && x.key == k && Inserts(InOrder(u), x, InOrder(t));
      InsertsBag(InOrder(u), x, InOrder(t));
    }
  }

  /** Order and contents do not depend on stored heights. */
  lemma {:induction false} StepSound(t: Tree, op: Op)
    requires Sorted(InOrder(t))
    ensures Sorted(InOrder(Step(t, op))) && Bag(Step(t, op)) == BagStep(Bag(t), op)
  {
    match op
    case Insert(n, h) =>
      PushSpec(t, n, h);
      PushBag(t, n, h);
    case InsertEq(n, h) =>
      PushEqSpec(t, n, h);
      InsertsBag(InOrder(t), n, InOrder(PushEq(t, n, h)));
    case Erase(k) =>
      RemoveSpec(t, k);
      RemoveBag(t, k);
  }

  lemma StepBalanced(t: Tree, op: Op)
    requires Balanced(t) && Fresh(op)
    ensures Balanced(Step(t, op))
  {
    match op
    case Insert(n, _) => PushBalanced(t, n);
    case InsertEq(n, _) => PushBalanced(t, n);
    case Erase(k) => RemoveBalanced(t, k);
  }

  lemma StepLagging(t: Tree, op: Op)
    requires Lagging(t) && Low(op)
    ensures Lagging(Step(t, op))
  {
    match op
    case Insert(n, h) => PushLag(t, n, h);
    case InsertEq(n, h) => PushLag(t, n, h);
    case Erase(k) => RemoveLag(t, k);
  }

  /** Every tree reached from the empty one is sorted and holds exactly the keys that a bag driven by
      the same operations holds. */
  lemma {:induction false} RunSound(ops: seq<Op>)
    ensures Sorted(InOrder(Run(ops))) && Bag(Run(ops)) == BagRun(ops)
  {
    if ops == [] {
      assert Keys([]) == [];
    } else {
      RunSound(ops[..|ops| - 1]);
      StepSound(Run(ops[..|ops| - 1]), ops[|ops| - 1]);
    }
  }

  /** If the nodes were fresh, it is balanced, with exact heights except for a possibly stale root above
      one child. */
  lemma {:induction false} RunBalanced(ops: seq<Op>)
    requires forall i :: 0 <= i < |ops| ==> Fresh(ops[i])
    ensures Balanced(Run(ops))
  {
    if ops != [] {
      RunBalanced(ops[..|ops| - 1]);
      StepBalanced(Run(ops[..|ops| - 1]), ops[|ops| - 1]);
    }
  }

  /** If the nodes were fresh or migrated, in any mix, stored heights lag, by as much as AvlLag.LagBy says. */
  lemma {:induction false} RunLagging(ops: seq<Op>)
    requires forall i :: 0 <= i < |ops| ==> Low(ops[i])
    ensures Lagging(Run(ops))
  {
    if ops != [] {
      RunLagging(ops[..|ops| - 1]);
      StepLagging(Run(ops[..|ops| - 1]), ops[|ops| - 1]);
    }
  }

  // ---------- height and search cost ----------

  function Fib(n: nat): nat {
    if n < 2 then n else Fib(n - 1) + Fib(n - 2)
  }

  lemma {:induction false} FibGrows(a: nat, b: nat)
    requires a <= b
    ensures Fib(a) <= Fib(b)
    decreases b
  {
    if a < b && b >= 2 {
      FibGrows(if a < b - 1 then a else b - 1, b - 1);
    }
  }

  function Pow2(n: nat): nat {
    if n == 0 then 1 else 2 * Pow2(n - 1)
  }

  lemma {:induction false} FibPow(h: nat)
    ensures Pow2(h / 2) <= Fib(h + 2)
  {
    if h >= 2 {
      FibPow(h - 2);
      FibGrows(h, h + 1);
      assert h / 2 == (h - 2) / 2 + 1;
      assert Fib(h + 2) == Fib(h + 1) + Fib(h);
    } else {
      assert Fib(2) == 1 && Fib(3) == 2;
    }
  }

  lemma {:induction false} FibJoin(a: nat, b: nat)
    requires Near(a, b)
    ensures Fib(a + 2) + Fib(b + 2) >= Fib(Max(a, b) + 3)
  {
    var m := Max(a, b);
    FibGrows(m + 1, a + 2);
    FibGrows(m + 1, b + 2);
    assert Fib(m + 3) == Fib(m + 2) + Fib(m + 1);
  }

  lemma {:induction false} AvlSize(t: Tree)
    requires Avl(t)
    ensures H(t) == Tall(t) && |InOrder(t)| + 1 >= Fib(H(t) + 2)
  {
    if t.Br? {
      AvlSize(t.l);
      AvlSize(t.r);
      FibJoin(H(t.l), H(t.r));
    } else {
      assert Fib(2) == 1;
    }
  }

  /** A balanced tree of height h holds at least Fib(h+2)-1 nodes. */
  lemma {:induction false} BalancedSize(t: Tree)
    requires Balanced(t)
    ensures |InOrder(t)| + 1 >= Fib(Tall(t) + 2)
  {
    if Avl(t) {
      AvlSize(t);
    } else {
      assert Tall(t.l) <= 1 && Tall(t.r) <= 1;
      assert Fib(4) == 3;
    }
  }

  lemma {:induction false} VisitsTall(t: Tree, k: int)
    ensures Visits(t, k) <= Tall(t)
  {
    if t.Br? {
      VisitsTall(t.l, k);
      VisitsTall(t.r, k);
    }
  }

  lemma TreeCost(t: Tree, k: int)
    requires Balanced(t)
    ensures Pow2(Visits(t, k) / 2) <= |InOrder(t)| + 1
  {
    BalancedSize(t);
    VisitsTall(t, k);
    FibPow(Visits(t, k));
    FibGrows(Visits(t, k) + 2, Tall(t) + 2);
  }

  /** After any run of fresh insertions and erasures, a search compares at most 2 log2(n + 1) + 1 keys. */
  lemma SearchCost(ops: seq<Op>, k: int)
    requires forall i :: 0 <= i < |ops| ==> Fresh(ops[i])
    ensures Pow2(Visits(Run(ops), k) / 2) <= |InOrder(Run(ops))| + 1
  {
    RunBalanced(ops);
    TreeCost(Run(ops), k);
  }

  // ---------- with migrated nodes ----------

  lemma {:induction false} LagSize(t: Tree)
    requires Lag(t)
    ensures |InOrder(t)| + 1 >= Fib(H(t) + 2)
  {
    if t.Br? && t.h > 0 {
      LagSize(t.l);
      LagSize(t.r);
      FibJoin(H(t.l), H(t.r));
    } else {
      assert Fib(2) == 1;
    }
  }

  lemma {:induction false} TallSize(t: Tree)
    ensures |InOrder(t)| >= Tall(t)
  {
    if t.Br? {
      TallSize(t.l);
      TallSize(t.r);
    }
  }

  lemma LagSizeTall(t: Tree)
    requires Lag(t)
    ensures |InOrder(t)| + 1 >= Fib(Tall(t) + 1)
  {
    LagTall(t);
    LagSize(t);
    FibGrows(Tall(t) + 1, H(t) + 2);
  }

  lemma FibSmall(n: nat)
    requires n <= 4
    ensures Fib(n) <= n
  {
    assert Fib(2) == 1;
    assert Fib(3) == 2;
    assert Fib(4) == 3;
  }

  /** One level more than a balanced tree of the same size, at most. */
  lemma LaggingSize(t: Tree)
    requires Lagging(t)
    ensures |InOrder(t)| + 1 >= Fib(Tall(t) + 1)
  {
    if Lag(t) {
      LagSizeTall(t);
    } else {
      LagRootTall(t);
      TallSize(t);
      FibSmall(Tall(t) + 1);
    }
  }

  lemma LaggingCost(t: Tree, k: int)
    requires Lagging(t)
    ensures Visits(t, k) > 0 ==> Pow2((Visits(t, k) - 1) / 2) <= |InOrder(t)| + 1
  {
    LaggingSize(t);
    VisitsTall(t, k);
    if Visits(t, k) > 0 {
      FibPow(Visits(t, k) - 1);
      FibGrows(Visits(t, k) + 1, Tall(t) + 1);
    }
  }

  /** After any run of insertions of fresh and migrated nodes and of erasures, a search compares at most
      2 log2(n + 1) + 2 keys. */
  lemma MixedCost(ops: seq<Op>, k: int)
    requires forall i :: 0 <= i < |ops| ==> Low(ops[i])
    ensures |InOrder(Run(ops))| + 1 >= Fib(Tall(Run(ops)) + 1)
    ensures Visits(Run(ops), k) > 0 ==> Pow2((Visits(Run(ops), k) - 1) / 2) <= |InOrder(Run(ops))| + 1
  {
    RunLagging(ops);
    LaggingSize(Run(ops));
    LaggingCost(Run(ops), k);
  }
}
