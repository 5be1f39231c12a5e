/** LowerBound and UpperBound on trees with duplicate keys, and counting a key range. */
module AvlBounds {
  import opened AvlShape
  import opened AvlOrder
  import opened AvlWalk
  import opened AvlHeap
  import opened AvlIterate

  /** `x` is the first node in order whose key is at least `key`, or null if there is none. */
  ghost predicate IsLowerBound(s: seq<Node>, key: int, x: Node?) {
    exists i :: 0 <= i <= |s| && AllBelow(s[..i], key) && AtLeast(key, s[i..]) && x == First(s[i..])
  }

  /** `x` is the first node in order whose key is above `key`, or null if there is none. */
  ghost predicate IsUpperBound(s: seq<Node>, key: int, x: Node?) {
    exists i :: 0 <= i <= |s| && AtMost(s[..i], key) && AllAbove(key, s[i..]) && x == First(s[i..])
  }

  /** LowerBound: the first node in order whose key is at least `key`, or null. */
  method LowerBound(tree: AvlTree, key: int) returns (track: Node?, ghost i: nat)
    requires tree.Valid()
    ensures IsLowerBound(InOrder(tree.shape), key, track)
    ensures var s := InOrder(tree.shape);
      i <= |s| && AllBelow(s[..i], key) && AtLeast(key, s[i..]) && track == First(s[i..])
  {
    ghost var c, t := Top, tree.shape;
    var node := tree.root;
    track := null;
    assert Whole(c, t) == InOrder(t);
    while node != null
      invariant tree.At(c, t) && node == Ptr(t) && Whole(c, t) == InOrder(tree.shape)
      invariant AllBelow(Before(c), key) && AtLeast(key, After(c)) && track == First(After(c))
      decreases t
    {
      tree.Down(c, t);
      WholeDown(c, t);
      SortedAt(c, t);
      if node.key >= key {
        track := node;
        node := node.left;
        c, t := InLeft(c, t.n, t.h, t.r), t.l;
      } else {
        node := node.right;
        c, t := InRight(c, t.l, t.n, t.h), t.r;
      }
    }
    i := |Before(c)|;
    assert InOrder(tree.shape)[..i] == Before(c) && InOrder(tree.shape)[i..] == After(c);
  }

  /** UpperBound: the first node in order whose key is above `key`, or null. */
  method UpperBound(tree: AvlTree, key: int) returns (track: Node?, ghost i: nat)
    requires tree.Valid()
    ensures IsUpperBound(InOrder(tree.shape), key, track)
    ensures var s := InOrder(tree.shape);
      i <= |s| && AtMost(s[..i], key) && AllAbove(key, s[i..]) && track == First(s[i..])
  {
    ghost var c, t := Top, tree.shape;
    var node := tree.root;
    track := null;
    assert Whole(c, t) == InOrder(t);
    while node != null
      invariant tree.At(c, t) && node == Ptr(t) && Whole(c, t) == InOrder(tree.shape)
      invariant AtMost(Before(c), key) && AllAbove(key, After(c)) && track == First(After(c))
      decreases t
    {
      tree.Down(c, t);
      WholeDown(c, t);
      SortedAt(c, t);
      if node.key > key {
        track := node;
        node := node.left;
        c, t := InLeft(c, t.n, t.h, t.r), t.l;
      } else {
        node := node.right;
        c, t := InRight(c, t.l, t.n, t.h), t.r;
      }
    }
    i := |Before(c)|;
    assert InOrder(tree.shape)[..i] == Before(c) && InOrder(tree.shape)[i..] == After(c);
  }

  /** How many nodes have a key in [left, right]. */
  function Count(s: seq<Node>, left: int, right: int): nat {
    if s == [] then 0 else (if left <= s[0].key <= right then 1 else 0) + Count(s[1..], left, right)
  }

  lemma {:induction false} CountConcat(a: seq<Node>, b: seq<Node>, left: int, right: int)
    ensures Count(a + b, left, right) == Count(a, left, right) + Count(b, left, right)
  {
    if a == [] {
      assert a + b == b;
    } else {
      assert (a + b)[1..] == a[1..] + b;
      CountConcat(a[1..], b, left, right);
    }
  }

  lemma {:induction false} CountAll(s: seq<Node>, left: int, right: int, inside: bool)
    requires forall x :: x in s ==> (left <= x.key <= right <==> inside)
    ensures Count(s, left, right) == if inside then |s| else 0
  {
    if s != [] {
      CountAll(s[1..], left, right, inside);
    }
  }

  lemma BoundsOrdered(s: seq<Node>, left: int, right: int, i: nat, j: nat)
    requires left <= right && i <= |s| && j <= |s|
    requires AllBelow(s[..i], left) && AllAbove(right, s[j..])
    ensures i <= j
  {
    assert j < |s| ==> s[j] == s[j..][0] && s[j..][0] in s[j..];
    assert forall k :: 0 <= k < i ==> s[k] == s[..i][k] && s[..i][k] in s[..i];
  }

  /** The range is not upside down, or nothing is stored in the gap it leaves. */
  ghost predicate Meets(s: seq<Node>, left: int, right: int) {
    left <= right || forall x :: x in s ==> !(right < x.key < left)
  }

  /** Walking from the lower bound comes to the upper bound exactly in that case. */
  lemma BoundsMeet(s: seq<Node>, left: int, right: int, i: nat, j: nat)
    requires i <= |s| && j <= |s| && AllBelow(s[..i], left) && AtLeast(left, s[i..])
    requires AtMost(s[..j], right) && AllAbove(right, s[j..])
    ensures i <= j <==> Meets(s, left, right)
  {
    if left <= right {
      BoundsOrdered(s, left, right, i, j);
    } else if j < i {
      assert s[j] == s[..i][j] == s[j..][0];
      assert s[j] in s && s[j] in s[..i] && s[j] in s[j..];
    } else {
      forall x | x in s
        ensures !(right < x.key < left)
      {
        var p :| 0 <= p < |s| && s[p] == x;
        assert p < j ==> s[..j][p] in s[..j];
        assert p >= i ==> s[i..][p - i] in s[i..];
      }
    }
  }

  lemma CountBetween(s: seq<Node>, left: int, right: int, i: nat, j: nat)
    requires Meets(s, left, right) && i <= |s| && j <= |s| && Sorted(s)
    requires AllBelow(s[..i], left) && AtLeast(left, s[i..])
    requires AtMost(s[..j], right) && AllAbove(right, s[j..])
    ensures i <= j && Count(s, left, right) == j - i
  {
    BoundsMeet(s, left, right, i, j);
    assert s == s[..i] + s[i..j] + s[j..];
    CountConcat(s[..i] + s[i..j], s[j..], left, right);
    CountConcat(s[..i], s[i..j], left, right);
    CountAll(s[..i], left, right, false);
    CountAll(s[j..], left, right, false);
    forall x | x in s[i..j]
      ensures left <= x.key <= right
    {
      assert x in s[i..] && x in s[..j];
    }
    CountAll(s[i..j], left, right, true);
  }

  /** std::distance between two positions of the tree's iterator.  Not `ok` when the walk comes to the end
      of the tree without having met the other position, which it does exactly if that is behind it. */
  method Distance(tree: AvlTree, first: Node?, last: Node?, ghost i: nat, ghost j: nat) returns (ok: bool, n: nat)
    requires tree.Valid() && i <= |InOrder(tree.shape)| && j <= |InOrder(tree.shape)|
    requires first == First(InOrder(tree.shape)[i..]) && last == First(InOrder(tree.shape)[j..])
    ensures ok <==> i <= j
    ensures ok ==> n == j - i
  {
    ghost var s := InOrder(tree.shape);
    NodesAllocated(tree.shape);
    ProperNoDup(tree.shape);
    var node := first;
    n := 0;
    while node != last
      invariant tree.Valid() && i + n <= |s| && (i <= j ==> i + n <= j) && node == First(s[i + n..])
      decreases |s| - i - n
    {
      if node == null {
        return false, n;
      }
      assert i + n != j;
      node := GetNextNode(tree, node, i + n);
      n := n + 1;
    }
    ok := true;
  }

  /** Vset::GetSizeByWeight: the distance between the two bounds counts the keys in the range; the walk
      is sound exactly if the bounds meet or there is no lower bound. */
  method GetSizeByWeight(tree: AvlTree, left: int, right: int) returns (ok: bool, n: nat)
    requires tree.Valid()
    ensures ok <==> Meets(InOrder(tree.shape), left, right) || AllBelow(InOrder(tree.shape), left)
    ensures ok ==> n == Count(InOrder(tree.shape), left, right)
  {
    ghost var s := InOrder(tree.shape);
    NodesAllocated(tree.shape);
    var first, last;
    ghost var i, j;
    first, i := LowerBound(tree, left);
    if first == null {
      assert s[..i] == s;
      CountAll(s, left, right, false);
      return true, 0;
    }
    assert first in s[i..] && first in s && first.key >= left;
    last, j := UpperBound(tree, right);
    BoundsMeet(s, left, right, i, j);
    if Meets(s, left, right) {
      CountBetween(s, left, right, i, j);
    }
    ok, n := Distance(tree, first, last, i, j);
  }

  lemma InsertsHas(s: seq<Node>, n: Node, u: seq<Node>, x: Node)
    requires Inserts(s, n, u) && (x == n || x in s)
    ensures x in u
  {
    var i :| 0 <= i <= |s| && u == s[..i] + [n] + s[i..];
    assert s == s[..i] + s[i..];
  }

  /** An upside-down range with a stored key in its gap: the walk from 3 never comes to 2. */
  method UpsideDown() returns (ok: bool)
    ensures !ok
  {
    var tree := new AvlTree();
    var new2, two := tree.Insert(2);
    ghost var was := InOrder(tree.shape);
    assert two in was by { InsertsHas([], two, was, two); }
    var new3, three := tree.Insert(3);
    assert new3 by { assert forall x :: x in was ==> x == two; }
    InsertsHas(was, three, InOrder(tree.shape), two);
    InsertsHas(was, three, InOrder(tree.shape), three);
    var n;
    ok, n := GetSizeByWeight(tree, 3, 1);
  }
}
