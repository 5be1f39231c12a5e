/** TreeHashTable: the two-table hash table whose buckets are AVL trees. */
module TreeHashTableModel {
  import opened Basics
  import opened Mask
  import opened Assoc
  import opened TwoTables
  import opened AvlShape
  import opened AvlBalance
  import opened AvlLag
  import AvlRuns
  import opened AvlWalk
  import opened TreeBucket

  ghost function Maps(t: seq<Tree>): (a: seq<map<int, Node>>)
    ensures |a| == |t| && forall i :: 0 <= i < |t| ==> a[i] == TDict(t[i])
  {
    seq(|t|, i requires 0 <= i < |t| => TDict(t[i]))
  }

  lemma MapsUpdate(t: seq<Tree>, b: nat, x: Tree)
    requires b < |t|
    ensures Maps(t[b := x]) == Maps(t)[b := TDict(x)]
  {
  }

  ghost predicate AllKeyed(t: seq<Tree>) {
    forall i :: 0 <= i < |t| ==> Keyed(t[i])
  }

  /** Every bucket is logarithmic, although its stored heights lag. */
  ghost predicate AllLag(t: seq<Tree>) {
    forall x :: Broken(x) ==> forall i :: 0 <= i < |t| ==> Lagging(t[i])
  }

  lemma AllLagIs(t: seq<Tree>)
    ensures AllLag(t) <==> forall i :: 0 <= i < |t| ==> Lagging(t[i])
  {
    assert Broken(Seal);
  }

  /** A search in a bucket of n nodes compares at most 2 log2(n + 1) + 2 keys. */
  lemma BucketCost(t: seq<Tree>, b: nat, key: int)
    requires AllLag(t) && b < |t|
    ensures Visits(t[b], key) > 0 ==> AvlRuns.Pow2((Visits(t[b], key) - 1) / 2) <= |InOrder(t[b])| + 1
  {
    AllLagIs(t);
    AvlRuns.LaggingCost(t[b], key);
  }

  lemma PushAllLag(t: seq<Tree>, b: nat, n: Node, h: nat)
    requires b < |t|
    ensures AllLag(t) && h <= 1 ==> AllLag(t[b := AvlShape.Push(t[b], n, h)])
  {
    if AllLag(t) && h <= 1 {
      AllLagIs(t);
      PushLag(t[b], n, h);
    }
  }

  lemma RemoveAllLag(t: seq<Tree>, b: nat, k: int)
    requires b < |t|
    ensures AllLag(t) ==> AllLag(t[b := Remove(t[b], k)])
  {
    if AllLag(t) {
      AllLagIs(t);
      RemoveLag(t[b], k);
    }
  }

  lemma EmptyAllLag(t: seq<Tree>, b: nat)
    requires b < |t|
    ensures AllLag(t) ==> AllLag(t[b := Leaf])
  {
    if AllLag(t) {
      AllLagIs(t);
    }
  }

  lemma LeavesAllLag(t: seq<Tree>)
    requires forall i :: 0 <= i < |t| ==> t[i] == Leaf
    ensures AllLag(t)
  {
  }

  /** A key whose table-1 bucket is at or above `from` is still in table 1. */
  ghost predicate Home(s: Tables<int, Node>, hash: int -> nat, m: map<int, Node>, from: int) {
    forall k :: HomeKey(s, hash, m, from, k)
  }

  ghost predicate HomeKey(s: Tables<int, Node>, hash: int -> nat, m: map<int, Node>, from: int, k: int) {
    k in m && Index(hash, k, |s.a1|) >= from ==> In(s.a1, hash, k)
  }

  /** The tables while `left` is what the destructive walk has not yet handed out. */
  ghost function Amid(t1: seq<Tree>, t2: seq<Tree>, idx: int, left: seq<Node>): Tables<int, Node>
    requires 0 <= idx < |t1|
  {
    Tables(Maps(t1)[idx := Dict(Pairs(left))], Maps(t2), idx)
  }

  ghost predicate Walking(t1: seq<Tree>, t2: seq<Tree>, idx: int, hash: int -> nat, m: map<int, Node>,
                          left: seq<Node>) {
    forall x :: Broken(x) ==>
      0 <= idx < |t1| && AllKeyed(t2) && Distinct(Pairs(left)) &&
      Inv(Amid(t1, t2, idx, left), hash, m) && Home(Amid(t1, t2, idx, left), hash, m, idx + 1)
  }

  lemma FrontPair(node: Node, rest: seq<Node>)
    requires Distinct(Pairs([node] + rest))
    ensures var d := Dict(Pairs([node] + rest));
      node.key in d && d[node.key] == node && Dict(Pairs(rest)) == d - {node.key} && Distinct(Pairs(rest))
  {
    assert Pairs([node] + rest)[1..] == Pairs(rest);
  }

  /** One call of the migration callback: a node, its height reset to 0, enters table 2, in the bucket
      with the same index or one table on. */
  lemma WalkOne(t1: seq<Tree>, t2: seq<Tree>, idx: int, hash: int -> nat, m: map<int, Node>, node: Node,
                rest: seq<Node>, b: nat)
    requires Walking(t1, t2, idx, hash, m, [node] + rest) && |t2| > 0 && b == Index(hash, node.key, |t2|)
    ensures b == hash(node.key) % |t2| < |t2| && (b == idx || b == idx + |t1|)
    ensures Walking(t1, t2[b := Push(t2[b], node, 0)], idx, hash, m, rest)
  {
    assert Broken(Seal);
    var s, from := Amid(t1, t2, idx, [node] + rest), idx + 1;
    FrontPair(node, rest);
    MoveOne(s, hash, m, node.key);
    assert PlacedKey(s.a1, hash, idx, idx, node.key);
    Doubled(hash(node.key), |t1|);
    IndexIs(hash, node.key, |t2|);
    PushDict(t2[b], node, 0);
    MapsUpdate(t2, b, Push(t2[b], node, 0));
    var u := Amid(t1, t2[b := Push(t2[b], node, 0)], idx, rest);
    assert u == Tables(s.a1[idx := s.a1[idx] - {node.key}], s.a2[b := s.a2[b][node.key := m[node.key]]], idx);
    HomeStays(s, u, hash, m, from);
  }

  /** Taking keys out of a bucket below `from` does not matter. */
  lemma HomeStays(s: Tables<int, Node>, u: Tables<int, Node>, hash: int -> nat, m: map<int, Node>, from: int)
    requires Home(s, hash, m, from) && 0 <= s.idx < from && s.idx < |s.a1| == |u.a1|
    requires u.a1 == s.a1[s.idx := u.a1[s.idx]]
    ensures Home(u, hash, m, from)
  {
    forall k: int
      ensures HomeKey(u, hash, m, from, k)
    {
      assert HomeKey(s, hash, m, from, k);
    }
  }

  /** After the walk the bucket may be emptied. */
  lemma WalkEnds(t1: seq<Tree>, t2: seq<Tree>, idx: int, hash: int -> nat, m: map<int, Node>)
    requires Walking(t1, t2, idx, hash, m, []) && 0 <= idx < |t1| && AllKeyed(t1)
    ensures var u := t1[idx := Leaf]; var s := Tables(Maps(u), Maps(t2), idx);
      AllKeyed(u) && AllKeyed(t2) && Inv(s, hash, m) && Home(s, hash, m, idx + 1)
  {
    assert Broken(Seal);
    MapsUpdate(t1, idx, Leaf);
    assert Pairs([]) == [] && InOrder(Leaf) == [];
    assert Tables(Maps(t1[idx := Leaf]), Maps(t2), idx) == Amid(t1, t2, idx, []);
  }

  /** The keys that a table of `size` files in another bucket than `b`. */
  function Above(hash: int -> nat, size: nat, b: int): int -> bool
    requires size > 0
  {
    k => hash(k) % size != b
  }

  /** One migration step, from `t1`, `t2` and `idx` to `u1`, `u2` and `next`, if one is under way: in
      post-order the bucket's nodes are pushed into their buckets of table 2, and the bucket is empty, unless
      it was the last and table 2 has become table 1. */
  ghost predicate Stepped(t1: seq<Tree>, t2: seq<Tree>, idx: int, hash: int -> nat,
                          u1: seq<Tree>, u2: seq<Tree>, next: int) {
    forall x :: Broken(x) ==>
      if idx < 0 then u1 == t1 && u2 == t2 && next == idx
      else
        idx < |t1| && next == (if idx + 1 < |t1| then idx + 1 else -1) &&
        (if next < 0 then u2 == [] else u1 == t1[idx := Leaf]) &&
        Sent(t2, if next < 0 then u1 else u2, |t1|, idx, PostOrder(t1[idx]), Above(hash, 2 * |t1|, idx))
  }

  lemma NotStepped(t1: seq<Tree>, t2: seq<Tree>, hash: int -> nat, u1: seq<Tree>, u2: seq<Tree>, next: int)
    ensures Stepped(t1, t2, -1, hash, u1, u2, next) <==> u1 == t1 && u2 == t2 && next == -1
  {
    assert Broken(Seal);
  }

  /** A node of height `h` was pushed into its bucket of `u`, and nothing else. */
  ghost predicate PushedTo(u: seq<Tree>, t: seq<Tree>, hash: int -> nat, node: Node, h: nat) {
    forall x :: Broken(x) ==> |u| > 0 && var b := hash(node.key) % |u|; t == u[b := Push(u[b], node, h)]
  }

  /** A key was removed from its bucket of `u`, and nothing else. */
  ghost predicate TakenFrom(u: seq<Tree>, t: seq<Tree>, hash: int -> nat, key: int) {
    forall x :: Broken(x) ==> |u| > 0 && var b := hash(key) % |u|; t == u[b := Remove(u[b], key)]
  }

  /** A node was linked where its key belongs: during a migration in table 1 exactly if its bucket there is
      still to come. */
  ghost predicate LinkedIn(u1: seq<Tree>, u2: seq<Tree>, t1: seq<Tree>, t2: seq<Tree>, idx: int, hash: int -> nat,
                           node: Node, h: nat) {
    forall x :: Broken(x) ==>
      |u1| > 0 &&
      if hash(node.key) % |u1| >= idx then PushedTo(u1, t1, hash, node, h) && t2 == u2
      else t1 == u1 && PushedTo(u2, t2, hash, node, h)
  }

  /** A key that was there was unlinked from where it belongs. */
  ghost predicate UnlinkedFrom(u1: seq<Tree>, u2: seq<Tree>, t1: seq<Tree>, t2: seq<Tree>, idx: int,
                               hash: int -> nat, key: int) {
    forall x :: Broken(x) ==>
      |u1| > 0 &&
      if hash(key) % |u1| >= idx then TakenFrom(u1, t1, hash, key) && t2 == u2
      else t1 == u1 && TakenFrom(u2, t2, hash, key)
  }

  /** Every bucket is balanced, as long as no node was migrated. */
  ghost predicate AllBalanced(t: seq<Tree>) {
    forall x :: Broken(x) ==> forall i :: 0 <= i < |t| ==> Balanced(t[i])
  }

  /** The bucket of the key stays balanced if it was, and no other changes. */
  lemma PushedBucket(u: seq<Tree>, t: seq<Tree>, hash: int -> nat, node: Node, i: nat)
    requires PushedTo(u, t, hash, node, 1) && i < |u|
    ensures |t| == |u| && (Balanced(u[i]) ==> Balanced(t[i])) && (i != hash(node.key) % |u| ==> t[i] == u[i])
  {
    assert Broken(Seal);
    if Balanced(u[i]) {
      PushBalanced(u[i], node);
    }
  }

  lemma PushedBalanced(u: seq<Tree>, t: seq<Tree>, hash: int -> nat, node: Node)
    requires PushedTo(u, t, hash, node, 1) && AllBalanced(u)
    ensures AllBalanced(t)
  {
    assert Broken(Seal);
    PushBalanced(u[hash(node.key) % |u|], node);
  }

  lemma TakenBalanced(u: seq<Tree>, t: seq<Tree>, hash: int -> nat, key: int)
    requires TakenFrom(u, t, hash, key) && AllBalanced(u)
    ensures AllBalanced(t)
  {
    assert Broken(Seal);
    RemoveBalanced(u[hash(key) % |u|], key);
  }

  /** A created node keeps all buckets balanced. */
  lemma LinkedBalanced(u1: seq<Tree>, u2: seq<Tree>, t1: seq<Tree>, t2: seq<Tree>, idx: int, hash: int -> nat,
                       node: Node)
    requires LinkedIn(u1, u2, t1, t2, idx, hash, node, 1)
    ensures AllBalanced(u1) ==> AllBalanced(t1)
    ensures AllBalanced(u2) ==> AllBalanced(t2)
  {
    assert Broken(Seal);
    if hash(node.key) % |u1| >= idx {
      if AllBalanced(u1) {
        PushedBalanced(u1, t1, hash, node);
      }
    } else if AllBalanced(u2) {
      PushedBalanced(u2, t2, hash, node);
    }
  }

  /** So does a removal. */
  lemma UnlinkedBalanced(u1: seq<Tree>, u2: seq<Tree>, t1: seq<Tree>, t2: seq<Tree>, idx: int, hash: int -> nat,
                         key: int)
    requires UnlinkedFrom(u1, u2, t1, t2, idx, hash, key)
    ensures AllBalanced(u1) ==> AllBalanced(t1)
    ensures AllBalanced(u2) ==> AllBalanced(t2)
  {
    assert Broken(Seal);
    if hash(key) % |u1| >= idx {
      if AllBalanced(u1) {
        TakenBalanced(u1, t1, hash, key);
      }
    } else if AllBalanced(u2) {
      TakenBalanced(u2, t2, hash, key);
    }
  }

  lemma Halves<T>(s: seq<T>, i: nat)
    requires i < |s|
    ensures s[i..] == [s[i]] + s[i + 1..] && s[..i + 1] == s[..i] + [s[i]]
  {
  }

  /** The callback on every node of the walk. */
  method PushNodes(log: seq<Node>, t2: seq<Tree>, mask2: nat, hash: int -> nat,
                   ghost t1: seq<Tree>, ghost idx: nat, ghost m: map<int, Node>) returns (t: seq<Tree>)
    requires Walking(t1, t2, idx, hash, m, log) && mask2 == SizeMask(|t2|) && idx < |t1| && |t2| == 2 * |t1|
    ensures Walking(t1, t, idx, hash, m, []) && |t| == |t2| && (AllLag(t2) ==> AllLag(t))
    ensures Sent(t2, t, |t1|, idx, log, Above(hash, |t2|, idx))
  {
    ghost var upper := Above(hash, |t2|, idx);
    t := t2;
    SentNone(t2, |t1|, idx, upper);
    for i := 0 to |log|
      invariant Walking(t1, t, idx, hash, m, log[i..]) && |t| == |t2| && (AllLag(t2) ==> AllLag(t))
      invariant Sent(t2, t, |t1|, idx, log[..i], upper)
    {
      var node, b := log[i], And(hash(log[i].key), mask2);
      Halves(log, i);
      WalkOne(t1, t, idx, hash, m, node, log[i + 1..], b);
      SentMore(t2, t, |t1|, idx, log[..i], upper, node, b);
      PushAllLag(t, b, node, 0);
      t := t[b := Push(t[b], node, 0)];
    }
    assert log[|log|..] == [] && log[..|log|] == log;
  }

  class TreeHashTable {
    const hash: int -> nat
    var t1: seq<Tree>
    var t2: seq<Tree>
    var mask1: nat
    var mask2: nat
    var used: nat
    var idx: int

    /** The map this table stands for: from keys to the nodes that carry the entries. */
    ghost var m: map<int, Node>

    ghost function View(): Tables<int, Node>
      reads this
    {
      Tables(Maps(t1), Maps(t2), idx)
    }

    function Done(): nat
      reads this
    {
      if idx < 0 then 0 else idx
    }

    /** Nodes are filed under their own keys. */
    ghost predicate Filed()
      reads this
    {
      forall k :: k in m ==> m[k].key == k
    }

    /** The two tables hold the map, every key where the migration index says, and not too many. */
    ghost predicate Sound()
      reads this
    {
      AllKeyed(t1) && AllKeyed(t2) && Inv(View(), hash, m) && Home(View(), hash, m, idx) && Filed() &&
      mask1 == SizeMask(|t1|) && (idx >= 0 ==> mask2 == SizeMask(|t2|)) &&
      used == |m| && used <= |t1| + Done()
    }

    ghost predicate Valid()
      reads this
    {
      forall x :: Broken(x) ==> Sound()
    }

    lemma ValidIs()
      ensures Valid() <==> Sound()
    {
      assert Broken(Seal);
    }

    /** All buckets of both tables are logarithmic. */
    ghost predicate Shallow()
      reads `t1, `t2
    {
      AllLag(t1) && AllLag(t2)
    }

    /** How many calls a migration under way still takes. */
    function StepsLeft(): int
      reads this
    {
      if idx < 0 then 0 else |t1| - idx
    }

    constructor (hash: int -> nat)
      ensures Valid() && m == map[] && this.hash == hash && Shallow()
    {
      this.hash := hash;
      t1, t2, used, idx, m := [Leaf, Leaf, Leaf, Leaf], [], 0, -1, map[];
      mask1, mask2 := SizeMask(4), SizeMask(0);
      new;
      EmptyInv<int, Node>(hash);
      assert Maps(t1) == Empty(4) && Maps(t2) == [];
      LeavesAllLag(t1);
      LeavesAllLag(t2);
      ValidIs();
    }

    predicate InRehashing()
      reads this
    {
      idx != -1
    }

    function BucketIndex1(key: int): nat
      reads this
    {
      And(hash(key), mask1)
    }

    function BucketIndex2(key: int): nat
      reads this
    {
      And(hash(key), mask2)
    }

    lemma ValidFacts()
      requires Valid()
      ensures -1 <= idx < |t1| && used == |m| <= |t1| + Done()
    {
      ValidIs();
    }

    /** Where a key is: during a migration in table 1 exactly when its bucket there is not yet
        migrated, and otherwise in table 2, in the bucket with the same index or one table on. */
    lemma KeyWhere(key: int)
      requires Sound()
      ensures BucketIndex1(key) == Index(hash, key, |t1|) == hash(key) % |t1| < |t1|
      ensures InRehashing() ==> BucketIndex2(key) == Index(hash, key, |t2|) == hash(key) % |t2| < |t2|
      ensures InRehashing() ==>
        BucketIndex2(key) == BucketIndex1(key) || BucketIndex2(key) == BucketIndex1(key) + |t1|
      ensures var in1, in2 := key in TDict(t1[BucketIndex1(key)]), InRehashing() && key in TDict(t2[BucketIndex2(key)]);
        (in1 <==> key in m && BucketIndex1(key) >= idx) && (in2 <==> key in m && BucketIndex1(key) < idx) &&
        (in1 ==> m[key] == TDict(t1[BucketIndex1(key)])[key]) &&
        (in2 ==> m[key] == TDict(t2[BucketIndex2(key)])[key])
    {
      Doubled(hash(key), |t1|);
      IndexIs(hash, key, |t1|);
      if InRehashing() {
        IndexIs(hash, key, |t2|);
      }
      assert HoldsKey(View(), hash, m, key) && PlacedKey(Maps(t1), hash, idx, BucketIndex1(key), key);
      assert HomeKey(View(), hash, m, idx, key);
    }

    /** What the search in the two possible buckets finds. */
    lemma Lookup(key: int)
      requires Valid()
      ensures |t1| > 0 && BucketIndex1(key) == hash(key) % |t1| < |t1|
      ensures InRehashing() ==> |t2| > 0 && BucketIndex2(key) == hash(key) % |t2| < |t2|
      ensures FindIn(t1[BucketIndex1(key)], key) == if key in m && BucketIndex1(key) >= idx then m[key] else null
      ensures InRehashing() ==>
        FindIn(t2[BucketIndex2(key)], key) == if key in m && BucketIndex1(key) < idx then m[key] else null
      ensures key in TDict(t1[BucketIndex1(key)]) <==> key in m && BucketIndex1(key) >= idx
    {
      ValidIs();
      KeyWhere(key);
      FindDict(t1[BucketIndex1(key)], key);
      if InRehashing() {
        FindDict(t2[BucketIndex2(key)], key);
      }
    }

    lemma FiledAs(key: int)
      requires Valid() && key in m
      ensures m[key].key == key
    {
      ValidIs();
    }

    /** A second table of twice the size. */
    static function Grown(size: nat): (t: seq<Tree>)
      ensures |t| == 2 * size && forall b :: 0 <= b < |t| ==> t[b] == Leaf
    {
      seq(2 * size, _ => Leaf)
    }

    /** Rehash starts a migration. */
    predicate Due()
      reads this
    {
      !InRehashing() && used >= |t1|
    }

    /** Rehash */
    method Rehash()
      requires Valid()
      modifies this
      ensures Valid() && m == old(m) && t1 == old(t1) && used == old(used)
      ensures InRehashing() <==> old(InRehashing()) || used >= |t1|
      ensures old(InRehashing()) ==> t2 == old(t2) && idx == old(idx)
      ensures !old(InRehashing()) && InRehashing() ==> idx == 0 && t2 == Grown(|t1|)
      ensures !InRehashing() ==> t2 == old(t2) && idx == old(idx)
      ensures old(Shallow()) ==> Shallow()
    {
      if !InRehashing() && used >= |t1| {
        ValidIs();
        GrowInv(View(), hash, m);
        forall k: int
          ensures HomeKey(Tables(Maps(t1), Empty(2 * |t1|), 0), hash, m, 0, k)
        {
          assert HoldsKey(View(), hash, m, k);
        }
        t2 := Grown(|t1|);
        mask2 := SizeMask(|t2|);
        idx := 0;
        assert Maps(t2) == Empty(2 * |t1|);
        LeavesAllLag(t2);
        ValidIs();
      }
      ValidFacts();
    }

    /** IncrementalRehash: walk one bucket destructively, pushing every node into table 2. */
    method IncrementalRehash()
      requires Valid()
      modifies this
      ensures Valid() && m == old(m) && used == old(used)
      ensures !old(InRehashing()) ==> t1 == old(t1) && !InRehashing()
      ensures old(InRehashing()) && old(idx) + 1 < old(|t1|) ==> idx == old(idx) + 1 && |t1| == old(|t1|)
      ensures old(InRehashing()) && old(idx) + 1 == old(|t1|) ==> !InRehashing() && |t1| == 2 * old(|t1|)
      ensures old(InRehashing()) ==> StepsLeft() == old(StepsLeft()) - 1 && (!InRehashing() ==> used < |t1|)
      ensures -1 <= idx < |t1| && used <= |t1| + old(Done())
      ensures old(Shallow()) ==> Shallow()
      ensures Stepped(old(t1), old(t2), old(idx), hash, t1, t2, idx)
    {
      ValidFacts();
      if !InRehashing() {
        NotStepped(t1, t2, hash, t1, t2, idx);
        return;
      }
      MigrateBucket();
      ValidFacts();
    }

    method MigrateBucket()
      requires Valid() && InRehashing()
      modifies `idx, `t1, `t2, `mask1, `mask2
      ensures Valid() && Stepped(old(t1), old(t2), old(idx), hash, t1, t2, idx)
      ensures old(idx) + 1 < old(|t1|) ==> idx == old(idx) + 1 && |t1| == old(|t1|)
      ensures old(idx) + 1 == old(|t1|) ==> idx == -1 && |t1| == 2 * old(|t1|) && used < |t1|
      ensures old(Shallow()) ==> Shallow()
    {
      EmptyBucket();
      LeavesAllLag([]);
      PassBucket();
    }

    /** The bucket under migration is empty now. */
    ghost predicate Passable()
      reads this
    {
      forall x :: Broken(x) ==>
        0 <= idx < |t1| && AllKeyed(t1) && AllKeyed(t2) && Filed() && used == |m| && used <= |t1| + idx &&
        Inv(View(), hash, m) && Home(View(), hash, m, idx + 1) && t1[idx] == Leaf &&
        mask1 == SizeMask(|t1|) && mask2 == SizeMask(|t2|)
    }

    method EmptyBucket()
      requires Valid() && InRehashing()
      modifies `t1, `t2
      ensures Passable() && 0 <= idx < |t1| == old(|t1|) && t1 == old(t1)[idx := Leaf]
      ensures old(Shallow()) ==> Shallow()
      ensures Sent(old(t2), t2, |t1|, idx, PostOrder(old(t1)[idx]), Above(hash, 2 * |t1|, idx))
    {
      WalkBucket();
      ResetBucket();
    }

    /** The root of the walked bucket becomes null. */
    method ResetBucket()
      requires Walked()
      modifies `t1
      ensures Passable() && t1 == old(t1)[idx := Leaf] && (old(AllLag(t1)) ==> AllLag(t1))
    {
      WalkEnds(t1, t2, idx, hash, m);
      EmptyAllLag(t1, idx);
      t1 := t1[idx := Leaf];
    }

    /** ReuseAllNodes on the bucket under migration, with a push into table 2 as the callback. */
    method WalkBucket()
      requires Valid() && InRehashing()
      modifies this`t2
      ensures Walked() && (old(AllLag(t2)) ==> AllLag(t2))
      ensures Sent(old(t2), t2, |t1|, idx, PostOrder(t1[idx]), Above(hash, 2 * |t1|, idx))
    {
      StartWalk();
      t2 := PushNodes(PostOrder(t1[idx]), t2, mask2, hash, t1, idx, m);
    }

    /** The state after the walk. */
    ghost predicate Walked()
      reads this
    {
      Walking(t1, t2, idx, hash, m, []) && 0 <= idx < |t1| && AllKeyed(t1) && Filed() &&
      mask1 == SizeMask(|t1|) && mask2 == SizeMask(|t2|) && used == |m| <= |t1| + idx
    }

    lemma StartWalk()
      requires Valid() && InRehashing()
      ensures 0 <= idx < |t1| && AllKeyed(t1) && Filed() && used == |m| <= |t1| + idx
      ensures mask1 == SizeMask(|t1|) && mask2 == SizeMask(|t2|)
      ensures Walking(t1, t2, idx, hash, m, PostOrder(t1[idx])) && |t2| == 2 * |t1|
    {
      ValidIs();
      var log := PostOrder(t1[idx]);
      PostOrderDict(t1[idx]);
      assert Maps(t1)[idx := Dict(Pairs(log))] == Maps(t1);
      var from := idx + 1;
      forall k: int
        ensures HomeKey(View(), hash, m, from, k)
      {
        assert HomeKey(View(), hash, m, idx, k);
      }
    }

    /** The end of a migration step. */
    method PassBucket()
      requires Passable()
      modifies this`idx, this`t1, this`t2, this`mask1, this`mask2
      ensures Valid()
      ensures old(idx) + 1 < old(|t1|) ==> idx == old(idx) + 1 && |t1| == old(|t1|)
      ensures old(idx) + 1 == old(|t1|) ==> idx == -1 && |t1| == 2 * old(|t1|) && used < |t1|
      ensures old(idx) + 1 == old(|t1|) ==> t1 == old(t2) && t2 == []
      ensures old(idx) + 1 < old(|t1|) ==> t1 == old(t1) && t2 == old(t2)
    {
      assert Broken(Seal);
      assert TDict(Leaf) == map[];
      if idx + 1 < |t1| {
        Advance(View(), hash, m);
        ghost var was, from := View(), idx + 1;
        idx := idx + 1;
        forall k: int
          ensures HomeKey(View(), hash, m, from, k)
        {
          assert HomeKey(was, hash, m, from, k);
        }
      } else {
        Finish(View(), hash, m);
        idx := -1;
        t1, t2 := t2, [];
        mask1, mask2 := mask2, mask1;
        assert Maps(t2) == [];
        forall k: int
          ensures HomeKey(View(), hash, m, -1, k)
        {
          assert HoldsKey(View(), hash, m, k);
        }
      }
      ValidIs();
    }

    /** bucket->Find(key) on a bucket value. */
    function FindIn(t: Tree, key: int): Node? {
      Ptr(Descend(Top, t, key).1)
    }

    /** Link a node of height `h` into its table-1 bucket. */
    method Link1(node: Node, h: nat)
      requires Valid() && node.key !in m && BucketIndex1(node.key) >= idx && used < |t1| + Done()
      modifies this`t1, this`used, this`m
      ensures Valid() && m == old(m)[node.key := node] && used == old(used) + 1 && |t1| == old(|t1|)
      ensures old(AllLag(t1)) && h <= 1 ==> AllLag(t1)
      ensures PushedTo(old(t1), t1, hash, node, h)
    {
      ValidIs();
      KeyWhere(node.key);
      ghost var was := View();
      LinkBucket1(node, h);
      used := used + 1;
      Note(node, was);
    }

    /** The bucket update of Link1; the counter and the map follow. */
    method LinkBucket1(node: Node, h: nat)
      requires Sound() && node.key !in m && BucketIndex1(node.key) >= idx
      modifies this`t1
      ensures |t1| == old(|t1|) && AllKeyed(t1) && Inv(View(), hash, m[node.key := node])
      ensures forall k :: In(Maps(old(t1)), hash, k) ==> In(Maps(t1), hash, k)
      ensures In(Maps(t1), hash, node.key)
      ensures old(AllLag(t1)) && h <= 1 ==> AllLag(t1)
      ensures PushedTo(old(t1), t1, hash, node, h)
    {
      KeyWhere(node.key);
      var b := BucketIndex1(node.key);
      PushDict(t1[b], node, h);
      PushAllLag(t1, b, node, h);
      Put1(View(), hash, m, node.key, node);
      ghost var s := View().(a1 := Maps(t1)[b := TDict(t1[b])[node.key := node]]);
      MapsUpdate(t1, b, AvlShape.Push(t1[b], node, h));
      t1 := t1[b := AvlShape.Push(t1[b], node, h)];
      assert View() == s;
    }

    lemma HomePut(s: Tables<int, Node>, u: Tables<int, Node>, key: int, m0: map<int, Node>, node: Node)
      requires Home(s, hash, m0, s.idx) && |u.a1| == |s.a1| && u.idx == s.idx
      requires forall k :: In(s.a1, hash, k) ==> In(u.a1, hash, k)
      requires Index(hash, key, |s.a1|) >= s.idx ==> In(u.a1, hash, key)
      ensures Home(u, hash, m0[key := node], s.idx)
    {
      var m1, from := m0[key := node], s.idx;
      forall k: int
        ensures HomeKey(u, hash, m1, from, k)
      {
        assert HomeKey(s, hash, m0, from, k);
      }
    }

    /** Push into table 1 during a migration: only afterwards does the source look for the key in
        table 2.  By then it would be too late, but the key can never be there. */
    method PushThenCheck(node: Node, h: nat) returns (ok: bool)
      requires Valid() && InRehashing() && used < |t1| + Done() && idx <= BucketIndex1(node.key) < |t1|
      requires node.key !in TDict(t1[BucketIndex1(node.key)])
      modifies this`t1, this`used, this`m
      ensures ok
      ensures Valid() && node.key !in old(m) && m == old(m)[node.key := node] && |t1| == old(|t1|)
      ensures old(AllLag(t1)) && h <= 1 ==> AllLag(t1)
      ensures PushedTo(old(t1), t1, hash, node, h)
    {
      Lookup(node.key);
      ValidIs();
      ghost var was := View();
      LinkBucket1(node, h);
      ok := FindIn(t2[BucketIndex2(node.key)], node.key) == null;
      if ok {
        used := used + 1;
      }
      Note(node, was);
    }

    /** The map follows a link into table 1. */
    ghost method Note(node: Node, was: Tables<int, Node>)
      requires node.key !in m && used == |m| + 1 <= |t1| + Done() && Filed() && AllKeyed(t1) && AllKeyed(t2)
      requires mask1 == SizeMask(|t1|) && (idx >= 0 ==> mask2 == SizeMask(|t2|))
      requires Home(was, hash, m, idx) && was.idx == idx && |was.a1| == |t1| && In(Maps(t1), hash, node.key)
      requires Inv(View(), hash, m[node.key := node]) && forall k :: In(was.a1, hash, k) ==> In(Maps(t1), hash, k)
      modifies `m
      ensures Valid() && m == old(m)[node.key := node]
    {
      HomePut(was, View(), node.key, m, node);
      m := m[node.key := node];
      ValidIs();
    }

    /** Link a node of height `h` into its table-2 bucket. */
    method Link2(node: Node, h: nat)
      requires Valid() && node.key !in m && BucketIndex1(node.key) < idx && used < |t1| + Done()
      modifies this`t2, this`used, this`m
      ensures Valid() && m == old(m)[node.key := node] && used == old(used) + 1 && |t2| == old(|t2|)
      ensures old(AllLag(t2)) && h <= 1 ==> AllLag(t2)
      ensures PushedTo(old(t2), t2, hash, node, h)
    {
      ValidIs();
      KeyWhere(node.key);
      ghost var was := View();
      LinkBucket2(node, h);
      used := used + 1;
      m := m[node.key := node];
      HomePut(was, View(), node.key, old(m), node);
      ValidIs();
    }

    method LinkBucket2(node: Node, h: nat)
      requires Sound() && node.key !in m && BucketIndex1(node.key) < idx
      modifies this`t2
      ensures |t2| == old(|t2|) && AllKeyed(t2) && Inv(View(), hash, m[node.key := node])
      ensures old(AllLag(t2)) && h <= 1 ==> AllLag(t2)
      ensures PushedTo(old(t2), t2, hash, node, h)
    {
      KeyWhere(node.key);
      ghost var was := View();
      var b := BucketIndex2(node.key);
      PushDict(t2[b], node, h);
      PushAllLag(t2, b, node, h);
      Put2(was, hash, m, node.key, node);
      MapsUpdate(t2, b, AvlShape.Push(t2[b], node, h));
      t2 := t2[b := AvlShape.Push(t2[b], node, h)];
      assert View() == was.(a2 := was.a2[b := was.a2[b][node.key := node]]);
    }

    /** What every insertion does first: there is room for one more entry then. */
    method MakeRoom()
      requires Valid()
      modifies this
      ensures Valid() && m == old(m) && -1 <= idx < |t1| && used < |t1| + Done()
      ensures old(InRehashing()) ==> StepsLeft() == old(StepsLeft()) - 1
      ensures old(Shallow()) ==> Shallow()
      ensures old(Due()) ==> Stepped(old(t1), Grown(old(|t1|)), 0, hash, t1, t2, idx)
      ensures !old(Due()) ==> Stepped(old(t1), old(t2), old(idx), hash, t1, t2, idx)
    {
      ValidFacts();
      Rehash();
      IncrementalRehash();
    }

    /** PushWithDuplicate with a null `duplicate`.  The tables after the migration step are `u1` and `u2`. */
    method Push(node: Node) returns (ok: bool, ghost u1: seq<Tree>, ghost u2: seq<Tree>)
      requires Valid()
      modifies this
      ensures Valid() && (ok <==> node.key !in old(m))
      ensures m == if ok then old(m)[node.key := node] else old(m)
      ensures old(InRehashing()) ==> StepsLeft() == old(StepsLeft()) - 1
      ensures old(Shallow()) && node.height <= 1 ==> Shallow()
      ensures old(Due()) ==> Stepped(old(t1), Grown(old(|t1|)), 0, hash, u1, u2, idx)
      ensures !old(Due()) ==> Stepped(old(t1), old(t2), old(idx), hash, u1, u2, idx)
      ensures if ok then LinkedIn(u1, u2, t1, t2, idx, hash, node, node.height) else t1 == u1 && t2 == u2
    {
      MakeRoom();
      u1, u2 := t1, t2;
      ok := PushIn(node);
    }

    /** The rest of Push: search and link. */
    method PushIn(node: Node) returns (ok: bool)
      requires Valid() && used < |t1| + Done()
      modifies `t1, `t2, `used, `m
      ensures Valid() && (ok <==> node.key !in old(m)) && |t1| == old(|t1|)
      ensures m == if ok then old(m)[node.key := node] else old(m)
      ensures old(Shallow()) && node.height <= 1 ==> Shallow()
      ensures ok ==> LinkedIn(old(t1), old(t2), t1, t2, idx, hash, node, node.height)
      ensures !ok ==> t1 == old(t1) && t2 == old(t2)
    {
      Lookup(node.key);
      var b1 := BucketIndex1(node.key);
      if !InRehashing() || idx <= b1 {
        if FindIn(t1[b1], node.key) != null {
          return false;
        }
        if !InRehashing() {
          Link1(node, node.height);
          ok := true;
        } else {
          ok := PushThenCheck(node, node.height);
        }
      } else {
        if FindIn(t2[BucketIndex2(node.key)], node.key) != null {
          return false;
        }
        Link2(node, node.height);
        ok := true;
      }
    }

    /** InsertWithDuplicate: the same placement, but table 2 is searched first, and the node is created with
        height 1.  The tables after the migration step are `u1` and `u2`. */
    method InsertWithDuplicate(key: int) returns (ok: bool, dup: Node, ghost u1: seq<Tree>, ghost u2: seq<Tree>)
      requires Valid()
      modifies this
      ensures Valid() && (ok <==> key !in old(m)) && dup.key == key
      ensures ok ==> fresh(dup) && dup.height == 1
      ensures m == old(m)[key := dup] && (!ok ==> m == old(m))
      ensures old(InRehashing()) ==> StepsLeft() == old(StepsLeft()) - 1
      ensures old(Shallow()) ==> Shallow()
      ensures old(Due()) ==> Stepped(old(t1), Grown(old(|t1|)), 0, hash, u1, u2, idx)
      ensures !old(Due()) ==> Stepped(old(t1), old(t2), old(idx), hash, u1, u2, idx)
      ensures if ok then LinkedIn(u1, u2, t1, t2, idx, hash, dup, 1) else t1 == u1 && t2 == u2
      ensures AllBalanced(u1) ==> AllBalanced(t1)
      ensures AllBalanced(u2) ==> AllBalanced(t2)
      ensures !old(InRehashing()) && !old(Due()) && AllBalanced(old(t1)) ==> AllBalanced(t1)
    {
      MakeRoom();
      u1, u2 := t1, t2;
      if !old(InRehashing()) && !old(Due()) {
        NotStepped(old(t1), old(t2), hash, t1, t2, idx);
      }
      ok, dup := InsertIn(key);
      if ok {
        LinkedBalanced(u1, u2, t1, t2, idx, hash, dup);
      }
    }

    /** The rest of InsertWithDuplicate: search, create and link. */
    method InsertIn(key: int) returns (ok: bool, dup: Node)
      requires Valid() && used < |t1| + Done()
      modifies `t1, `t2, `used, `m
      ensures Valid() && (ok <==> key !in old(m)) && dup.key == key && |t1| == old(|t1|)
      ensures ok ==> fresh(dup) && dup.height == 1
      ensures m == old(m)[key := dup] && (!ok ==> m == old(m))
      ensures old(Shallow()) ==> Shallow()
      ensures ok ==> LinkedIn(old(t1), old(t2), t1, t2, idx, hash, dup, 1)
      ensures !ok ==> t1 == old(t1) && t2 == old(t2)
    {
      Lookup(key);
      if key in m {
        FiledAs(key);
      }
      var b1 := BucketIndex1(key);
      if InRehashing() {
        var d := FindIn(t2[BucketIndex2(key)], key);
        if d != null {
          return false, d;
        }
      }
      if !InRehashing() || idx <= b1 {
        var d := FindIn(t1[b1], key);
        if d != null {
          return false, d;
        }
      }
      dup := LinkNew(key);
      ok := true;
    }

    /** Link a created node where its key belongs. */
    method LinkNew(key: int) returns (node: Node)
      requires Valid() && key !in m && used < |t1| + Done()
      modifies `t1, `t2, `used, `m
      ensures Valid() && m == old(m)[key := node] && |t1| == old(|t1|)
      ensures fresh(node) && node.height == 1 && node.key == key
      ensures old(Shallow()) ==> Shallow()
      ensures LinkedIn(old(t1), old(t2), t1, t2, idx, hash, node, 1)
    {
      Lookup(key);
      node := new Node(key);
      if !InRehashing() || idx <= BucketIndex1(key) {
        Link1(node, 1);
      } else {
        Link2(node, 1);
      }
    }

    /** FindNode */
    method FindNode(key: int) returns (node: Node?)
      requires Valid()
      modifies this
      ensures Valid() && m == old(m)
      ensures node == if key in m then m[key] else null
      ensures old(InRehashing()) ==> StepsLeft() == old(StepsLeft()) - 1
      ensures old(Shallow()) ==> Shallow()
      ensures Stepped(old(t1), old(t2), old(idx), hash, t1, t2, idx)
    {
      IncrementalRehash();
      Lookup(key);
      node := FindIn(t1[BucketIndex1(key)], key);
      if node == null && InRehashing() {
        node := FindIn(t2[BucketIndex2(key)], key);
      }
    }

    lemma HomeTake(s: Tables<int, Node>, u: Tables<int, Node>, key: int, m0: map<int, Node>)
      requires Home(s, hash, m0, s.idx) && |u.a1| == |s.a1| && u.idx == s.idx
      requires forall k :: In(s.a1, hash, k) && k != key ==> In(u.a1, hash, k)
      ensures Home(u, hash, m0 - {key}, s.idx)
    {
      var m1, from := m0 - {key}, s.idx;
      forall k: int
        ensures HomeKey(u, hash, m1, from, k)
      {
        assert HomeKey(s, hash, m0, from, k);
      }
    }

    method Unlink1(key: int)
      requires Valid() && key in m && BucketIndex1(key) >= idx
      modifies this`t1, this`used, this`m
      ensures Valid() && m == old(m) - {key} && used == old(used) - 1 && |t1| == old(|t1|)
      ensures old(AllLag(t1)) ==> AllLag(t1)
      ensures TakenFrom(old(t1), t1, hash, key)
    {
      ValidIs();
      KeyWhere(key);
      ghost var was := View();
      UnlinkBucket1(key);
      used := used - 1;
      m := m - {key};
      HomeTake(was, View(), key, old(m));
      ValidIs();
    }

    method UnlinkBucket1(key: int)
      requires Sound() && key in m && BucketIndex1(key) >= idx
      modifies this`t1
      ensures |t1| == old(|t1|) && AllKeyed(t1) && Inv(View(), hash, m - {key})
      ensures forall k :: In(Maps(old(t1)), hash, k) && k != key ==> In(Maps(t1), hash, k)
      ensures old(AllLag(t1)) ==> AllLag(t1)
      ensures TakenFrom(old(t1), t1, hash, key)
    {
      KeyWhere(key);
      ghost var was := View();
      var b := BucketIndex1(key);
      RemoveDict(t1[b], key);
      RemoveAllLag(t1, b, key);
      assert In(was.a1, hash, key);
      Take1(was, hash, m, key);
      MapsUpdate(t1, b, Remove(t1[b], key));
      t1 := t1[b := Remove(t1[b], key)];
      assert View() == was.(a1 := was.a1[b := was.a1[b] - {key}]);
    }

    method Unlink2(key: int)
      requires Valid() && key in m && BucketIndex1(key) < idx
      modifies this`t2, this`used, this`m
      ensures Valid() && m == old(m) - {key} && used == old(used) - 1
      ensures old(AllLag(t2)) ==> AllLag(t2)
      ensures TakenFrom(old(t2), t2, hash, key)
    {
      ValidIs();
      KeyWhere(key);
      ghost var was := View();
      UnlinkBucket2(key);
      used := used - 1;
      m := m - {key};
      HomeTake(was, View(), key, old(m));
      ValidIs();
    }

    method UnlinkBucket2(key: int)
      requires Sound() && key in m && BucketIndex1(key) < idx
      modifies this`t2
      ensures |t2| == old(|t2|) && AllKeyed(t2) && Inv(View(), hash, m - {key})
      ensures old(AllLag(t2)) ==> AllLag(t2)
      ensures TakenFrom(old(t2), t2, hash, key)
    {
      KeyWhere(key);
      ghost var was := View();
      var b := BucketIndex2(key);
      RemoveDict(t2[b], key);
      RemoveAllLag(t2, b, key);
      assert In(was.a2, hash, key);
      Take2(was, hash, m, key);
      MapsUpdate(t2, b, Remove(t2[b], key));
      t2 := t2[b := Remove(t2[b], key)];
      assert View() == was.(a2 := was.a2[b := was.a2[b] - {key}]);
    }

    /** Extract.  The tables after the migration step are `u1` and `u2`. */
    method Extract(key: int) returns (node: Node?, ghost u1: seq<Tree>, ghost u2: seq<Tree>)
      requires Valid()
      modifies this
      ensures Valid() && m == old(m) - {key}
      ensures node == if key in old(m) then old(m)[key] else null
      ensures old(InRehashing()) ==> StepsLeft() == old(StepsLeft()) - 1
      ensures old(Shallow()) ==> Shallow()
      ensures Stepped(old(t1), old(t2), old(idx), hash, u1, u2, idx)
      ensures if node != null then UnlinkedFrom(u1, u2, t1, t2, idx, hash, key) else t1 == u1 && t2 == u2
    {
      IncrementalRehash();
      u1, u2 := t1, t2;
      node := Take(key);
    }

    /** The rest of Extract: search both tables and unlink. */
    method Take(key: int) returns (node: Node?)
      requires Valid()
      modifies this`t1, this`t2, this`used, this`m
      ensures Valid() && m == old(m) - {key} && |t1| == old(|t1|)
      ensures node == if key in old(m) then old(m)[key] else null
      ensures old(Shallow()) ==> Shallow()
      ensures node != null ==> UnlinkedFrom(old(t1), old(t2), t1, t2, idx, hash, key)
      ensures node == null ==> t1 == old(t1) && t2 == old(t2)
    {
      Lookup(key);
      node := FindIn(t1[BucketIndex1(key)], key);
      if node != null {
        Unlink1(key);
      } else if InRehashing() {
        node := FindIn(t2[BucketIndex2(key)], key);
        if node != null {
          Unlink2(key);
        }
      }
    }

    /** Erase */
    method Erase(key: int) returns (n: nat)
      requires Valid()
      modifies this
      ensures Valid() && m == old(m) - {key} && n == old(|m|) - |m|
      ensures old(Shallow()) ==> Shallow()
    {
      var node;
      ghost var u1, u2;
      node, u1, u2 := Extract(key);
      n := if node == null then 0 else 1;
    }

    /** Clear */
    method Clear()
      requires Valid()
      modifies this
      ensures Valid() && m == map[] && |t1| == 4 && !InRehashing() && (old(Shallow()) ==> Shallow())
    {
      ValidIs();
      t1 := [Leaf, Leaf, Leaf, Leaf];
      mask1 := SizeMask(4);
      used := 0;
      if InRehashing() {
        t2 := [];
        mask2 := SizeMask(0);
      }
      idx := -1;
      m := map[];
      EmptyInv<int, Node>(hash);
      assert Maps(t1) == Empty(4) && Maps(t2) == [];
      LeavesAllLag(t1);
      LeavesAllLag([]);
      ValidIs();
    }
  }
}
