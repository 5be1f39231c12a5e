/** Cluster configurations: which node holds which shards, and the arithmetic of a join. */
module ShardSpec {
  import opened Basics

  /** The shards each node holds. */
  type Conf = map<nat, seq<nat>>

  /** All the shards held, with repetition. */
  ghost function Bag<K>(c: map<K, seq<nat>>): multiset<nat>
    decreases c.Keys
  {
    if c.Keys == {} then multiset{}
    else
      var id :| id in c.Keys;
      multiset(c[id]) + Bag(c - {id})
  }

  /** It does not matter which node is counted first. */
  lemma {:induction false} BagPick<K>(c: map<K, seq<nat>>, id: K)
    requires id in c
    ensures Bag(c) == multiset(c[id]) + Bag(c - {id})
    decreases c.Keys
  {
    var p :| p in c.Keys && Bag(c) == multiset(c[p]) + Bag(c - {p});
    if p != id {
      BagPick(c - {p}, id);
      BagPick(c - {id}, p);
      assert c - {p} - {id} == c - {id} - {p};
    }
  }

  lemma BagPut<K>(c: map<K, seq<nat>>, id: K, s: seq<nat>)
    requires id !in c
    ensures Bag(c[id := s]) == Bag(c) + multiset(s)
  {
    BagPick(c[id := s], id);
    assert c[id := s] - {id} == c;
  }

  lemma BagSet<K>(c: map<K, seq<nat>>, id: K, s: seq<nat>)
    requires id in c
    ensures Bag(c[id := s]) + multiset(c[id]) == Bag(c) + multiset(s)
  {
    BagPick(c, id);
    BagPick(c[id := s], id);
    assert c[id := s] - {id} == c - {id};
  }

  function Upto(n: nat): (s: seq<nat>)
    ensures |s| == n && forall i :: 0 <= i < n ==> s[i] == i
  {
    seq(n, i requires 0 <= i < n => i)
  }

  /** Every shard below `n` is held, by one node and once, and nothing else is. */
  ghost predicate Partition(n: nat, c: Conf) {
    Bag(c) == multiset(Upto(n))
  }

  predicate AboutAt(c: Conf, id: nat, q: nat) {
    id in c && q <= |c[id]| <= q + 1
  }

  /** Sizes are `q` or one more. */
  ghost predicate Even(c: Conf, q: nat) {
    forall id :: id in c ==> AboutAt(c, id, q)
  }

  /** A configuration a cluster of `n` shards may have: empty, or a partition into even parts. */
  ghost predicate Good(n: nat, c: Conf) {
    forall x :: Broken(x) ==> c.Keys == {} || (|c.Keys| <= n && Partition(n, c) && Even(c, n / |c.Keys|))
  }

  lemma GoodIs(n: nat, c: Conf)
    ensures Good(n, c) <==> c.Keys == {} || (|c.Keys| <= n && Partition(n, c) && Even(c, n / |c.Keys|))
  {
    assert Broken(Seal);
  }

  // ---------- what a good configuration promises ----------

  lemma OnceUpto(n: nat, s: nat)
    ensures multiset(Upto(n))[s] == if s < n then 1 else 0
  {
    if n > 0 {
      OnceUpto(n - 1, s);
      assert Upto(n) == Upto(n - 1) + [n - 1];
    }
  }

  lemma {:induction false} Holder<K>(c: map<K, seq<nat>>, s: nat) returns (id: K)
    requires Bag(c)[s] > 0
    ensures id in c && s in c[id]
    decreases c.Keys
  {
    id :| id in c.Keys && Bag(c) == multiset(c[id]) + Bag(c - {id});
    if s !in c[id] {
      id := Holder(c - {id}, s);
    }
  }

  predicate Holds(c: Conf, id: nat, s: nat) {
    id in c && s in c[id]
  }

  lemma HeldTwice(c: Conf, s: nat, id: nat, other: nat)
    requires Holds(c, id, s) && Holds(c, other, s) && id != other
    ensures Bag(c)[s] > 1
  {
    BagPick(c, id);
    BagPick(c - {id}, other);
    assert multiset(c[id])[s] > 0 && multiset(c[other])[s] > 0;
  }

  lemma HeldOnce(n: nat, c: Conf, id: nat, s: nat)
    requires Partition(n, c) && Holds(c, id, s)
    ensures s < n && multiset(c[id])[s] == 1
  {
    OnceUpto(n, s);
    BagPick(c, id);
    assert multiset(c[id])[s] > 0;
  }

  /** In a partition exactly the shards below `n` have an owner, only one, which lists them once. */
  lemma OneOwner(n: nat, c: Conf, s: nat)
    requires Partition(n, c)
    ensures s < n <==> exists id :: Holds(c, id, s)
    ensures forall id, other :: Holds(c, id, s) && Holds(c, other, s) ==> id == other
    ensures forall id :: Holds(c, id, s) ==> multiset(c[id])[s] == 1
  {
    OnceUpto(n, s);
    if s < n {
      var id := Holder(c, s);
      assert Holds(c, id, s);
    }
    forall id, other | Holds(c, id, s) && Holds(c, other, s)
      ensures id == other
    {
      if id != other {
        HeldTwice(c, s, id, other);
      }
    }
    forall id | Holds(c, id, s)
      ensures s < n && multiset(c[id])[s] == 1
    {
      HeldOnce(n, c, id, s);
    }
  }

  /** Every node of a good configuration holds something, and no two differ by more than one shard. */
  lemma EvenSizes(n: nat, c: Conf, id: nat, other: nat)
    requires Good(n, c) && id in c && other in c
    ensures 1 <= |c[id]| <= |c[other]| + 1
  {
    assert c.Keys != {};
    GoodIs(n, c);
    QuotientPositive(n, |c.Keys|);
    assert AboutAt(c, id, n / |c.Keys|) && AboutAt(c, other, n / |c.Keys|);
  }

  lemma QuotientPositive(n: nat, k: nat)
    requires 0 < k <= n
    ensures n / k >= 1
  {
  }

  // ---------- counting shards along an iteration of the map ----------

  /** A map is walked in some order that meets every key once. */
  ghost predicate Walks(order: seq<nat>, keys: set<nat>) {
    (forall i :: 0 <= i < |order| ==> order[i] in keys) && (forall k :: k in keys ==> k in order) &&
    (forall i, j :: 0 <= i < j < |order| ==> order[i] != order[j])
  }

  function Size(c: Conf, id: nat): nat {
    if id in c then |c[id]| else 0
  }

  /** How much the first `k` nodes hold above `q` each. */
  function Surplus(c: Conf, order: seq<nat>, k: nat, q: nat): int
    requires k <= |order|
  {
    if k == 0 then 0 else Surplus(c, order, k - 1, q) + Size(c, order[k - 1]) - q
  }

  lemma {:induction false} SurplusSame(c: Conf, order: seq<nat>, d: Conf, init: seq<nat>, k: nat, q: nat)
    requires k <= |init| <= |order|
    requires forall i :: 0 <= i < |init| ==> order[i] == init[i] && Size(c, order[i]) == Size(d, init[i])
    ensures Surplus(c, order, k, q) == Surplus(d, init, k, q)
  {
    if k > 0 {
      SurplusSame(c, order, d, init, k - 1, q);
    }
  }

  lemma WalksInit(order: seq<nat>, keys: set<nat>)
    requires Walks(order, keys) && order != []
    ensures Walks(order[..|order| - 1], keys - {order[|order| - 1]})
  {
    var init, last := order[..|order| - 1], order[|order| - 1];
    forall k | k in keys - {last}
      ensures k in init
    {
      var i :| 0 <= i < |order| && order[i] == k;
      assert init[i] == k;
    }
  }

  function Times(k: nat, q: nat): nat {
    if k == 0 then 0 else Times(k - 1, q) + q
  }

  lemma {:induction false} TimesIs(k: nat, q: nat)
    ensures Times(k, q) == k * q
  {
    if k > 0 {
      TimesIs(k - 1, q);
      assert k * q == (k - 1) * q + q;
    }
  }

  /** So many shards are held in all. */
  ghost predicate Weighs<K>(c: map<K, seq<nat>>, n: int) {
    forall x :: Broken(x) ==> |Bag(c)| == n
  }

  lemma WeighsEmpty<K>(c: map<K, seq<nat>>)
    requires |c.Keys| == 0
    ensures Weighs(c, 0)
  {
  }

  lemma WeighsPick<K>(c: map<K, seq<nat>>, id: K, n: int)
    requires id in c && Weighs(c - {id}, n)
    ensures Weighs(c, n + |c[id]|)
  {
    assert Broken(Seal);
    BagPick(c, id);
  }

  lemma WeighsIs<K>(c: map<K, seq<nat>>, n: int)
    requires Weighs(c, n)
    ensures |Bag(c)| == n
  {
    assert Broken(Seal);
  }

  lemma NoNodes(keys: set<nat>)
    requires Walks([], keys)
    ensures |keys| == 0
  {
    if |keys| > 0 {
      var k := Member(keys);
    }
  }

  lemma {:induction false} WalksSize(order: seq<nat>, keys: set<nat>)
    requires Walks(order, keys)
    ensures |order| == |keys|
  {
    if order == [] {
      NoNodes(keys);
    } else {
      WalksInit(order, keys);
      WalksSize(order[..|order| - 1], keys - {order[|order| - 1]});
    }
  }

  lemma SurplusLast(c: Conf, order: seq<nat>, q: nat)
    requires Walks(order, c.Keys) && order != []
    ensures var n := |order| - 1;
      order[n] in c && Walks(order[..n], (c - {order[n]}).Keys) &&
      Surplus(c, order, n, q) == Surplus(c - {order[n]}, order[..n], n, q)
  {
    var n := |order| - 1;
    WalksInit(order, c.Keys);
    KeysWithout(c, order[n]);
    SurplusSame(c, order, c - {order[n]}, order[..n], n, q);
  }

  /** What the nodes hold above their quotas, and the quotas, are all the shards. */
  ghost predicate Adds(c: Conf, order: seq<nat>, q: nat) {
    Weighs(c, Surplus(c, order, |order|, q) + Times(|order|, q))
  }

  lemma SurplusStep(c: Conf, order: seq<nat>, q: nat, d: Conf, init: seq<nat>)
    requires order != [] && |init| == |order| - 1 && order[|init|] in c && d == c - {order[|init|]} && Adds(d, init, q)
    requires Surplus(c, order, |init|, q) == Surplus(d, init, |init|, q)
    ensures Adds(c, order, q)
  {
    WeighsPick(c, order[|init|], Surplus(d, init, |init|, q) + Times(|init|, q));
  }

  lemma {:induction false} SurplusAll(c: Conf, order: seq<nat>, q: nat)
    requires Walks(order, c.Keys)
    ensures Adds(c, order, q)
  {
    if order == [] {
      NoNodes(c.Keys);
      WeighsEmpty(c);
    } else {
      var n := |order| - 1;
      SurplusLast(c, order, q);
      SurplusAll(c - {order[n]}, order[..n], q);
      SurplusStep(c, order, q, c - {order[n]}, order[..n]);
    }
  }
}
