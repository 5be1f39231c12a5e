/** ShardControllerServer and the joins and completions its sessions perform on it. */
module ShardControllerModel {
  import opened ShardSpec
  import opened ShardPlan
  import opened ShardQueue

  datatype Reply =
    | Accepted(node: nat, infos: seq<Info>)
    | NodeHasAdded
    | NodeFull
    | Closed
    | ConfChange
    | Wait
    | Asserted

  const INVALID_NODE_ID: nat := 0xFFFF_FFFF_FFFF_FFFF

  /** The inner loop of Join: the shards from `end` on, last first. */
  method Pull(shards: seq<nat>, end: nat) returns (got: seq<nat>)
    requires end <= |shards|
    ensures |got| == |shards| - end && forall j :: 0 <= j < |got| ==> got[j] == shards[|shards| - 1 - j]
  {
    got := [];
    var i := |shards|;
    while i > end
      invariant end <= i <= |shards| && |got| == |shards| - i
      invariant forall j :: 0 <= j < |got| ==> got[j] == shards[|shards| - 1 - j]
    {
      i := i - 1;
      got := got + [shards[i]];
    }
  }

  /** The loop of Join over the nodes of the recent configuration. */
  method Redistribute(recent: Conf, order: seq<nat>, atLeast: nat, moreThanOne: nat, ghost base: nat)
    returns (c: Conf, moved: seq<nat>, infos: seq<Info>)
    requires Walks(order, recent.Keys) && About(recent, order, |order|, base)
    requires Surplus(recent, order, |order|, atLeast) == atLeast + moreThanOne
    requires 1 <= atLeast <= base && moreThanOne <= |order|
    ensures Plan(recent, c, infos) && moved == Pulled(infos) && Bag(c) + multiset(moved) == Bag(recent)
    ensures |moved| == atLeast && About(c, order, |order|, atLeast)
    ensures Dealt(recent, c, order, |order|, atLeast, moreThanOne, infos)
  {
    var left := moreThanOne;
    LoopStart(recent, order, base, atLeast, moreThanOne);
    c, moved, infos := recent, [], [];
    for k := 0 to |order|
      invariant Looping(recent, c, order, k, base, atLeast, moreThanOne, left, moved, infos)
    {
      var id := order[k];
      LoopNext(recent, c, order, k, base, atLeast, moreThanOne, left, moved, infos);
      ghost var l := left;
      var size := |c[id]|;
      var diff := size - atLeast;
      assert diff >= 0;
      if left > 0 {
        if diff > 0 {
          diff, left := diff - 1, left - 1;
        } else {
          LoopSkip(recent, c, order, k, base, atLeast, moreThanOne, left, moved, infos);
          continue;
        }
      }
      var end := size - diff;
      var got := Pull(c[id], end);
      assert got == Reversed(c[id][end..]);
      LoopStep(recent, c, order, k, base, atLeast, moreThanOne, l, moved, infos, id, end, got, left);
      c, moved, infos := c[id := c[id][..end]], moved + got, infos + [Info(id, got)];
    }
    LoopEnds(recent, c, order, base, atLeast, moreThanOne, left, moved, infos);
  }

  /** Join of the first node, which gets everything. */
  method DistributeAll(n: nat, id: nat, ghost order: seq<nat>) returns (c: Conf, infos: seq<Info>)
    requires n > 0
    ensures Joined(n, map[], c, id, order, infos)
  {
    var all: seq<nat> := [];
    for i := 0 to n
      invariant all == Upto(i)
    {
      all := all + [i];
    }
    FirstJoined(n, id, order);
    c, infos := map[id := all], [];
  }

  /** Join of a later node, which takes its share from the others. */
  method DistributeShare(n: nat, recent: Conf, id: nat, order: seq<nat>, nodes: nat) returns (c: Conf, infos: seq<Info>)
    requires nodes == |recent.Keys| && 0 < nodes < n && Good(n, recent) && id !in recent && Walks(order, recent.Keys)
    ensures Joined(n, recent, c, id, order, infos)
  {
    GoodIs(n, recent);
    var atLeast, moreThanOne := n / (nodes + 1), n % (nodes + 1);
    Shares(n, recent, order, nodes, n / nodes, atLeast, moreThanOne);
    var moved;
    c, moved, infos := Redistribute(recent, order, atLeast, moreThanOne, n / nodes);
    assert Stage(recent, c, order, |order|, atLeast, moved, infos);
    LaterJoined(n, recent, order, c, id, moved, infos);
    c := c[id := moved];
  }

  /** The new configuration of a join. */
  method Distribute(n: nat, recent: Conf, id: nat, order: seq<nat>) returns (c: Conf, infos: seq<Info>)
    requires |recent.Keys| < n && Good(n, recent) && id !in recent && Walks(order, recent.Keys)
    ensures Joined(n, recent, c, id, order, infos)
  {
    if |recent| + 1 == 1 {
      c, infos := DistributeAll(n, id, order);
    } else {
      c, infos := DistributeShare(n, recent, id, order, |recent|);
    }
  }

  /** The shard has an owner in a good configuration. */
  predicate Owned(n: nat, c: Conf, s: nat) {
    c.Keys != {} && s < n
  }

  /** The inner loop of QueryNodeInfo: the nodes that list shard `s`. */
  method Owners(c: Conf, order: seq<nat>, s: nat, ghost n: nat) returns (owners: seq<nat>)
    requires Good(n, c) && Walks(order, c.Keys)
    ensures |owners| == if Owned(n, c, s) then 1 else 0
    ensures owners != [] ==> Holds(c, owners[0], s)
  {
    GoodIs(n, c);
    if c.Keys != {} {
      OneOwner(n, c, s);
    }
    owners := [];
    for k := 0 to |order|
      invariant owners == [] ==> forall j :: 0 <= j < k ==> !Holds(c, order[j], s)
      invariant owners != [] ==> |owners| == 1 && Holds(c, owners[0], s)
      invariant owners != [] ==> exists j :: 0 <= j < k && order[j] == owners[0]
    {
      if s in c[order[k]] {
        assert Holds(c, order[k], s);
        owners := owners + [order[k]];
      }
    }
  }

  /** QueryNodeInfo.  The asserted sizes are equal exactly when every queried shard is one of the cluster's
      and somebody has joined; then each has its one owner. */
  method QueryNodeInfo(c: Conf, order: seq<nat>, query: seq<nat>, ghost n: nat) returns (ok: bool, owners: seq<nat>)
    requires Good(n, c) && Walks(order, c.Keys)
    ensures ok <==> forall i :: 0 <= i < |query| ==> Owned(n, c, query[i])
    ensures ok ==> |owners| == |query| && forall i :: 0 <= i < |query| ==> Holds(c, owners[i], query[i])
  {
    owners := [];
    for i := 0 to |query|
      invariant |owners| <= i && (|owners| == i <==> forall j :: 0 <= j < i ==> Owned(n, c, query[j]))
      invariant |owners| == i ==> forall j :: 0 <= j < i ==> Holds(c, owners[j], query[j])
    {
      var found := Owners(c, order, query[i], n);
      owners := owners + found;
    }
    ok := |owners| == |query|;
  }

  ghost predicate Fit(n: nat, p: Pending) {
    p.key.node in p.conf && Good(n, p.conf)
  }

  /** What a join does to the queue it is built on. */
  lemma Pushed(n: nat, config: Conf, queue: seq<Pending>, p: Pending, order: seq<nat>, infos: seq<Info>)
    requires forall i :: 0 <= i < |queue| ==> Fit(n, queue[i])
    requires Joined(n, if queue == [] then config else queue[0].conf, p.conf, p.key.node, order, infos)
    ensures Chain(config, queue) ==> (Chain(config, queue + [p]) <==> |queue| <= 1)
    ensures KeepsAll(queue, p.conf) <==> FrontHas(queue, p.key.node)
    ensures Distinct(queue) ==> (KeepsAll(queue, p.conf) <==> FewPending(queue, p.key.node))
    ensures Fit(n, p)
  {
    if Distinct(queue) {
      LossCount(queue, p.key.node);
    }
    if Chain(config, queue) {
      ChainPush(config, queue, p);
    }
    LossIff(config, queue, p);
    assert p.key.node in p.conf.Keys;
  }

  class ShardController {
    const shardNum: nat
    var config: Conf
    var queue: seq<Pending>
    var waiters: set<Key>

    /** The installed configuration, unless it is still empty, and every pending one give each shard to
        one node, evenly; a pending one has the node it is for. */
    ghost predicate Valid()
      reads this
    {
      Good(shardNum, config) && forall i :: 0 <= i < |queue| ==> Fit(shardNum, queue[i])
    }

    /** GetRecentConf */
    function Recent(): Conf
      reads this
    {
      if queue == [] then config else queue[0].conf
    }

    constructor (shardNum: nat)
      ensures Valid() && this.shardNum == shardNum && config == map[] && queue == [] && waiters == {}
    {
      this.shardNum := shardNum;
      config, queue, waiters := map[], [], {};
    }

    /** Join.  `nodeId` is the id in the request, `newId` the generated one, `order` the order in which
        the recent configuration's map is iterated. */
    method Join(nodeId: nat, newId: nat, order: seq<nat>) returns (reply: Reply, ghost p: Pending)
      requires Valid() && newId !in Recent() && Walks(order, Recent().Keys)
      modifies `queue
      ensures Valid()
      ensures nodeId != INVALID_NODE_ID ==> reply == if nodeId in old(Recent()) then NodeHasAdded else Closed
      ensures nodeId == INVALID_NODE_ID ==> reply == NodeFull || reply.Accepted?
      ensures nodeId == INVALID_NODE_ID ==> (reply == NodeFull <==> |old(Recent()).Keys| >= shardNum)
      ensures !reply.Accepted? ==> queue == old(queue)
      ensures reply.Accepted? ==> reply.node == newId && queue == old(queue) + [p] && p.key == Key(JoinNode, newId)
      ensures reply.Accepted? ==> Joined(shardNum, old(Recent()), p.conf, newId, order, reply.infos)
      ensures reply.Accepted? && Chain(config, old(queue)) ==> (Chain(config, queue) <==> old(|queue|) <= 1)
      ensures reply.Accepted? ==> (KeepsAll(old(queue), p.conf) <==> FrontHas(old(queue), newId))
      ensures reply.Accepted? && Distinct(old(queue)) ==>
        (KeepsAll(old(queue), p.conf) <==> FewPending(old(queue), newId))
    {
      p := Pending(config, Key(JoinNode, newId));
      if nodeId != INVALID_NODE_ID {
        reply := if nodeId in Recent() then NodeHasAdded else Closed;
        return;
      }
      var recent := Recent();
      if |recent| + 1 > shardNum {
        reply := NodeFull;
        return;
      }
      var c, infos := Distribute(shardNum, recent, newId, order);
      var pending := Pending(c, Key(JoinNode, newId));
      Pushed(shardNum, config, queue, pending, order, infos);
      queue, p := queue + [pending], pending;
      reply := Accepted(newId, infos);
    }

    ghost function Now(): State
      reads this
    {
      State(config, queue, waiters)
    }

    /** CheckPendingConfSessionAndResponse; `ok` unless its assertion that something is pending fails. */
    method CheckPending(alive: set<Key>) returns (ok: bool)
      requires Valid()
      modifies this
      ensures Valid() && (ok <==> Stops(old(Now()), alive))
      ensures ok ==> Now() == Drain(old(Now()), alive)
    {
      while true
        invariant Valid() && (Stops(Now(), alive) <==> Stops(old(Now()), alive))
        invariant Stops(Now(), alive) ==> Drain(Now(), alive) == Drain(old(Now()), alive)
        decreases |queue|
      {
        if queue == [] {
          return false;
        }
        var p := queue[0];
        if p.key !in waiters {
          return true;
        }
        if p.key in alive {
          config := p.conf;
        } else {
          waiters := waiters - {p.key};
        }
        queue := queue[1..];
      }
    }

    /** ControllorOperationComplete.  `alive` are the waiters whose connection is still up.  The answer is
        Asserted when the assertion that something is pending fails, here or in the loop that follows. */
    method Complete(key: Key, alive: set<Key>) returns (reply: Reply)
      requires Valid()
      modifies this
      ensures Valid() && (reply == Asserted <==> !CanComplete(old(Now()), key, alive))
      ensures reply != Asserted ==>
        Now() == Completed(old(Now()), key, alive) && reply == if old(queue)[0].key == key then ConfChange else Wait
      ensures reply == Wait ==> config == old(config) && queue == old(queue) && waiters == old(waiters) + {key}
      ensures reply == ConfChange ==> exists n :: TookOff(old(Now()), Now(), alive, n)
      ensures reply != Asserted && Chain(old(config), old(queue)) ==>
        (Chain(config, queue) <==> KeepsChain(old(Now()), key, alive))
    {
      if queue == [] {
        return Asserted;
      }
      if CanComplete(Now(), key, alive) {
        CompletedIs(Now(), key, alive);
        if Chain(config, queue) {
          ChainComplete(Now(), key, alive);
        }
      }
      var front := queue[0];
      if front.key == key {
        config, queue := front.conf, queue[1..];
        reply := ConfChange;
        if queue != [] {
          var ok := CheckPending(alive);
          if !ok {
            reply := Asserted;
          }
        }
      } else {
        waiters := waiters + {key};
        reply := Wait;
      }
    }
  }

  /** A new node joins a cluster that is not full. */
  method Enter(s: ShardController, id: nat, order: seq<nat>) returns (reply: Reply, ghost p: Pending)
    requires s.Valid() && id !in s.Recent() && Walks(order, s.Recent().Keys) && |s.Recent().Keys| < s.shardNum
    modifies s`queue
    ensures s.Valid() && reply.Accepted? && reply.node == id
    ensures s.queue == old(s.queue) + [p] && p.key == Key(JoinNode, id) && Extends(old(s.Recent()), p)
  {
    reply, p := s.Join(INVALID_NODE_ID, id, order);
  }

  /** The front entry is completed while nobody waits. */
  method Finish(s: ShardController, ghost p: Pending, ghost rest: seq<Pending>)
    requires s.Valid() && s.queue == [p] + rest && s.waiters == {}
    modifies s
    ensures s.Valid() && s.config == p.conf && s.queue == rest && s.waiters == {}
  {
    NobodyWaits(s.Now(), {});
    assert ([p] + rest)[1..] == rest;
    var reply := s.Complete(s.queue[0].key, {});
  }

  method FinishThree(s: ShardController, ghost p: Pending, ghost q: Pending, ghost r: Pending)
    requires s.Valid() && s.queue == [p, q, r] && s.waiters == {}
    modifies s
    ensures s.Valid() && s.config == r.conf && s.queue == []
  {
    assert [p, q, r] == [p] + [q, r];
    Finish(s, p, [q, r]);
    Finish(s, q, [r]);
    Finish(s, r, []);
  }

  /** Two nodes join an empty cluster. */
  method EnterTwo(n: nat, a: nat, b: nat) returns (s: ShardController, ghost p: Pending, ghost q: Pending)
    requires n >= 2 && a != b
    ensures fresh(s) && s.Valid() && s.shardNum == n && s.queue == [p, q] && s.waiters == {}
    ensures p.key == Key(JoinNode, a) && p.conf.Keys == {a}
    ensures q.key == Key(JoinNode, b) && q.conf.Keys == {a, b}
  {
    s := new ShardController(n);
    var reply;
    reply, p := Enter(s, a, []);
    assert p.conf.Keys == {a};
    reply, q := Enter(s, b, [a]);
  }

  /** Three nodes join an empty cluster and complete in the order they joined.  The third builds on the
      first one's configuration, so the second is not in the final one. */
  method LostNode(n: nat, a: nat, b: nat, c: nat) returns (s: ShardController)
    requires n >= 2 && a != b && b != c && a != c
    ensures s.Valid() && s.queue == [] && s.config.Keys == {a, c}
  {
    ghost var p, q, r;
    var reply;
    s, p, q := EnterTwo(n, a, b);
    reply, r := Enter(s, c, [a]);
    FinishThree(s, p, q, r);
  }

  /** Three joins behind the first draw the same id: the last one is built on the first, and still has
      every pending node. */
  method SameId(n: nat, a: nat, b: nat) returns (s: ShardController)
    requires n >= 2 && a != b
    ensures s.Valid() && |s.queue| == 4 && KeepsAll(s.queue, s.queue[3].conf)
  {
    ghost var p, q, r, t;
    var reply;
    s, p, q := EnterTwo(n, a, b);
    reply, r := Enter(s, b, [a]);
    reply, t := Enter(s, b, [a]);
    assert s.queue == [p, q, r, t];
    assert a in t.conf.Keys && b in t.conf.Keys;
  }

  /** Two nodes join; the second completes first and has to wait; then the first completes.  The loop
      installs the second too and looks for a third entry that is not there. */
  method OutOfOrder(n: nat, a: nat, b: nat, alive: set<Key>) returns (s: ShardController, first: Reply, second: Reply)
    requires n >= 2 && a != b
    ensures first == Wait && second == Asserted
  {
    ghost var p, q;
    s, p, q := EnterTwo(n, a, b);
    first := s.Complete(Key(JoinNode, b), alive);
    assert s.queue == [p, q] && s.waiters == {Key(JoinNode, b)};
    NoneLeft(s.Now(), p, q, alive);
    second := s.Complete(Key(JoinNode, a), alive);
  }

  lemma NoneLeft(s: State, p: Pending, q: Pending, alive: set<Key>)
    requires s.queue == [p, q] && q.key in s.waiters
    ensures !CanComplete(s, p.key, alive)
  {
    assert Pop(s).queue == [q];
    assert !Stops(Advance(Pop(s), alive), alive);
    assert !Stops(Pop(s), alive);
  }
}
