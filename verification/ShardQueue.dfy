/** The queue of pending configurations: completing them, and what they build on. */
module ShardQueue {
  import opened ShardSpec

  datatype ConfState = JoinNode | LeaveNode

  /** PendingState: what a completion request is about. */
  datatype Key = Key(state: ConfState, node: nat)

  datatype Pending = Pending(conf: Conf, key: Key)

  // ---------- completing what others wait for ----------

  /** Configuration, queue and waiters. */
  datatype State = State(config: Conf, queue: seq<Pending>, waiters: set<Key>)

  /** One round of CheckPendingConfSessionAndResponse: the front of the queue has a waiter, whose
      connection is still up or not. */
  function Advance(s: State, alive: set<Key>): State
    requires s.queue != []
  {
    var p := s.queue[0];
    if p.key in alive then State(p.conf, s.queue[1..], s.waiters)
    else State(s.config, s.queue[1..], s.waiters - {p.key})
  }

  /** The rounds end at an entry nobody waits for, before the queue is empty. */
  predicate Stops(s: State, alive: set<Key>)
    decreases |s.queue|
  {
    s.queue != [] && (s.queue[0].key in s.waiters ==> Stops(Advance(s, alive), alive))
  }

  /** All rounds. */
  function Drain(s: State, alive: set<Key>): State
    requires Stops(s, alive)
    decreases |s.queue|
  {
    if s.queue[0].key in s.waiters then Drain(Advance(s, alive), alive) else s
  }

  /** The front entry is installed and taken off. */
  function Pop(s: State): State
    requires s.queue != []
  {
    State(s.queue[0].conf, s.queue[1..], s.waiters)
  }

  /** What a completion request needs: something is pending, and if it completes the front entry while
      others are pending, one of those is unawaited. */
  predicate CanComplete(s: State, key: Key, alive: set<Key>) {
    s.queue != [] && (s.queue[0].key == key && |s.queue| > 1 ==> Stops(Pop(s), alive))
  }

  /** A completion request: done if it is about the front entry, otherwise remembered. */
  function Completed(s: State, key: Key, alive: set<Key>): State
    requires CanComplete(s, key, alive)
  {
    if s.queue[0].key != key then s.(waiters := s.waiters + {key})
    else if |s.queue| > 1 then Drain(Pop(s), alive)
    else Pop(s)
  }

  lemma NobodyWaits(s: State, alive: set<Key>)
    requires s.queue != [] && s.waiters == {}
    ensures CanComplete(s, s.queue[0].key, alive) && Completed(s, s.queue[0].key, alive) == Pop(s)
  {
  }

  /** An entry nobody will be waiting for when it comes to the front: it has no waiter, or its waiter
      is dropped with an earlier entry. */
  predicate Unawaited(s: State, alive: set<Key>, j: nat) {
    j < |s.queue| &&
    (s.queue[j].key !in s.waiters ||
     (s.queue[j].key !in alive && exists i :: 0 <= i < j && s.queue[i].key == s.queue[j].key))
  }

  /** When the loop does not run off the end of the queue. */
  lemma {:induction false} StopsIff(s: State, alive: set<Key>)
    ensures Stops(s, alive) <==> exists j :: Unawaited(s, alive, j)
    decreases |s.queue|
  {
    if s.queue != [] && s.queue[0].key in s.waiters {
      var t := Advance(s, alive);
      StopsIff(t, alive);
      forall j: nat | Unawaited(s, alive, j)
        ensures Unawaited(t, alive, j - 1)
      {
        Shift(s, alive, j);
      }
      forall j: nat | Unawaited(t, alive, j)
        ensures Unawaited(s, alive, j + 1)
      {
        Shift(s, alive, j + 1);
      }
    } else if s.queue != [] {
      assert Unawaited(s, alive, 0);
    }
  }

  lemma Shift(s: State, alive: set<Key>, j: nat)
    requires s.queue != [] && s.queue[0].key in s.waiters
    ensures j > 0 ==> (Unawaited(s, alive, j) <==> Unawaited(Advance(s, alive), alive, j - 1))
    ensures Unawaited(s, alive, j) ==> j > 0
  {
    var q, r := s.queue, s.queue[1..];
    if 0 < j < |q| {
      assert r[j - 1] == q[j];
      if i :| 0 <= i < j && q[i].key == q[j].key && i > 0 {
        assert r[i - 1] == q[i];
      }
      if i :| 0 <= i < j - 1 && r[i].key == r[j - 1].key {
        assert q[i + 1] == r[i];
      }
    }
  }

  /** The last entry that the rounds take off, if any, has a waiter that is reached. */
  predicate EndsReached(s: State, alive: set<Key>)
    requires Stops(s, alive)
    decreases |s.queue|
  {
    s.queue[0].key in s.waiters ==>
      var t := Advance(s, alive);
      assert Stops(t, alive);
      if t.queue[0].key in t.waiters then EndsReached(t, alive) else s.queue[0].key in alive
  }

  /** Among the entries from `from` up to `n`, one with this key is taken off while its waiter is not reached. */
  predicate Forgets(queue: seq<Pending>, alive: set<Key>, from: nat, n: nat, key: Key)
    requires n <= |queue|
  {
    key !in alive && exists i :: from <= i < n && queue[i].key == key
  }

  /** The rounds take a front part of the queue off, all of it awaited, and install the last entry of
      it whose waiter was reached; the waiters of the others are forgotten. */
  lemma {:induction false} DrainSpec(s: State, alive: set<Key>) returns (n: nat)
    requires Stops(s, alive)
    ensures var t := Drain(s, alive);
      n < |s.queue| && t.queue == s.queue[n..] && t.queue[0].key !in t.waiters && t.waiters <= s.waiters &&
      (forall i :: 0 <= i < n ==> s.queue[i].key in s.waiters) && Installed(s, alive, n, t.config)
    ensures n == 0 <==> s.queue[0].key !in s.waiters
    ensures EndsReached(s, alive) <==> n == 0 || s.queue[n - 1].key in alive
    ensures forall k :: k in Drain(s, alive).waiters <==> k in s.waiters && !Forgets(s.queue, alive, 0, n, k)
    ensures forall i :: 0 <= i < n ==> !Forgets(s.queue, alive, 0, i, s.queue[i].key)
    decreases |s.queue|
  {
    n := 0;
    if s.queue[0].key in s.waiters {
      var t := Advance(s, alive);
      var m := DrainSpec(t, alive);
      n := m + 1;
      assert t.queue[m..] == s.queue[n..];
      forall i | 0 <= i < n
        ensures s.queue[i].key in s.waiters
      {
        assert i > 0 ==> t.queue[i - 1] == s.queue[i];
      }
      InstalledStep(s, alive, m, Drain(t, alive).config);
      assert m > 0 ==> t.queue[m - 1] == s.queue[m];
      forall k
        ensures k in Drain(s, alive).waiters <==> k in s.waiters && !Forgets(s.queue, alive, 0, n, k)
      {
        ForgetsTail(s.queue, alive, n, k);
      }
      forall i | 0 <= i < n
        ensures !Forgets(s.queue, alive, 0, i, s.queue[i].key)
      {
        if i > 0 {
          assert t.queue[i - 1] == s.queue[i] && t.queue[i - 1].key in t.waiters;
          ForgetsTail(s.queue, alive, i, s.queue[i].key);
        }
      }
    }
  }

  lemma ForgetsTail(queue: seq<Pending>, alive: set<Key>, n: nat, key: Key)
    requires 1 <= n <= |queue|
    ensures Forgets(queue, alive, 1, n, key) <==> Forgets(queue[1..], alive, 0, n - 1, key)
    ensures Forgets(queue, alive, 0, n, key) <==>
      (key !in alive && queue[0].key == key) || Forgets(queue[1..], alive, 0, n - 1, key)
  {
    var rest := queue[1..];
    if i :| 1 <= i < n && queue[i].key == key {
      assert rest[i - 1].key == key;
    }
    if i :| 0 <= i < n - 1 && rest[i].key == key {
      assert queue[i + 1].key == key;
    }
  }

  /** `c` is the last reachable configuration among the first `n` entries, or the old one. */
  predicate Installed(s: State, alive: set<Key>, n: nat, c: Conf)
    requires n <= |s.queue|
  {
    if n == 0 then c == s.config
    else if s.queue[n - 1].key in alive then c == s.queue[n - 1].conf
    else Installed(s, alive, n - 1, c)
  }

  lemma {:induction false} InstalledStep(s: State, alive: set<Key>, m: nat, c: Conf)
    requires m < |s.queue| && Installed(Advance(s, alive), alive, m, c)
    ensures Installed(s, alive, m + 1, c)
  {
    var t := Advance(s, alive);
    if m > 0 {
      assert t.queue[m - 1] == s.queue[m];
      if s.queue[m].key !in alive {
        InstalledStep(s, alive, m - 1, c);
      }
    }
  }

  // ---------- completion requests, said without the rounds ----------

  /** `c` is the configuration of the last of the first `n` entries that is reached, the front one being
      reached by the request itself. */
  ghost predicate LastReached(queue: seq<Pending>, alive: set<Key>, n: nat, c: Conf)
    requires n <= |queue|
  {
    exists j :: 0 <= j < n && (j == 0 || queue[j].key in alive) && queue[j].conf == c &&
      forall i :: j < i < n ==> queue[i].key !in alive
  }

  /** A completion of the front entry takes the first `n` off: behind the front exactly those with a
      remembered waiter.  A waiter is forgotten only with an entry it cannot be told about. */
  ghost predicate TookOff(s: State, t: State, alive: set<Key>, n: nat) {
    1 <= n <= |s.queue| && t.queue == s.queue[n..] && LastReached(s.queue, alive, n, t.config) &&
    (forall i :: 1 <= i < n ==> s.queue[i].key in s.waiters && !Forgets(s.queue, alive, 1, i, s.queue[i].key)) &&
    (forall k :: k in t.waiters <==> k in s.waiters && !Forgets(s.queue, alive, 1, n, k)) &&
    if t.queue == [] then n == 1 else t.queue[0].key !in t.waiters
  }

  lemma {:induction false} ReachedIs(s: State, alive: set<Key>, n: nat, c: Conf)
    requires s.queue != [] && n < |s.queue| && Installed(Pop(s), alive, n, c)
    ensures LastReached(s.queue, alive, n + 1, c)
  {
    var q := s.queue;
    if n == 0 {
      assert q[0].conf == c;
    } else if q[n].key in alive {
      assert Pop(s).queue[n - 1] == q[n] && q[n].conf == c;
    } else {
      assert Pop(s).queue[n - 1] == q[n];
      ReachedIs(s, alive, n - 1, c);
    }
  }

  lemma DrainTookOff(s: State, alive: set<Key>)
    requires |s.queue| > 1 && Stops(Pop(s), alive)
    ensures exists n :: TookOff(s, Drain(Pop(s), alive), alive, n)
  {
    var t := Drain(Pop(s), alive);
    var n := DrainSpec(Pop(s), alive);
    assert Pop(s).queue[n..] == s.queue[n + 1..];
    ReachedIs(s, alive, n, t.config);
    var m := n + 1;
    forall i | 1 <= i < m
      ensures s.queue[i].key in s.waiters && !Forgets(s.queue, alive, 1, i, s.queue[i].key)
    {
      assert Pop(s).queue[i - 1] == s.queue[i];
      ForgetsTail(s.queue, alive, i, s.queue[i].key);
    }
    forall k
      ensures k in t.waiters <==> k in s.waiters && !Forgets(s.queue, alive, 1, m, k)
    {
      ForgetsTail(s.queue, alive, m, k);
    }
    assert TookOff(s, t, alive, m);
  }

  /** A completion request in plain words. */
  lemma CompletedIs(s: State, key: Key, alive: set<Key>)
    requires CanComplete(s, key, alive)
    ensures var t := Completed(s, key, alive);
      if s.queue[0].key != key then
        t.config == s.config && t.queue == s.queue && forall k :: k in t.waiters <==> k in s.waiters || k == key
      else exists n :: TookOff(s, t, alive, n)
  {
    if s.queue[0].key == key {
      if |s.queue| > 1 {
        assert Completed(s, key, alive) == Drain(Pop(s), alive);
        DrainTookOff(s, alive);
      } else {
        assert Completed(s, key, alive) == Pop(s);
        ReachedIs(s, alive, 0, s.queue[0].conf);
        assert TookOff(s, Pop(s), alive, 1);
      }
    }
  }

  // ---------- whole runs ----------

  datatype Request = Joins(p: Pending) | Completes(key: Key, alive: set<Key>)

  function After(s: State, r: Request): State
    requires r.Completes? ==> CanComplete(s, r.key, r.alive)
  {
    match r
    case Joins(p) => s.(queue := s.queue + [p])
    case Completes(key, alive) => Completed(s, key, alive)
  }

  /** The request `r` of a node that has to wait. */
  predicate ToldToWait(s: State, r: Request, key: Key) {
    r.Completes? && r.key == key && s.queue != [] && s.queue[0].key != key
  }

  /** The request `r` leads to an entry with this key being taken off while its connection is down. */
  predicate LosesTouch(s: State, r: Request, t: State, key: Key) {
    r.Completes? && s.queue != [] && s.queue[0].key == r.key && |t.queue| <= |s.queue| &&
    Forgets(s.queue, r.alive, 1, |s.queue| - |t.queue|, key)
  }

  lemma WaitersStep(s: State, r: Request, key: Key)
    requires r.Completes? ==> CanComplete(s, r.key, r.alive)
    ensures key in After(s, r).waiters <==>
      (ToldToWait(s, r, key) || key in s.waiters) && !LosesTouch(s, r, After(s, r), key)
  {
    if r.Completes? {
      CompletedIs(s, r.key, r.alive);
    }
  }

  predicate RunStep(s: State, r: Request, t: State) {
    (r.Completes? ==> CanComplete(s, r.key, r.alive)) && t == After(s, r)
  }

  /** A run: the states between the requests.  No assertion fails on the way. */
  ghost predicate IsRun(ss: seq<State>, rs: seq<Request>) {
    |ss| == |rs| + 1 && forall i :: 0 <= i < |rs| ==> RunStep(ss[i], rs[i], ss[i + 1])
  }

  /** Before request `n` the key has been remembered since request `i`, or from the start if `i` is -1. */
  ghost predicate HeldSince(ss: seq<State>, rs: seq<Request>, i: int, n: nat, key: Key)
    requires -1 <= i < n <= |rs| && |ss| == |rs| + 1
  {
    (if i < 0 then key in ss[0].waiters else ToldToWait(ss[i], rs[i], key)) &&
    forall j :: i < j < n ==> !LosesTouch(ss[j], rs[j], ss[j + 1], key)
  }

  /** In every run: a request that is told to wait is remembered until an entry with its key is taken off
      while its connection is down, and nothing else is ever remembered. */
  lemma {:induction false} Remembered(ss: seq<State>, rs: seq<Request>, n: nat, key: Key)
    requires IsRun(ss, rs) && n <= |rs|
    ensures key in ss[n].waiters <==>
      (n == 0 && key in ss[0].waiters) || exists i :: -1 <= i < n && HeldSince(ss, rs, i, n, key)
  {
    if n > 0 {
      var p := n - 1;
      assert RunStep(ss[p], rs[p], ss[p + 1]);
      WaitersStep(ss[p], rs[p], key);
      Remembered(ss, rs, p, key);
      if LosesTouch(ss[p], rs[p], ss[n], key) {
        assert forall i :: -1 <= i < p ==> !HeldSince(ss, rs, i, n, key);
      } else if ToldToWait(ss[p], rs[p], key) {
        assert HeldSince(ss, rs, p, n, key);
      } else if p == 0 {
        assert HeldSince(ss, rs, -1, n, key) <==> key in ss[0].waiters;
      } else {
        assert forall i :: -1 <= i < p ==> (HeldSince(ss, rs, i, n, key) <==> HeldSince(ss, rs, i, p, key));
      }
    }
  }

  // ---------- what pending configurations build on ----------

  /** Entry `p` adds its node to `c`. */
  predicate Extends(c: Conf, p: Pending) {
    p.key.node !in c && p.conf.Keys == c.Keys + {p.key.node}
  }

  function Before(config: Conf, queue: seq<Pending>, i: nat): Conf
    requires i <= |queue|
  {
    if i == 0 then config else queue[i - 1].conf
  }

  predicate ExtendsAt(config: Conf, queue: seq<Pending>, i: nat) {
    i < |queue| && Extends(Before(config, queue, i), queue[i])
  }

  /** Each configuration adds one node to the one before it. */
  ghost predicate Chain(config: Conf, queue: seq<Pending>) {
    forall i: nat :: i < |queue| ==> ExtendsAt(config, queue, i)
  }

  /** In a chain a later configuration has all nodes of an earlier one. */
  lemma {:induction false} ChainGrows(config: Conf, queue: seq<Pending>, i: nat, j: nat, id: nat)
    requires Chain(config, queue) && i <= j <= |queue| && id in Before(config, queue, i)
    ensures id in Before(config, queue, j)
    decreases j - i
  {
    if i < j {
      ChainGrows(config, queue, i, j - 1, id);
      assert ExtendsAt(config, queue, j - 1);
      assert id in queue[j - 1].conf.Keys;
    }
  }

  /** So when everything is completed in order, no node that joined is missing. */
  lemma ChainKeepsAll(config: Conf, queue: seq<Pending>, id: nat)
    requires Chain(config, queue) && queue != []
    requires id in config || exists i :: 0 <= i < |queue| && queue[i].key.node == id
    ensures id in queue[|queue| - 1].conf
  {
    if id in config {
      ChainGrows(config, queue, 0, |queue|, id);
    } else {
      var i :| 0 <= i < |queue| && queue[i].key.node == id;
      assert ExtendsAt(config, queue, i);
      assert id in queue[i].conf.Keys;
      ChainGrows(config, queue, i + 1, |queue|, id);
    }
  }

  /** A completion keeps the chain. */
  lemma ChainPop(config: Conf, queue: seq<Pending>)
    requires Chain(config, queue) && queue != []
    ensures Chain(queue[0].conf, queue[1..])
  {
    forall i: nat | i < |queue| - 1
      ensures ExtendsAt(queue[0].conf, queue[1..], i)
    {
      assert ExtendsAt(config, queue, i + 1);
    }
  }

  lemma {:induction false} ChainDrop(config: Conf, queue: seq<Pending>, n: nat)
    requires Chain(config, queue) && n <= |queue|
    ensures Chain(Before(config, queue, n), queue[n..])
  {
    if n == 0 {
      assert queue[0..] == queue;
    } else {
      ChainDrop(config, queue, n - 1);
      assert queue[n - 1..][0] == queue[n - 1] && queue[n - 1..][1..] == queue[n..];
      ChainPop(Before(config, queue, n - 1), queue[n - 1..]);
    }
  }

  /** What is installed comes from before the last entry, if that is not reached. */
  lemma {:induction false} InstalledBefore(s: State, alive: set<Key>, n: nat, c: Conf, id: nat)
    requires Chain(s.config, s.queue) && n <= |s.queue| && Installed(s, alive, n, c) && id in c
    ensures id in Before(s.config, s.queue, n)
  {
    if n > 0 && s.queue[n - 1].key !in alive {
      InstalledBefore(s, alive, n - 1, c, id);
      ChainGrows(s.config, s.queue, n - 1, n, id);
    }
  }

  /** The rounds after a completion keep the chain if and only if the last entry they take off is
      reached: otherwise the next pending configuration has a node that the installed one lacks. */
  lemma ChainDrain(s: State, alive: set<Key>)
    requires Chain(s.config, s.queue) && Stops(s, alive)
    ensures var t := Drain(s, alive); Chain(t.config, t.queue) <==> EndsReached(s, alive)
  {
    var n := DrainSpec(s, alive);
    var t := Drain(s, alive);
    if n == 0 || s.queue[n - 1].key in alive {
      ChainDrop(s.config, s.queue, n);
      assert t.config == Before(s.config, s.queue, n);
    } else {
      var id := s.queue[n - 1].key.node;
      assert ExtendsAt(s.config, s.queue, n - 1) && ExtendsAt(s.config, s.queue, n);
      if id in t.config {
        assert Installed(s, alive, n - 1, t.config);
        InstalledBefore(s, alive, n - 1, t.config, id);
      }
      assert id in s.queue[n - 1].conf.Keys && id in s.queue[n].conf.Keys && id != s.queue[n].key.node;
      assert !ExtendsAt(t.config, t.queue, 0);
    }
  }

  /** When a completion request leaves a chain a chain. */
  predicate KeepsChain(s: State, key: Key, alive: set<Key>)
    requires CanComplete(s, key, alive)
  {
    s.queue[0].key != key || |s.queue| == 1 || EndsReached(Pop(s), alive)
  }

  lemma ChainComplete(s: State, key: Key, alive: set<Key>)
    requires CanComplete(s, key, alive) && Chain(s.config, s.queue)
    ensures var t := Completed(s, key, alive); Chain(t.config, t.queue) <==> KeepsChain(s, key, alive)
  {
    ChainPop(s.config, s.queue);
    if s.queue[0].key == key && |s.queue| > 1 {
      ChainDrain(Pop(s), alive);
    }
  }

  /** A join builds on the front of the queue.  That keeps the chain exactly if nothing, or only one
      configuration, is pending. */
  lemma ChainPush(config: Conf, queue: seq<Pending>, p: Pending)
    requires Chain(config, queue) && Extends(if queue == [] then config else queue[0].conf, p)
    ensures Chain(config, queue + [p]) <==> |queue| <= 1
  {
    var n, all := |queue|, queue + [p];
    forall i: nat | i < n
      ensures ExtendsAt(config, all, i)
    {
      assert ExtendsAt(config, queue, i);
    }
    assert Before(config, all, n) == Before(config, queue, n) && (n < 2 ==> ExtendsAt(config, all, n));
    if n >= 2 {
      assert ExtendsAt(config, queue, 1);
      var id := queue[1].key.node;
      assert id in queue[1].conf.Keys;
      ChainGrows(config, queue, 2, n, id);
      assert !ExtendsAt(config, all, n);
    }
  }

  /** Every node that is pending is in `c`. */
  predicate KeepsAll(queue: seq<Pending>, c: Conf) {
    forall i :: 0 <= i < |queue| ==> queue[i].key.node in c
  }

  /** Every pending configuration has the node it is for. */
  predicate HasOwn(queue: seq<Pending>) {
    forall i :: 0 <= i < |queue| ==> queue[i].key.node in queue[i].conf
  }

  /** The nodes behind the front are in the front's configuration, or have the id `id`. */
  predicate FrontHas(queue: seq<Pending>, id: nat) {
    forall i :: 1 <= i < |queue| ==> queue[i].key.node in queue[0].conf || queue[i].key.node == id
  }

  /** A join built on the front has every pending node if and only if the front has those behind it, up
      to the new node's id. */
  lemma LossIff(config: Conf, queue: seq<Pending>, p: Pending)
    requires HasOwn(queue) && Extends(if queue == [] then config else queue[0].conf, p)
    ensures KeepsAll(queue, p.conf) <==> FrontHas(queue, p.key.node)
  {
    forall i | 0 <= i < |queue|
      ensures queue[i].key.node in p.conf <==> queue[i].key.node in queue[0].conf || queue[i].key.node == p.key.node
    {
      assert queue[i].key.node in p.conf.Keys <==> queue[i].key.node in queue[0].conf.Keys + {p.key.node};
    }
  }

  /** The nodes behind the front are new to it and have different ids. */
  predicate Distinct(queue: seq<Pending>) {
    (forall i :: 1 <= i < |queue| ==> queue[i].key.node !in queue[0].conf) &&
    forall i, j :: 1 <= i < j < |queue| ==> queue[i].key.node != queue[j].key.node
  }

  /** At most one node is pending, or two are and the new node's id is by chance that of the second. */
  predicate FewPending(queue: seq<Pending>, id: nat) {
    |queue| <= 1 || (|queue| == 2 && queue[1].key.node == id)
  }

  /** Then the loss is a matter of numbers. */
  lemma LossCount(queue: seq<Pending>, id: nat)
    requires Distinct(queue)
    ensures FrontHas(queue, id) <==> FewPending(queue, id)
  {
    if |queue| >= 3 {
      assert queue[1].key.node != queue[2].key.node;
    }
  }

  lemma ChainDistinct(config: Conf, queue: seq<Pending>)
    requires Chain(config, queue)
    ensures HasOwn(queue) && Distinct(queue)
  {
    forall i | 0 <= i < |queue|
      ensures queue[i].key.node in queue[i].conf
    {
      assert ExtendsAt(config, queue, i) && queue[i].key.node in queue[i].conf.Keys;
    }
    forall i | 1 <= i < |queue|
      ensures queue[i].key.node !in queue[0].conf
    {
      ChainNew(config, queue, 0, i, queue[i].key.node);
    }
    forall i, j | 1 <= i < j < |queue|
      ensures queue[i].key.node != queue[j].key.node
    {
      ChainNew(config, queue, i, j, queue[j].key.node);
    }
  }

  /** In a chain an entry's node is in no earlier configuration. */
  lemma ChainNew(config: Conf, queue: seq<Pending>, i: nat, j: nat, id: nat)
    requires Chain(config, queue) && i < j < |queue| && id == queue[j].key.node
    ensures id !in queue[i].conf
  {
    assert ExtendsAt(config, queue, j);
    if id in queue[i].conf {
      ChainGrows(config, queue, i + 1, j, id);
    }
  }

  /** All pending entries complete in the order they joined, nobody having to wait. */
  function CompleteAll(s: State): State
    requires s.waiters == {}
    decreases |s.queue|
  {
    if s.queue == [] then s
    else
      NobodyWaits(s, {});
      CompleteAll(Completed(s, s.queue[0].key, {}))
  }

  /** Then the last one's configuration is the final one. */
  lemma {:induction false} CompleteAllIs(s: State)
    requires s.waiters == {}
    ensures CompleteAll(s) == State(Before(s.config, s.queue, |s.queue|), [], {})
    decreases |s.queue|
  {
    if s.queue != [] {
      NobodyWaits(s, {});
      CompleteAllIs(Pop(s));
    }
  }

  /** So a node that joined and completed is missing in the end exactly in the same case. */
  lemma LostInTheEnd(s: State, p: Pending)
    requires s.waiters == {} && HasOwn(s.queue)
    requires Extends(if s.queue == [] then s.config else s.queue[0].conf, p)
    ensures KeepsAll(s.queue + [p], CompleteAll(s.(queue := s.queue + [p])).config) <==> FrontHas(s.queue, p.key.node)
  {
    var q := s.queue + [p];
    CompleteAllIs(s.(queue := q));
    LossIff(s.config, s.queue, p);
    assert q[|s.queue|] == p && p.key.node in p.conf.Keys;
    assert forall i :: 0 <= i < |s.queue| ==> q[i] == s.queue[i];
  }
}
