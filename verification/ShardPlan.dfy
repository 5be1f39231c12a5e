/** The redistribution of shards when a node joins: what moves, and how much. */
module ShardPlan {
  import opened Basics
  import opened ShardSpec

  /** One entry of the join response: shards to pull from an old node. */
  datatype Info = Info(node: nat, shards: seq<nat>)

  /** Last shard first. */
  function Reversed(s: seq<nat>): (r: seq<nat>)
    ensures |r| == |s| && forall i :: 0 <= i < |s| ==> r[i] == s[|s| - 1 - i]
  {
    seq(|s|, i requires 0 <= i < |s| => s[|s| - 1 - i])
  }

  lemma {:induction false} ReversedBag(s: seq<nat>)
    ensures multiset(Reversed(s)) == multiset(s)
  {
    if s != [] {
      ReversedBag(s[1..]);
      assert s == [s[0]] + s[1..];
      assert Reversed(s) == Reversed(s[1..]) + [s[0]];
    }
  }

  /** All the shards of a response, in its order. */
  function Pulled(infos: seq<Info>): seq<nat> {
    if infos == [] then [] else Pulled(infos[..|infos| - 1]) + infos[|infos| - 1].shards
  }

  /** The shards of an entry stand behind those of the entries before it. */
  lemma {:induction false} PulledAt(infos: seq<Info>, a: nat, j: nat)
    requires a < |infos| && j < |infos[a].shards|
    ensures var i := |Pulled(infos[..a])| + j; i < |Pulled(infos)| && Pulled(infos)[i] == infos[a].shards[j]
  {
    var init := infos[..|infos| - 1];
    if a < |init| {
      PulledAt(init, a, j);
      assert init[..a] == infos[..a];
    }
  }

  predicate Mentions(infos: seq<Info>, id: nat) {
    exists i :: 0 <= i < |infos| && infos[i].node == id
  }

  /** The entry names exactly what its node lost, from the end of its list, last shard first. */
  ghost predicate Lost(was: Conf, c: Conf, e: Info) {
    e.node in was && e.node in c && |was[e.node]| == |c[e.node]| + |e.shards| &&
    forall j :: 0 <= j < |e.shards| ==> e.shards[j] == was[e.node][|was[e.node]| - 1 - j]
  }

  /** The plan `infos` is the difference from `was` to `c`: nodes only lose shards from the end of
      their list, each entry says what its own node lost, and nodes without an entry lost nothing. */
  ghost predicate Plan(was: Conf, c: Conf, infos: seq<Info>) {
    c.Keys == was.Keys && (forall id :: id in c ==> c[id] <= was[id]) &&
    (forall i :: 0 <= i < |infos| ==> Lost(was, c, infos[i])) &&
    (forall i, j :: 0 <= i < j < |infos| ==> infos[i].node != infos[j].node) &&
    (forall id :: id in c && !Mentions(infos, id) ==> c[id] == was[id])
  }

  lemma MentionsMore(infos: seq<Info>, e: Info, o: nat)
    ensures Mentions(infos + [e], o) <==> o == e.node || Mentions(infos, o)
  {
    assert forall i :: 0 <= i < |infos| ==> (infos + [e])[i] == infos[i];
    assert (infos + [e])[|infos|] == e;
  }

  /** Pull the shards of `id` from `end` on. */
  lemma PlanStep(was: Conf, c: Conf, infos: seq<Info>, id: nat, end: nat)
    requires Plan(was, c, infos) && id in c && !Mentions(infos, id) && end <= |c[id]|
    ensures Plan(was, c[id := c[id][..end]], infos + [Info(id, Reversed(c[id][end..]))])
    ensures forall o :: Mentions(infos + [Info(id, Reversed(c[id][end..]))], o) ==> o == id || Mentions(infos, o)
  {
    var e := Info(id, Reversed(c[id][end..]));
    var d, all := c[id := c[id][..end]], infos + [e];
    forall i | 0 <= i < |all|
      ensures Lost(was, d, all[i]) && (i < |infos| ==> all[i].node != id)
    {
      assert i < |infos| ==> all[i] == infos[i] && Lost(was, c, infos[i]) && Mentions(infos, infos[i].node);
    }
    forall o: nat
      ensures Mentions(all, o) <==> o == id || Mentions(infos, o)
    {
      MentionsMore(infos, e, o);
    }
  }

  lemma MoveBag(c: Conf, id: nat, end: nat, got: seq<nat>)
    requires id in c && end <= |c[id]|
    ensures Bag(c[id := c[id][..end]]) + multiset(got + Reversed(c[id][end..])) == Bag(c) + multiset(got)
  {
    var kept, gone := c[id][..end], c[id][end..];
    BagSet(c, id, kept);
    ReversedBag(gone);
    assert c[id] == kept + gone;
    Swap(Bag(c[id := kept]), Bag(c), multiset(kept), multiset(gone), multiset(got));
  }

  lemma Swap(a: multiset<nat>, b: multiset<nat>, kept: multiset<nat>, gone: multiset<nat>, got: multiset<nat>)
    requires a + (kept + gone) == b + kept
    ensures a + (got + gone) == b + got
  {
    forall s: nat
      ensures (a + (got + gone))[s] == (b + got)[s]
    {
      assert (a + (kept + gone))[s] == (b + kept)[s];
    }
  }

  // ---------- how much ----------

  lemma TimesMore(k: nat, a: nat, b: nat)
    requires a <= b
    ensures k * a <= k * b
  {
  }

  /** Nobody holds less than what is everyone's share with one node more. */
  lemma Shrinks(n: nat, k: nat)
    requires 0 < k
    ensures n / (k + 1) <= n / k && n % (k + 1) <= k
    ensures n == k * (n / (k + 1)) + n / (k + 1) + n % (k + 1)
  {
    var q := n / (k + 1);
    assert n == (k + 1) * q + n % (k + 1);
    if q > n / k {
      TimesMore(k, n / k + 1, q);
    }
  }

  /** How many of the first `k` nodes have more than `q` shards. */
  function Richer(was: Conf, order: seq<nat>, k: nat, q: nat): nat
    requires k <= |order|
  {
    if k == 0 then 0 else Richer(was, order, k - 1, q) + if Size(was, order[k - 1]) > q then 1 else 0
  }

  lemma {:induction false} RicherIs(was: Conf, order: seq<nat>, k: nat, q: nat)
    requires k <= |order|
    ensures Richer(was, order, k, q) == |set i | 0 <= i < k && Size(was, order[i]) > q|
  {
    var s := set i | 0 <= i < k && Size(was, order[i]) > q;
    if k > 0 {
      RicherIs(was, order, k - 1, q);
      var r := set i | 0 <= i < k - 1 && Size(was, order[i]) > q;
      assert s == if Size(was, order[k - 1]) > q then r + {k - 1} else r;
    }
  }

  function Max(a: int, b: int): int {
    if a < b then b else a
  }

  /** Bookkeeping of the loop after `k` of the nodes, each of which had `base` shards or one more:
      `left` of the `extra` surplus shards are still to be given out, `moved` went to the new node. */
  ghost predicate Counted(was: Conf, order: seq<nat>, k: nat, base: nat, q: nat, extra: nat, left: nat, moved: nat)
    requires k <= |order| && forall i :: 0 <= i < |order| ==> order[i] in was
  {
    left == Max(extra - Richer(was, order, k, q), 0) && moved + extra == Surplus(was, order, k, q) + left &&
    (left > 0 && base == q ==> moved == 0) && (left > 0 && base > q ==> left + k == extra)
  }

  lemma CountedStep(was: Conf, order: seq<nat>, k: nat, base: nat, q: nat, extra: nat, left: nat, moved: nat)
    requires k < |order| && forall i :: 0 <= i < |order| ==> order[i] in was
    requires q <= base <= |was[order[k]]| <= base + 1 && Counted(was, order, k, base, q, extra, left, moved)
    ensures left == 0 ==> Counted(was, order, k + 1, base, q, extra, 0, moved + |was[order[k]]| - q)
    ensures left > 0 && |was[order[k]]| > q ==>
      Counted(was, order, k + 1, base, q, extra, left - 1, moved + |was[order[k]]| - q - 1)
    ensures left > 0 && |was[order[k]]| == q ==> Counted(was, order, k + 1, base, q, extra, left, moved)
  {
  }

  /** At the end the surplus is used up and the new node has exactly its share. */
  lemma CountedAll(was: Conf, order: seq<nat>, base: nat, q: nat, extra: nat, left: nat, moved: nat)
    requires Walks(order, was.Keys) && Surplus(was, order, |order|, q) == q + extra
    requires 1 <= q <= base && extra <= |order| && Counted(was, order, |order|, base, q, extra, left, moved)
    ensures left == 0 && moved == q
  {
  }

  /** The node at place `i` may keep one shard more: it has one, and fewer than `extra` before it did. */
  ghost predicate KeepsOne(was: Conf, order: seq<nat>, q: nat, extra: nat, i: nat)
    requires i < |order|
  {
    Size(was, order[i]) > q && Richer(was, order, i, q) < extra
  }

  /** The node at place `i` is told about: it has a shard more than the quota, or `extra` nodes before it had. */
  ghost predicate Told(was: Conf, order: seq<nat>, q: nat, extra: nat, i: nat)
    requires i < |order|
  {
    Size(was, order[i]) > q || Richer(was, order, i, q) >= extra
  }

  /** Those of the first `k` nodes that are told about, in the order in which they are walked. */
  ghost function ToldNodes(was: Conf, order: seq<nat>, k: nat, q: nat, extra: nat): seq<nat>
    requires k <= |order|
  {
    if k == 0 then []
    else ToldNodes(was, order, k - 1, q, extra) + if Told(was, order, q, extra, k - 1) then [order[k - 1]] else []
  }

  /** Each of them stands behind those walked before it. */
  lemma {:induction false} ToldAt(was: Conf, order: seq<nat>, i: nat, k: nat, q: nat, extra: nat)
    requires i < k <= |order| && Told(was, order, q, extra, i)
    ensures var before, all := ToldNodes(was, order, i, q, extra), ToldNodes(was, order, k, q, extra);
      before < all && all[|before|] == order[i]
  {
    if i < k - 1 {
      ToldAt(was, order, i, k - 1, q, extra);
    }
  }

  lemma {:induction false} ToldOnly(was: Conf, order: seq<nat>, k: nat, q: nat, extra: nat, id: nat)
    requires k <= |order| && id in ToldNodes(was, order, k, q, extra)
    ensures exists i :: 0 <= i < k && order[i] == id && Told(was, order, q, extra, i)
  {
    if id in ToldNodes(was, order, k - 1, q, extra) {
      ToldOnly(was, order, k - 1, q, extra, id);
    }
  }

  function Names(infos: seq<Info>): (ids: seq<nat>)
    ensures |ids| == |infos| && forall a :: 0 <= a < |infos| ==> ids[a] == infos[a].node
  {
    seq(|infos|, a requires 0 <= a < |infos| => infos[a].node)
  }

  /** What the node at place `i` has left. */
  ghost predicate Kept(was: Conf, c: Conf, order: seq<nat>, q: nat, extra: nat, i: nat)
    requires i < |order|
  {
    Size(c, order[i]) == if KeepsOne(was, order, q, extra, i) then q + 1 else q
  }

  /** What the first `k` nodes keep, and which of them get an entry, in which order. */
  ghost predicate Dealt(was: Conf, c: Conf, order: seq<nat>, k: nat, q: nat, extra: nat, infos: seq<Info>)
    requires k <= |order|
  {
    forall x :: Broken(x) ==>
      Names(infos) == ToldNodes(was, order, k, q, extra) &&
      forall i :: 0 <= i < k ==> Kept(was, c, order, q, extra, i)
  }

  lemma DealtIs(was: Conf, c: Conf, order: seq<nat>, k: nat, q: nat, extra: nat, infos: seq<Info>)
    requires k <= |order| && Dealt(was, c, order, k, q, extra, infos)
    ensures Names(infos) == ToldNodes(was, order, k, q, extra)
    ensures forall i :: 0 <= i < k ==> Kept(was, c, order, q, extra, i)
  {
    assert Broken(Seal);
  }

  lemma DealtStart(was: Conf, order: seq<nat>, q: nat, extra: nat)
    ensures Dealt(was, was, order, 0, q, extra, [])
  {
  }

  /** A node gets an entry. */
  lemma DealtStep(was: Conf, c: Conf, order: seq<nat>, k: nat, q: nat, extra: nat, infos: seq<Info>, s: seq<nat>,
                  got: seq<nat>)
    requires k < |order| && Walks(order, was.Keys) && Dealt(was, c, order, k, q, extra, infos)
    requires Told(was, order, q, extra, k) && |s| == if KeepsOne(was, order, q, extra, k) then q + 1 else q
    ensures Dealt(was, c[order[k] := s], order, k + 1, q, extra, infos + [Info(order[k], got)])
  {
    DealtIs(was, c, order, k, q, extra, infos);
    assert Names(infos + [Info(order[k], got)]) == Names(infos) + [order[k]];
    var d, n := c[order[k] := s], k + 1;
    forall i | 0 <= i < n
      ensures Kept(was, d, order, q, extra, i)
    {
      assert i < k ==> Kept(was, c, order, q, extra, i) && order[i] != order[k];
    }
  }

  /** A node gets none. */
  lemma DealtSkip(was: Conf, c: Conf, order: seq<nat>, k: nat, q: nat, extra: nat, infos: seq<Info>)
    requires k < |order| && Dealt(was, c, order, k, q, extra, infos)
    requires !Told(was, order, q, extra, k) && Size(c, order[k]) == q
    ensures Dealt(was, c, order, k + 1, q, extra, infos)
  {
    DealtIs(was, c, order, k, q, extra, infos);
  }

  // ---------- the loop over the nodes ----------

  /** The first `k` nodes have `q` shards or one more. */
  ghost predicate About(c: Conf, ids: seq<nat>, k: nat, q: nat)
    requires k <= |ids|
  {
    forall i :: 0 <= i < k ==> AboutAt(c, ids[i], q)
  }

  lemma AboutStep(c: Conf, ids: seq<nat>, k: nat, q: nat, s: seq<nat>)
    requires k < |ids| && About(c, ids, k, q) && ids[k] in c && q <= |s| <= q + 1
    requires forall i, j :: 0 <= i < j < |ids| ==> ids[i] != ids[j]
    ensures About(c[ids[k] := s], ids, k + 1, q)
  {
    forall i | 0 <= i < k + 1
      ensures AboutAt(c[ids[k] := s], ids[i], q)
    {
      assert i < k ==> AboutAt(c, ids[i], q);
    }
  }

  lemma PulledStep(infos: seq<Info>, e: Info)
    ensures Pulled(infos + [e]) == Pulled(infos) + e.shards
  {
    assert (infos + [e])[..|infos|] == infos;
  }

  /** The loop's state after the first `k` nodes. */
  ghost predicate Stage(was: Conf, c: Conf, order: seq<nat>, k: nat, q: nat, moved: seq<nat>, infos: seq<Info>)
    requires k <= |order|
  {
    forall x :: Broken(x) ==>
      Plan(was, c, infos) && moved == Pulled(infos) && Bag(c) + multiset(moved) == Bag(was) &&
      (forall j :: k <= j < |order| ==> !Mentions(infos, order[j])) && About(c, order, k, q)
  }

  lemma StageIs(was: Conf, c: Conf, order: seq<nat>, k: nat, q: nat, moved: seq<nat>, infos: seq<Info>)
    requires k <= |order| && Stage(was, c, order, k, q, moved, infos)
    ensures Plan(was, c, infos) && moved == Pulled(infos) && Bag(c) + multiset(moved) == Bag(was)
    ensures About(c, order, k, q) && forall j :: k <= j < |order| ==> !Mentions(infos, order[j])
  {
    assert Broken(Seal);
  }

  lemma StageStart(was: Conf, order: seq<nat>, q: nat)
    ensures Stage(was, was, order, 0, q, [], [])
  {
  }

  /** A node whose turn has not come still has what it had. */
  lemma StageNext(was: Conf, c: Conf, order: seq<nat>, k: nat, q: nat, moved: seq<nat>, infos: seq<Info>)
    requires k < |order| && Walks(order, was.Keys) && Stage(was, c, order, k, q, moved, infos)
    ensures order[k] in c && order[k] in was && c[order[k]] == was[order[k]]
  {
    StageIs(was, c, order, k, q, moved, infos);
  }

  lemma StageStep(was: Conf, c: Conf, order: seq<nat>, k: nat, q: nat, moved: seq<nat>, infos: seq<Info>,
                  id: nat, end: nat, got: seq<nat>)
    requires k < |order| && Walks(order, was.Keys) && Stage(was, c, order, k, q, moved, infos)
    requires id == order[k] && id in c && q <= end <= q + 1 && end <= |c[id]| && got == Reversed(c[id][end..])
    ensures Stage(was, c[id := c[id][..end]], order, k + 1, q, moved + got, infos + [Info(id, got)])
    ensures |got| == |c[id]| - end
  {
    StageIs(was, c, order, k, q, moved, infos);
    PlanStep(was, c, infos, id, end);
    MoveBag(c, id, end, moved);
    ReversedBag(c[id][end..]);
    AboutStep(c, order, k, q, c[id][..end]);
    PulledStep(infos, Info(id, got));
  }

  lemma StageSkip(was: Conf, c: Conf, order: seq<nat>, k: nat, q: nat, moved: seq<nat>, infos: seq<Info>)
    requires k < |order| && Walks(order, was.Keys) && Stage(was, c, order, k, q, moved, infos) && |was[order[k]]| == q
    ensures Stage(was, c, order, k + 1, q, moved, infos)
  {
    StageIs(was, c, order, k, q, moved, infos);
    AboutStep(c, order, k, q, c[order[k]]);
    assert c[order[k] := c[order[k]]] == c;
  }

  /** Everything the loop keeps, with `left` of the surplus shards still to be given out. */
  ghost predicate Looping(was: Conf, c: Conf, order: seq<nat>, k: nat, base: nat, q: nat, extra: nat, left: nat,
                          moved: seq<nat>, infos: seq<Info>)
    requires k <= |order|
  {
    forall x :: Broken(x) ==>
      Walks(order, was.Keys) && Stage(was, c, order, k, q, moved, infos) &&
      Counted(was, order, k, base, q, extra, left, |moved|) && Dealt(was, c, order, k, q, extra, infos)
  }

  lemma LoopIs(was: Conf, c: Conf, order: seq<nat>, k: nat, base: nat, q: nat, extra: nat, left: nat,
               moved: seq<nat>, infos: seq<Info>)
    requires k <= |order| && Looping(was, c, order, k, base, q, extra, left, moved, infos)
    ensures Walks(order, was.Keys) && Stage(was, c, order, k, q, moved, infos)
    ensures Counted(was, order, k, base, q, extra, left, |moved|) && Dealt(was, c, order, k, q, extra, infos)
  {
    assert Broken(Seal);
  }

  lemma LoopStart(was: Conf, order: seq<nat>, base: nat, q: nat, extra: nat)
    requires Walks(order, was.Keys)
    ensures Looping(was, was, order, 0, base, q, extra, extra, [], [])
  {
    StageStart(was, order, q);
    DealtStart(was, order, q, extra);
  }

  lemma LoopNext(was: Conf, c: Conf, order: seq<nat>, k: nat, base: nat, q: nat, extra: nat, left: nat,
                 moved: seq<nat>, infos: seq<Info>)
    requires k < |order| && Looping(was, c, order, k, base, q, extra, left, moved, infos)
    requires q <= base && About(was, order, |order|, base)
    ensures order[k] in c && order[k] in was && c[order[k]] == was[order[k]] && |c[order[k]]| >= q
  {
    LoopIs(was, c, order, k, base, q, extra, left, moved, infos);
    StageNext(was, c, order, k, q, moved, infos);
    assert AboutAt(was, order[k], base);
  }

  lemma LoopSkip(was: Conf, c: Conf, order: seq<nat>, k: nat, base: nat, q: nat, extra: nat, left: nat,
                 moved: seq<nat>, infos: seq<Info>)
    requires k < |order| && Looping(was, c, order, k, base, q, extra, left, moved, infos)
    requires q <= base && About(was, order, |order|, base) && left > 0 && Size(c, order[k]) == q
    ensures Looping(was, c, order, k + 1, base, q, extra, left, moved, infos)
  {
    LoopIs(was, c, order, k, base, q, extra, left, moved, infos);
    LoopNext(was, c, order, k, base, q, extra, left, moved, infos);
    assert AboutAt(was, order[k], base);
    CountedStep(was, order, k, base, q, extra, left, |moved|);
    StageSkip(was, c, order, k, q, moved, infos);
    DealtSkip(was, c, order, k, q, extra, infos);
  }

  lemma LoopStep(was: Conf, c: Conf, order: seq<nat>, k: nat, base: nat, q: nat, extra: nat, left: nat,
                 moved: seq<nat>, infos: seq<Info>, id: nat, end: nat, got: seq<nat>, rest: nat)
    requires k < |order| && Looping(was, c, order, k, base, q, extra, left, moved, infos)
    requires q <= base && About(was, order, |order|, base) && id == order[k] && id in c
    requires end <= |c[id]| && got == Reversed(c[id][end..])
    requires if left > 0 then end == q + 1 && rest == left - 1 else end == q && rest == 0
    ensures Looping(was, c[id := c[id][..end]], order, k + 1, base, q, extra, rest, moved + got,
                    infos + [Info(id, got)])
  {
    LoopIs(was, c, order, k, base, q, extra, left, moved, infos);
    LoopNext(was, c, order, k, base, q, extra, left, moved, infos);
    assert AboutAt(was, id, base);
    CountedStep(was, order, k, base, q, extra, left, |moved|);
    StageStep(was, c, order, k, q, moved, infos, id, end, got);
    DealtStep(was, c, order, k, q, extra, infos, c[id][..end], got);
  }

  lemma LoopEnds(was: Conf, c: Conf, order: seq<nat>, base: nat, q: nat, extra: nat, left: nat,
                 moved: seq<nat>, infos: seq<Info>)
    requires Looping(was, c, order, |order|, base, q, extra, left, moved, infos)
    requires Surplus(was, order, |order|, q) == q + extra && 1 <= q <= base && extra <= |order|
    ensures Plan(was, c, infos) && moved == Pulled(infos) && Bag(c) + multiset(moved) == Bag(was) && |moved| == q
    ensures About(c, order, |order|, q) && Dealt(was, c, order, |order|, q, extra, infos)
  {
    LoopIs(was, c, order, |order|, base, q, extra, left, moved, infos);
    StageIs(was, c, order, |order|, q, moved, infos);
    CountedAll(was, order, base, q, extra, left, |moved|);
  }

  // ---------- a whole join ----------

  /** What node `id` gets when it joins `was`, and how it is told: the first node gets everything and is
      told nothing, a later one gets its exact share and is told what to pull from whom. */
  ghost predicate Given(n: nat, was: Conf, c: Conf, id: nat, order: seq<nat>, infos: seq<Info>)
    requires id in c
  {
    forall x :: Broken(x) ==>
      if was.Keys == {} then c[id] == Upto(n) && infos == []
      else
        Plan(was, c - {id}, infos) && c[id] == Pulled(infos) && |c[id]| == n / (|was.Keys| + 1) &&
        Dealt(was, c - {id}, order, |order|, n / (|was.Keys| + 1), n % (|was.Keys| + 1), infos)
  }

  lemma GivenIs(n: nat, was: Conf, c: Conf, id: nat, order: seq<nat>, infos: seq<Info>)
    requires id in c
    ensures Given(n, was, c, id, order, infos) <==>
      if was.Keys == {} then c[id] == Upto(n) && infos == []
      else
        Plan(was, c - {id}, infos) && c[id] == Pulled(infos) && |c[id]| == n / (|was.Keys| + 1) &&
        Dealt(was, c - {id}, order, |order|, n / (|was.Keys| + 1), n % (|was.Keys| + 1), infos)
  {
    assert Broken(Seal);
  }

  /** `c` is `was` with node `id` joined, the nodes of `was` being walked in `order`. */
  ghost predicate Joined(n: nat, was: Conf, c: Conf, id: nat, order: seq<nat>, infos: seq<Info>) {
    id !in was && c.Keys == was.Keys + {id} && Good(n, c) && id in c && Given(n, was, c, id, order, infos)
  }

  lemma FirstJoined(n: nat, id: nat, order: seq<nat>)
    requires n > 0
    ensures Joined(n, map[], map[id := Upto(n)], id, order, [])
  {
    var none: Conf := map[];
    assert none[id := Upto(n)] == map[id := Upto(n)];
    BagPut(none, id, Upto(n));
    assert Even(map[id := Upto(n)], n / 1);
  }

  lemma EvenJoined(c: Conf, order: seq<nat>, id: nat, moved: seq<nat>)
    requires Walks(order, c.Keys) && About(c, order, |order|, |moved|)
    ensures Even(c[id := moved], |moved|)
  {
    forall o | o in c && o != id
      ensures AboutAt(c, o, |moved|)
    {
      var i :| 0 <= i < |order| && order[i] == o;
      assert AboutAt(c, order[i], |moved|);
    }
  }

  lemma PutNode<K>(c: map<K, seq<nat>>, id: K, s: seq<nat>)
    requires id !in c
    ensures c[id := s] - {id} == c && c[id := s].Keys == c.Keys + {id} && |c[id := s].Keys| == |c.Keys| + 1
  {
  }

  lemma LaterJoined(n: nat, was: Conf, order: seq<nat>, c: Conf, id: nat, moved: seq<nat>, infos: seq<Info>)
    requires was.Keys != {} && |was.Keys| < n && Good(n, was) && Walks(order, was.Keys) && id !in was
    requires |moved| == n / (|was.Keys| + 1) && Stage(was, c, order, |order|, |moved|, moved, infos)
    requires Dealt(was, c, order, |order|, |moved|, n % (|was.Keys| + 1), infos)
    ensures Joined(n, was, c[id := moved], id, order, infos)
  {
    GoodIs(n, was);
    StageIs(was, c, order, |order|, |moved|, moved, infos);
    PutNode(c, id, moved);
    BagPut(c, id, moved);
    EvenJoined(c, order, id, moved);
    GivenIs(n, was, c[id := moved], id, order, infos);
    GoodIs(n, c[id := moved]);
  }

  /** The arithmetic a join starts from. */
  lemma Shares(n: nat, was: Conf, order: seq<nat>, k: nat, base: nat, q: nat, extra: nat)
    requires k == |was.Keys| && 0 < k < n && Partition(n, was) && Even(was, base) && Walks(order, was.Keys)
    requires base == n / k && q == n / (k + 1) && extra == n % (k + 1)
    ensures About(was, order, |order|, base) && Surplus(was, order, |order|, q) == q + extra
    ensures 1 <= q <= base && extra <= |order|
  {
    SurplusAll(was, order, q);
    WeighsIs(was, Surplus(was, order, |order|, q) + Times(|order|, q));
    WalksSize(order, was.Keys);
    TimesIs(k, q);
    assert |Bag(was)| == n;
    Shrinks(n, k);
    QuotientPositive(n, k + 1);
    forall i | 0 <= i < |order|
      ensures AboutAt(was, order[i], base)
    {
      assert order[i] in was;
    }
  }

  /** No shard is pulled from two nodes. */
  lemma PlanDisjoint(n: nat, was: Conf, c: Conf, infos: seq<Info>, i: nat, j: nat, s: nat)
    requires Partition(n, was) && Plan(was, c, infos) && i < |infos| && j < |infos|
    requires s in infos[i].shards && s in infos[j].shards
    ensures i == j
  {
    assert Lost(was, c, infos[i]) && Lost(was, c, infos[j]);
    LostHeld(was, c, infos[i], s);
    LostHeld(was, c, infos[j], s);
    OneOwner(n, was, s);
  }

  lemma LostHeld(was: Conf, c: Conf, e: Info, s: nat)
    requires Lost(was, c, e) && s in e.shards
    ensures Holds(was, e.node, s)
  {
    var j :| 0 <= j < |e.shards| && e.shards[j] == s;
    assert was[e.node][|was[e.node]| - 1 - j] == s;
  }
}
