/** An AVL tree with unique keys as a finite map from keys to nodes. */
module TreeBucket {
  import opened Basics
  import opened AvlShape
  import opened AvlOrder
  import opened AvlWalk
  import opened Assoc

  function Pairs(s: seq<Node>): (p: seq<(int, Node)>)
    ensures |p| == |s| && forall i :: 0 <= i < |s| ==> p[i] == (s[i].key, s[i])
  {
    seq(|s|, i requires 0 <= i < |s| => (s[i].key, s[i]))
  }

  ghost function TDict(t: Tree): map<int, Node> {
    Dict(Pairs(InOrder(t)))
  }

  /** In order, and no key twice. */
  ghost predicate Keyed(t: Tree) {
    Sorted(InOrder(t)) && Distinct(Pairs(InOrder(t)))
  }

  lemma PairsConcat(a: seq<Node>, b: seq<Node>)
    ensures Pairs(a + b) == Pairs(a) + Pairs(b)
  {
  }

  lemma InsertsDict(s: seq<Node>, n: Node, u: seq<Node>)
    requires Inserts(s, n, u)
    ensures Distinct(Pairs(u)) <==> Distinct(Pairs(s)) && n.key !in Dict(Pairs(s))
    ensures n.key !in Dict(Pairs(s)) ==> Dict(Pairs(u)) == Dict(Pairs(s))[n.key := n]
    ensures Distinct(Pairs(u)) ==> Dict(Pairs(s)) == Dict(Pairs(u)) - {n.key}
  {
    var i :| 0 <= i <= |s| && u == s[..i] + [n] + s[i..];
    assert s == s[..i] + s[i..];
    PairsConcat(s[..i], s[i..]);
    PairsConcat(s[..i] + [n], s[i..]);
    PairsConcat(s[..i], [n]);
    assert Pairs([n]) == [(n.key, n)];
    DictInsert(Pairs(s[..i]), (n.key, n), Pairs(s[i..]));
  }

  lemma HasKeyDict(t: Tree, k: int)
    requires Keyed(t)
    ensures HasKey(t, k) <==> k in TDict(t)
  {
    var s := InOrder(t);
    if HasKey(t, k) {
      var x :| x in s && x.key == k;
      var i :| 0 <= i < |s| && s[i] == x;
      assert Pairs(s)[i] == (k, x);
      DictMember(Pairs(s), (k, x));
    }
    if k in TDict(t) {
      DictMember(Pairs(s), (k, TDict(t)[k]));
      var i :| 0 <= i < |s| && Pairs(s)[i] == (k, TDict(t)[k]);
      assert s[i] in s && s[i].key == k;
    }
  }

  /** FindNode: the descent ends at the node the map has under the key, or at a null slot. */
  lemma FindDict(t: Tree, k: int)
    requires Keyed(t)
    ensures Ptr(Descend(Top, t, k).1) == if k in TDict(t) then TDict(t)[k] else null
  {
    var (c, s) := Descend(Top, t, k);
    DescendFinds(t, k);
    HasKeyDict(t, k);
    if s.Br? {
      var u := InOrder(t);
      EraseAtSpec(c, s);
      var i := |Before(c) + InOrder(s.l)|;
      assert u[i] == s.n && Pairs(u)[i] == (k, s.n);
      DictMember(Pairs(u), (k, s.n));
    }
  }

  /** A unique insertion adds the node under its key, or changes nothing. */
  lemma PushDict(t: Tree, n: Node, h: nat)
    requires Keyed(t)
    ensures Keyed(Push(t, n, h))
    ensures TDict(Push(t, n, h)) == if n.key in TDict(t) then TDict(t) else TDict(t)[n.key := n]
  {
    PushSpec(t, n, h);
    HasKeyDict(t, n.key);
    if !HasKey(t, n.key) {
      InsertsDict(InOrder(t), n, InOrder(Push(t, n, h)));
    }
  }

  /** Removing by key removes that key. */
  lemma RemoveDict(t: Tree, k: int)
    requires Keyed(t)
    ensures Keyed(Remove(t, k)) && TDict(Remove(t, k)) == TDict(t) - {k}
  {
    RemoveSpec(t, k);
    HasKeyDict(t, k);
    var u := Remove(t, k);
    if HasKey(t, k) {
      var x :| x in InOrder(t) && x.key == k && Inserts(InOrder(u), x, InOrder(t));
      InsertsDict(InOrder(u), x, InOrder(t));
    }
  }

  /** The destructive walk hands out exactly the entries of the map. */
  lemma {:induction false} PostOrderDict(t: Tree)
    ensures Dict(Pairs(PostOrder(t))).Keys == TDict(t).Keys
    ensures Distinct(Pairs(InOrder(t))) ==> Distinct(Pairs(PostOrder(t))) && Dict(Pairs(PostOrder(t))) == TDict(t)
  {
    if t.Br? {
      PostOrderDict(t.l);
      PostOrderDict(t.r);
      var (l, r, n, pl, pr) := (InOrder(t.l), InOrder(t.r), (t.n.key, t.n), PostOrder(t.l), PostOrder(t.r));
      assert Pairs([t.n]) == [n];
      PairsConcat(l + [t.n], r);
      PairsConcat(l, [t.n]);
      PairsConcat(pl + pr, [t.n]);
      PairsConcat(pl, pr);
      Swap(Pairs(l), n, Pairs(r), Pairs(pl), Pairs(pr));
    }
  }

  lemma Swap<K, V>(l: seq<(K, V)>, n: (K, V), r: seq<(K, V)>, pl: seq<(K, V)>, pr: seq<(K, V)>)
    requires Dict(pl).Keys == Dict(l).Keys && Dict(pr).Keys == Dict(r).Keys
    requires Distinct(l) ==> Distinct(pl) && Dict(pl) == Dict(l)
    requires Distinct(r) ==> Distinct(pr) && Dict(pr) == Dict(r)
    ensures Dict((pl + pr) + [n]).Keys == Dict(l + [n] + r).Keys
    ensures Distinct(l + [n] + r) ==> Distinct((pl + pr) + [n]) && Dict((pl + pr) + [n]) == Dict(l + [n] + r)
  {
    DictInsert(l, n, r);
    DictInsert(pl + pr, n, []);
    assert (pl + pr) + [n] + [] == (pl + pr) + [n] && (pl + pr) + [] == pl + pr;
    DictAppend(l, r);
    DictAppend(pl, pr);
  }

  // ---------- what the walk of a bucket does to its two targets ----------

  /** The nodes pushed one after the other, with height 0. */
  function PushAll(t: Tree, ns: seq<Node>): Tree {
    if ns == [] then t else Push(PushAll(t, ns[..|ns| - 1]), ns[|ns| - 1], 0)
  }

  /** Those whose key goes to the upper bucket, or those whose key does not. */
  function Going(ns: seq<Node>, upper: int -> bool, up: bool): seq<Node> {
    if ns == [] then []
    else
      var n := ns[|ns| - 1];
      Going(ns[..|ns| - 1], upper, up) + if upper(n.key) == up then [n] else []
  }

  lemma GoingMore(t: Tree, ns: seq<Node>, n: Node, upper: int -> bool, up: bool)
    ensures PushAll(t, Going(ns + [n], upper, up)) ==
      if upper(n.key) == up then Push(PushAll(t, Going(ns, upper, up)), n, 0) else PushAll(t, Going(ns, upper, up))
  {
    assert (ns + [n])[..|ns|] == ns;
    var g := Going(ns, upper, up);
    assert (g + [n])[..|g|] == g && g + [] == g;
  }

  /** Of the buckets `was`, the one at `b` has got those of the nodes `ns` that stay low, the one a table
      of `size` further on the others, and the rest is untouched. */
  ghost predicate Sent(was: seq<Tree>, now: seq<Tree>, size: nat, b: nat, ns: seq<Node>, upper: int -> bool) {
    forall x :: Broken(x) ==>
      b < size && |was| == |now| == 2 * size &&
      now[b] == PushAll(was[b], Going(ns, upper, false)) &&
      now[b + size] == PushAll(was[b + size], Going(ns, upper, true)) &&
      forall i :: 0 <= i < |was| && i != b && i != b + size ==> now[i] == was[i]
  }

  lemma SentNone(was: seq<Tree>, size: nat, b: nat, upper: int -> bool)
    requires b < size && |was| == 2 * size
    ensures Sent(was, was, size, b, [], upper)
  {
  }

  lemma SentMore(was: seq<Tree>, now: seq<Tree>, size: nat, b: nat, ns: seq<Node>, upper: int -> bool, n: Node, to: nat)
    requires Sent(was, now, size, b, ns, upper) && to < |now| && to == if upper(n.key) then b + size else b
    ensures Sent(was, now[to := Push(now[to], n, 0)], size, b, ns + [n], upper)
  {
    assert Broken(Seal);
    GoingMore(was[b], ns, n, upper, false);
    GoingMore(was[b + size], ns, n, upper, true);
  }
}
