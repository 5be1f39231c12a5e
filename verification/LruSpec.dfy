/** The LRU policy as a sequence of keys, most recently used first, and its meaning over whole
    access histories. */
module LruSpec {

  datatype Event = Touch(k: int) | Del(k: int) | Evict | Wipe

  function Without(s: seq<int>, k: int): seq<int> {
    if s == [] then [] else if s[0] == k then s[1..] else [s[0]] + Without(s[1..], k)
  }

  function DropLast(s: seq<int>): seq<int> {
    if s == [] then [] else s[..|s| - 1]
  }

  function Update(s: seq<int>, cap: nat, k: int): seq<int> {
    if cap == 0 then s
    else if k in s then [k] + Without(s, k)
    else [k] + if |s| >= cap then DropLast(s) else s
  }

  function Step(s: seq<int>, cap: nat, e: Event): seq<int> {
    match e
    case Touch(k) => Update(s, cap, k)
    case Del(k) => Without(s, k)
    case Evict => DropLast(s)
    case Wipe => []
  }

  function Run(h: seq<Event>, cap: nat): seq<int> {
    if h == [] then [] else Step(Run(h[..|h| - 1], cap), cap, h[|h| - 1])
  }

  lemma RunStep(h: seq<Event>, cap: nat, e: Event)
    ensures Run(h + [e], cap) == Step(Run(h, cap), cap, e)
  {
    assert (h + [e])[..|h|] == h;
  }

  // ---------- the reference: times of last use ----------

  /** When `k` was last used: the 1-based position of the last Touch(k), 0 if there is none. */
  function LastUse(h: seq<Event>, k: int): nat {
    if h == [] then 0 else if h[|h| - 1] == Touch(k) then |h| else LastUse(h[..|h| - 1], k)
  }

  lemma {:induction false} LastUseIs(h: seq<Event>, k: int)
    ensures var i := LastUse(h, k);
      i <= |h| && (i > 0 ==> h[i - 1] == Touch(k)) && forall j :: i <= j < |h| ==> h[j] != Touch(k)
  {
    if h != [] {
      var g := h[..|h| - 1];
      LastUseIs(g, k);
      assert forall j :: 0 <= j < |g| ==> h[j] == g[j];
    }
  }

  /** Listed keys were used, and each more recently than the ones after it. */
  predicate ByRecency(s: seq<int>, h: seq<Event>) {
    (forall i :: 0 <= i < |s| ==> LastUse(h, s[i]) > 0) &&
    (forall i, j :: 0 <= i < j < |s| ==> LastUse(h, s[i]) > LastUse(h, s[j]))
  }

  lemma {:induction false} LastUseBound(h: seq<Event>, k: int)
    ensures LastUse(h, k) <= |h|
  {
    if h != [] {
      LastUseBound(h[..|h| - 1], k);
    }
  }

  lemma {:induction false} WithoutSpec(s: seq<int>, k: int, h: seq<Event>)
    requires ByRecency(s, h)
    ensures ByRecency(Without(s, k), h) && k !in Without(s, k)
    ensures forall x :: x in Without(s, k) <==> x in s && x != k
    ensures |Without(s, k)| == if k in s then |s| - 1 else |s|
  {
    if s != [] {
      var r := s[1..];
      assert forall i :: 0 <= i < |r| ==> r[i] == s[i + 1];
      WithoutSpec(r, k, h);
      if s[0] == k {
        assert k !in r;
      } else {
        var w := Without(r, k);
        forall j | 0 <= j < |w|
          ensures LastUse(h, s[0]) > LastUse(h, w[j])
        {
          assert w[j] in r;
          var i :| 0 <= i < |r| && r[i] == w[j];
        }
      }
    }
  }

  /** Time passes for a key that is not used. */
  lemma LastUseStep(h: seq<Event>, e: Event, k: int)
    ensures LastUse(h + [e], k) == if e == Touch(k) then |h| + 1 else LastUse(h, k)
  {
    assert (h + [e])[..|h|] == h;
  }

  lemma {:induction false} StepSound(s: seq<int>, cap: nat, h: seq<Event>, e: Event)
    requires ByRecency(s, h) && |s| <= cap
    ensures ByRecency(Step(s, cap, e), h + [e]) && |Step(s, cap, e)| <= cap
  {
    var h' := h + [e];
    match e
    case Touch(k) =>
      if cap > 0 {
        WithoutSpec(s, k, h);
        var r := if k in s then Without(s, k) else if |s| >= cap then DropLast(s) else s;
        assert k !in r;
        PushSound(r, h, k);
      } else {
        assert s == [];
      }
    case Del(k) =>
      WithoutSpec(s, k, h);
      Unused(Without(s, k), h, e);
    case Evict =>
      Unused(DropLast(s), h, e);
    case Wipe =>
  }

  lemma Unused(s: seq<int>, h: seq<Event>, e: Event)
    requires ByRecency(s, h) && !e.Touch?
    ensures ByRecency(s, h + [e])
  {
    forall i | 0 <= i < |s|
      ensures LastUse(h + [e], s[i]) == LastUse(h, s[i])
    {
      LastUseStep(h, e, s[i]);
    }
  }

  lemma PushSound(r: seq<int>, h: seq<Event>, k: int)
    requires ByRecency(r, h) && k !in r
    ensures ByRecency([k] + r, h + [Touch(k)])
  {
    var h', s := h + [Touch(k)], [k] + r;
    LastUseStep(h, Touch(k), k);
    forall i | 0 <= i < |r|
      ensures s[i + 1] == r[i] && LastUse(h', r[i]) == LastUse(h, r[i]) <= |h|
    {
      LastUseStep(h, Touch(k), r[i]);
      LastUseBound(h, r[i]);
    }
    forall i, j | 0 <= i < j < |s|
      ensures LastUse(h', s[i]) > LastUse(h', s[j])
    {
      assert s[j] == r[j - 1];
      if i > 0 {
        assert s[i] == r[i - 1];
      }
    }
  }

  /** In every history, deletions included: at most `cap` keys, each once, most recent first. */
  lemma {:induction false} RunSound(h: seq<Event>, cap: nat)
    ensures ByRecency(Run(h, cap), h) && |Run(h, cap)| <= cap
  {
    if h != [] {
      var g, e := h[..|h| - 1], h[|h| - 1];
      RunSound(g, cap);
      StepSound(Run(g, cap), cap, g, e);
      assert g + [e] == h;
    }
  }

  // ---------- histories without deletions ----------

  predicate OnlyTouches(h: seq<Event>) {
    forall i :: 0 <= i < |h| ==> h[i].Touch?
  }

  /** All keys ever used, most recent first: the cache of unbounded capacity. */
  function Recent(h: seq<Event>): seq<int>
    requires OnlyTouches(h)
  {
    if h == [] then [] else [h[|h| - 1].k] + Without(Recent(h[..|h| - 1]), h[|h| - 1].k)
  }

  function Take(s: seq<int>, n: nat): seq<int> {
    if |s| <= n then s else s[..n]
  }

  lemma TakeCons(x: int, r: seq<int>, n: nat)
    ensures Take([x] + r, n + 1) == [x] + Take(r, n)
  {
  }

  lemma WithoutCons(x: int, r: seq<int>, k: int)
    requires x != k
    ensures Without([x] + r, k) == [x] + Without(r, k) && (k in [x] + r <==> k in r)
  {
    assert ([x] + r)[1..] == r;
  }

  lemma {:induction false} TakeWithout(s: seq<int>, k: int, n: nat)
    ensures Take(Without(s, k), n) == if k in Take(s, n + 1) then Without(Take(s, n + 1), k) else Take(s, n)
    decreases s
  {
    if s != [] && s[0] != k {
      var r := s[1..];
      if n > 0 {
        TakeWithout(r, k, n - 1);
        assert s == [s[0]] + r;
        TakeCons(s[0], r, n);
        TakeCons(s[0], r, n - 1);
        TakeCons(s[0], Without(r, k), n - 1);
        WithoutCons(s[0], Take(r, n), k);
      } else {
        assert Take(s, 1) == [s[0]];
      }
    }
  }

  lemma TakeNext(r: seq<int>, w: seq<int>, k: int, cap: nat)
    requires cap > 0
    ensures Take([k] + w, cap) == [k] + Take(w, cap - 1)
    ensures |r| >= cap ==> DropLast(Take(r, cap)) == Take(r, cap - 1)
  {
  }

  /** A cache of capacity `cap` holds exactly the `cap` most recently used keys, in order. */
  lemma {:induction false} RunIsRecent(h: seq<Event>, cap: nat)
    requires OnlyTouches(h)
    ensures Run(h, cap) == Take(Recent(h), cap)
  {
    if h != [] && cap > 0 {
      var g, k := h[..|h| - 1], h[|h| - 1].k;
      RunIsRecent(g, cap);
      var r := Recent(g);
      TakeWithout(r, k, cap - 1);
      TakeNext(r, Without(r, k), k, cap);
    } else if h != [] {
      RunIsRecent(h[..|h| - 1], cap);
    }
  }

  /** Inclusion: a larger cache always contains a smaller one fed with the same uses. */
  lemma Inclusion(h: seq<Event>, cap: nat)
    requires OnlyTouches(h)
    ensures Run(h, cap) <= Run(h, cap + 1)
  {
    RunIsRecent(h, cap);
    RunIsRecent(h, cap + 1);
  }

  function Used(h: seq<Event>): set<int> {
    set i | 0 <= i < |h| && h[i].Touch? :: h[i].k
  }

  /** The keys used more recently than `k`. */
  function Later(h: seq<Event>, k: int): set<int> {
    set j | j in Used(h) && LastUse(h, j) > LastUse(h, k)
  }

  lemma {:induction false} RecentSound(h: seq<Event>)
    requires OnlyTouches(h)
    ensures ByRecency(Recent(h), h) && forall k :: k in Recent(h) <==> k in Used(h)
  {
    if h != [] {
      var g, k := h[..|h| - 1], h[|h| - 1].k;
      RecentSound(g);
      WithoutSpec(Recent(g), k, g);
      PushSound(Without(Recent(g), k), g, k);
      assert g + [Touch(k)] == h;
      assert Used(h) == Used(g) + {k};
    }
  }

  /** The least recently used policy, said without the list: a key is cached exactly when it was
      used and fewer than `cap` other keys were used since. */
  lemma CachedIff(h: seq<Event>, cap: nat, k: int)
    requires OnlyTouches(h)
    ensures k in Run(h, cap) <==> k in Used(h) && |Later(h, k)| < cap
  {
    var r := Recent(h);
    RunIsRecent(h, cap);
    RecentSound(h);
    if k in Used(h) {
      var i :| 0 <= i < |r| && r[i] == k;
      LaterIs(h, r, i);
      assert k in Take(r, cap) <==> i < cap by {
        if i < cap {
          assert Take(r, cap)[i] == k;
        }
      }
    }
  }

  lemma LaterIs(h: seq<Event>, r: seq<int>, i: nat)
    requires ByRecency(r, h) && i < |r| && forall k :: k in r <==> k in Used(h)
    ensures |Later(h, r[i])| == i
  {
    Prefix(r, h, i);
    var p := set j | 0 <= j < i :: r[j];
    forall k
      ensures k in Later(h, r[i]) <==> k in p
    {
      if k in Later(h, r[i]) {
        var j :| 0 <= j < |r| && r[j] == k;
        assert j < i;
      }
    }
    assert Later(h, r[i]) == p;
  }

  lemma {:induction false} Prefix(r: seq<int>, h: seq<Event>, i: nat)
    requires ByRecency(r, h) && i <= |r|
    ensures |set j | 0 <= j < i :: r[j]| == i
  {
    if i > 0 {
      Prefix(r, h, i - 1);
      assert (set j | 0 <= j < i :: r[j]) == (set j | 0 <= j < i - 1 :: r[j]) + {r[i - 1]};
    }
  }
}
