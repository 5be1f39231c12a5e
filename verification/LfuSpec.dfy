/** The LFU policy: frequency buckets in increasing order, refined against the bare statistics of
    every cached key. */
module LfuSpec {
  import opened Basics


  datatype Bucket = Bucket(freq: nat, items: seq<int>)

  /** How often a key was updated since it was last inserted, and when it was last updated. */
  datatype Stat = Stat(freq: nat, last: nat)

  predicate Worse(a: Stat, b: Stat) {
    a.freq < b.freq || (a.freq == b.freq && a.last < b.last)
  }

  // ---------- the four ways the lists change ----------

  function InsertBucket(s: seq<Bucket>, i: nat, f: nat): seq<Bucket>
    requires i <= |s|
  {
    s[..i] + [Bucket(f, [])] + s[i..]
  }

  function DropBucket(s: seq<Bucket>, i: nat): seq<Bucket>
    requires i < |s|
  {
    s[..i] + s[i + 1..]
  }

  function Append(s: seq<Bucket>, i: nat, k: int): seq<Bucket>
    requires i < |s|
  {
    s[i := Bucket(s[i].freq, s[i].items + [k])]
  }

  function Take(s: seq<Bucket>, i: nat, a: nat): seq<Bucket>
    requires i < |s| && a < |s[i].items|
  {
    s[i := Bucket(s[i].freq, s[i].items[..a] + s[i].items[a + 1..])]
  }

  // ---------- the operations ----------

  /** A key that is not cached enters the bucket of frequency 1. */
  function Add(s: seq<Bucket>, k: int): seq<Bucket> {
    if s == [] || s[0].freq > 1 then Append(InsertBucket(s, 0, 1), 0, k) else Append(s, 0, k)
  }

  function DropIfEmpty(s: seq<Bucket>, i: nat): seq<Bucket>
    requires i < |s|
  {
    if s[i].items == [] then DropBucket(s, i) else s
  }

  /** The a-th key of bucket `i` moves to the end of the bucket of the next frequency. */
  function Raise(s: seq<Bucket>, i: nat, a: nat): seq<Bucket>
    requires i < |s| && a < |s[i].items|
  {
    DropIfEmpty(Move(Prepare(s, i), i, a), i)
  }

  /** Make sure that bucket `i` is followed by the bucket of the next frequency. */
  function Prepare(s: seq<Bucket>, i: nat): (r: seq<Bucket>)
    requires i < |s|
    ensures |r| > i + 1 && r[i] == s[i]
  {
    if i + 1 == |s| || s[i + 1].freq - 1 > s[i].freq then InsertBucket(s, i + 1, s[i].freq + 1) else s
  }

  function Move(s: seq<Bucket>, i: nat, a: nat): (r: seq<Bucket>)
    requires i + 1 < |s| && a < |s[i].items|
    ensures |r| == |s|
  {
    Append(Take(s, i, a), i + 1, s[i].items[a])
  }

  function Remove(s: seq<Bucket>, i: nat, a: nat): seq<Bucket>
    requires i < |s| && a < |s[i].items|
  {
    DropIfEmpty(Take(s, i, a), i)
  }

  // ---------- what the buckets mean ----------

  predicate Increasing(s: seq<Bucket>) {
    forall i, j :: 0 <= i < j < |s| ==> s[i].freq < s[j].freq
  }

  /** A listed key has the frequency of its bucket and was updated before every later one in it. */
  predicate ItemOk(b: Bucket, a: nat, m: map<int, Stat>, now: nat)
    requires a < |b.items|
  {
    b.items[a] in m && m[b.items[a]].freq == b.freq && m[b.items[a]].last < now &&
    forall c :: a < c < |b.items| ==> b.items[c] in m && m[b.items[a]].last < m[b.items[c]].last
  }

  predicate BucketOk(b: Bucket, m: map<int, Stat>, now: nat) {
    forall a :: 0 <= a < |b.items| ==> ItemOk(b, a, m, now)
  }

  predicate Listed(s: seq<Bucket>, k: int) {
    exists i :: 0 <= i < |s| && k in s[i].items
  }

  /** The buckets list exactly the keys of `m`, by frequency and then by time of last update. */
  predicate Lists(s: seq<Bucket>, m: map<int, Stat>, now: nat) {
    Increasing(s) &&
    (forall i :: 0 <= i < |s| ==> BucketOk(s[i], m, now)) &&
    (forall k :: k in m ==> Listed(s, k))
  }

  predicate NoneEmpty(s: seq<Bucket>) {
    forall i :: 0 <= i < |s| ==> s[i].items != [] && s[i].freq >= 1
  }

  /** The front of the first bucket is the key with the least (frequency, last update). */
  lemma VictimIsWorst(s: seq<Bucket>, m: map<int, Stat>, now: nat, k: int)
    requires Lists(s, m, now) && NoneEmpty(s) && k in m
    ensures s != [] && s[0].items[0] in m && (k == s[0].items[0] || Worse(m[s[0].items[0]], m[k]))
  {
    assert Listed(s, k);
    var i :| 0 <= i < |s| && k in s[i].items;
    var a :| 0 <= a < |s[i].items| && s[i].items[a] == k;
    assert ItemOk(s[0], 0, m, now) && ItemOk(s[i], a, m, now);
  }

  lemma BucketAt(s: seq<Bucket>, i: nat, f: nat, j: nat)
    requires i <= |s| && j <= |s|
    ensures InsertBucket(s, i, f)[j] == if j < i then s[j] else if j == i then Bucket(f, []) else s[j - 1]
  {
  }

  lemma InsertIncreasing(s: seq<Bucket>, i: nat, f: nat)
    requires Increasing(s) && i <= |s| && (i > 0 ==> s[i - 1].freq < f) && (i < |s| ==> f < s[i].freq)
    ensures Increasing(InsertBucket(s, i, f))
  {
    var u := InsertBucket(s, i, f);
    forall j, k | 0 <= j < k < |u|
      ensures u[j].freq < u[k].freq
    {
      BucketAt(s, i, f, j);
      BucketAt(s, i, f, k);
    }
  }

  lemma InsertBucketOk(s: seq<Bucket>, i: nat, f: nat, m: map<int, Stat>, now: nat)
    requires Lists(s, m, now) && i <= |s|
    requires (i > 0 ==> s[i - 1].freq < f) && (i < |s| ==> f < s[i].freq)
    ensures Lists(InsertBucket(s, i, f), m, now)
  {
    var u := InsertBucket(s, i, f);
    InsertIncreasing(s, i, f);
    forall j | 0 <= j < |u|
      ensures BucketOk(u[j], m, now)
    {
      BucketAt(s, i, f, j);
    }
    forall k | k in m
      ensures Listed(u, k)
    {
      assert Listed(s, k);
      var j :| 0 <= j < |s| && k in s[j].items;
      BucketAt(s, i, f, if j < i then j else j + 1);
    }
  }

  lemma DropBucketOk(s: seq<Bucket>, i: nat, m: map<int, Stat>, now: nat)
    requires Lists(s, m, now) && i < |s| && s[i].items == []
    ensures Lists(DropBucket(s, i), m, now)
  {
    var u := DropBucket(s, i);
    assert forall j :: 0 <= j < |u| ==> u[j] == if j < i then s[j] else s[j + 1];
    forall k | k in m
      ensures Listed(u, k)
    {
      assert Listed(s, k);
      var j :| 0 <= j < |s| && k in s[j].items;
      assert k in u[if j < i then j else j - 1].items;
    }
  }

  lemma AppendOk(s: seq<Bucket>, i: nat, k: int, m: map<int, Stat>, now: nat)
    requires Lists(s, m, now) && i < |s| && k !in m
    ensures Lists(Append(s, i, k), m[k := Stat(s[i].freq, now)], now + 1)
  {
    var u, m' := Append(s, i, k), m[k := Stat(s[i].freq, now)];
    forall j | 0 <= j < |u|
      ensures BucketOk(u[j], m', now + 1)
    {
      AppendBucket(s[j], u[j], j == i, k, m, now, m');
    }
    forall x | x in m'
      ensures Listed(u, x)
    {
      if x == k {
        assert k in u[i].items;
      } else {
        assert Listed(s, x);
        var j :| 0 <= j < |s| && x in s[j].items;
        assert x in u[j].items;
      }
    }
  }

  lemma AppendBucket(b: Bucket, u: Bucket, here: bool, k: int, m: map<int, Stat>, now: nat, m': map<int, Stat>)
    requires BucketOk(b, m, now) && k !in m && k in m' && m' == m[k := m'[k]]
    requires if here then u == Bucket(b.freq, b.items + [k]) && m'[k] == Stat(b.freq, now) else u == b
    ensures BucketOk(u, m', now + 1)
  {
    var then' := now + 1;
    forall a | 0 <= a < |u.items|
      ensures ItemOk(u, a, m', then')
    {
      if a < |b.items| {
        assert ItemOk(b, a, m, now) && u.items[a] == b.items[a];
        forall c | a < c < |u.items|
          ensures u.items[c] in m' && m'[u.items[a]].last < m'[u.items[c]].last
        {
          assert c < |b.items| ==> u.items[c] == b.items[c] && ItemOk(b, c, m, now);
        }
      }
    }
  }

  lemma TakeOk(s: seq<Bucket>, i: nat, a: nat, m: map<int, Stat>, now: nat)
    requires Lists(s, m, now) && i < |s| && a < |s[i].items|
    ensures s[i].items[a] in m && Lists(Take(s, i, a), m - {s[i].items[a]}, now)
  {
    var u, k := Take(s, i, a), s[i].items[a];
    var m' := m - {k};
    assert ItemOk(s[i], a, m, now);
    forall j | 0 <= j < |u|
      ensures BucketOk(u[j], m', now)
    {
      forall b | 0 <= b < |u[j].items|
        ensures ItemOk(u[j], b, m', now)
      {
        TakeItem(s, i, a, m, now, j, b);
      }
    }
    forall x | x in m'
      ensures Listed(u, x)
    {
      assert Listed(s, x);
      var j :| 0 <= j < |s| && x in s[j].items;
      var b :| 0 <= b < |s[j].items| && s[j].items[b] == x;
      assert x == u[j].items[if j == i && b > a then b - 1 else b];
    }
  }

  lemma TakeItem(s: seq<Bucket>, i: nat, a: nat, m: map<int, Stat>, now: nat, j: nat, b: nat)
    requires Lists(s, m, now) && i < |s| && a < |s[i].items| && j < |s| && b < |Take(s, i, a)[j].items|
    ensures ItemOk(Take(s, i, a)[j], b, m - {s[i].items[a]}, now)
  {
    var u, k := Take(s, i, a), s[i].items[a];
    assert ItemOk(s[i], a, m, now);
    forall c | 0 <= c < |u[j].items|
      ensures var d := if j == i && c >= a then c + 1 else c;
        u[j].items[c] == s[j].items[d] && s[j].items[d] != k && ItemOk(s[j], d, m, now)
    {
      var d := if j == i && c >= a then c + 1 else c;
      assert u[j].items[c] == s[j].items[d];
      assert ItemOk(s[j], d, m, now);
    }
  }

  lemma Later(s: seq<Bucket>, m: map<int, Stat>, now: nat)
    requires Lists(s, m, now)
    ensures Lists(s, m, now + 1)
  {
    var then' := now + 1;
    forall i, a | 0 <= i < |s| && 0 <= a < |s[i].items|
      ensures ItemOk(s[i], a, m, then')
    {
      assert ItemOk(s[i], a, m, now);
    }
  }

  // ---------- the operations keep the meaning ----------

  lemma AddOk(s: seq<Bucket>, k: int, m: map<int, Stat>, now: nat)
    requires Lists(s, m, now) && NoneEmpty(s) && k !in m
    ensures Lists(Add(s, k), m[k := Stat(1, now)], now + 1) && NoneEmpty(Add(s, k))
  {
    if s == [] || s[0].freq > 1 {
      InsertBucketOk(s, 0, 1, m, now);
      AppendOk(InsertBucket(s, 0, 1), 0, k, m, now);
    } else {
      AppendOk(s, 0, k, m, now);
    }
  }

  lemma PrepareOk(s: seq<Bucket>, i: nat, m: map<int, Stat>, now: nat)
    requires Lists(s, m, now) && i < |s|
    ensures Lists(Prepare(s, i), m, now) && Prepare(s, i)[i + 1].freq == s[i].freq + 1
  {
    if i + 1 == |s| || s[i + 1].freq - 1 > s[i].freq {
      InsertBucketOk(s, i + 1, s[i].freq + 1, m, now);
      assert InsertBucket(s, i + 1, s[i].freq + 1)[i + 1] == Bucket(s[i].freq + 1, []);
    }
  }

  lemma PrepareFull(s: seq<Bucket>, i: nat)
    requires NoneEmpty(s) && i < |s|
    ensures var r := Prepare(s, i);
      forall j :: 0 <= j < |r| && j != i + 1 ==> r[j].items != [] && r[j].freq >= 1
  {
    OthersFull(s, i + 1, s[i].freq + 1);
  }

  lemma OthersFull(s: seq<Bucket>, i: nat, f: nat)
    requires NoneEmpty(s) && i <= |s|
    ensures var r := InsertBucket(s, i, f);
      r[i] == Bucket(f, []) && forall j :: 0 <= j < |r| && j != i ==> r[j].items != [] && r[j].freq >= 1
  {
    var r := InsertBucket(s, i, f);
    assert forall j :: 0 <= j < |r| && j != i ==> r[j] == s[if j < i then j else j - 1];
  }

  lemma MoveOk(s: seq<Bucket>, i: nat, a: nat, m: map<int, Stat>, now: nat)
    requires Lists(s, m, now) && i + 1 < |s| && a < |s[i].items|
    ensures var k := s[i].items[a];
      k in m && Lists(Move(s, i, a), m[k := Stat(s[i + 1].freq, now)], now + 1)
  {
    var k := s[i].items[a];
    TakeOk(s, i, a, m, now);
    AppendOk(Take(s, i, a), i + 1, k, m - {k}, now);
    assert (m - {k})[k := Stat(s[i + 1].freq, now)] == m[k := Stat(s[i + 1].freq, now)];
  }

  lemma DropIfEmptyOk(s: seq<Bucket>, i: nat, m: map<int, Stat>, now: nat)
    requires Lists(s, m, now) && i < |s| && forall j :: 0 <= j < |s| && j != i ==> s[j].items != []
    requires forall j :: 0 <= j < |s| ==> s[j].freq >= 1
    ensures Lists(DropIfEmpty(s, i), m, now) && NoneEmpty(DropIfEmpty(s, i))
  {
    if s[i].items == [] {
      DropBucketOk(s, i, m, now);
      var u := DropBucket(s, i);
      assert forall j :: 0 <= j < |u| ==> u[j] == s[if j < i then j else j + 1];
    }
  }

  lemma RaiseOk(s: seq<Bucket>, i: nat, a: nat, m: map<int, Stat>, now: nat)
    requires Lists(s, m, now) && NoneEmpty(s) && i < |s| && a < |s[i].items|
    ensures var k := s[i].items[a];
      k in m && m[k].freq == s[i].freq &&
      Lists(Raise(s, i, a), m[k := Stat(m[k].freq + 1, now)], now + 1) && NoneEmpty(Raise(s, i, a))
  {
    assert ItemOk(s[i], a, m, now);
    PrepareOk(s, i, m, now);
    PrepareFull(s, i);
    MoveOk(Prepare(s, i), i, a, m, now);
    var k := s[i].items[a];
    DropIfEmptyOk(Move(Prepare(s, i), i, a), i, m[k := Stat(m[k].freq + 1, now)], now + 1);
  }

  lemma RemoveOk(s: seq<Bucket>, i: nat, a: nat, m: map<int, Stat>, now: nat)
    requires Lists(s, m, now) && NoneEmpty(s) && i < |s| && a < |s[i].items|
    ensures s[i].items[a] in m
    ensures Lists(Remove(s, i, a), m - {s[i].items[a]}, now + 1) && NoneEmpty(Remove(s, i, a))
  {
    TakeOk(s, i, a, m, now);
    var u, m' := Take(s, i, a), m - {s[i].items[a]};
    DropIfEmptyOk(u, i, m', now);
    Later(Remove(s, i, a), m', now);
  }

  // ---------- whole histories ----------

  /** A key was updated, or left the cache by deletion or eviction. */
  datatype Event = Touch(k: int) | Gone(k: int)

  /** Updates of `k` since it last left the cache. */
  function Updates(h: seq<Event>, k: int): nat {
    if h == [] then 0
    else
      var n := Updates(h[..|h| - 1], k);
      match h[|h| - 1]
      case Touch(j) => if j == k then n + 1 else n
      case Gone(j) => if j == k then 0 else n
  }

  /** The position of the last update of `k`. */
  function LastUpdate(h: seq<Event>, k: int): nat {
    if h == [] then 0 else if h[|h| - 1] == Touch(k) then |h| - 1 else LastUpdate(h[..|h| - 1], k)
  }

  /** The update at position `i` counts: `k` has not left since. */
  predicate Counts(h: seq<Event>, k: int, i: nat) {
    i < |h| && h[i] == Touch(k) && forall j :: i < j < |h| ==> h[j] != Gone(k)
  }

  lemma {:induction false} UpdatesIs(h: seq<Event>, k: int)
    ensures Updates(h, k) == |set i: nat | i < |h| && Counts(h, k, i)|
  {
    var s := set i: nat | i < |h| && Counts(h, k, i);
    if h != [] {
      var g, e := h[..|h| - 1], h[|h| - 1];
      UpdatesIs(g, k);
      var r := set i: nat | i < |g| && Counts(g, k, i);
      forall i: nat | i < |h|
        ensures i in s <==> e != Gone(k) && (i in r || (i == |g| && e == Touch(k)))
      {
        CountsStep(h, k, i);
      }
      assert s == if e == Gone(k) then {} else if e == Touch(k) then r + {|g|} else r;
    }
  }

  lemma CountsStep(h: seq<Event>, k: int, i: nat)
    requires i < |h|
    ensures var g, e := h[..|h| - 1], h[|h| - 1];
      Counts(h, k, i) <==> e != Gone(k) && (Counts(g, k, i) || (i == |g| && e == Touch(k)))
  {
    var g := h[..|h| - 1];
    assert forall j :: 0 <= j < |g| ==> h[j] == g[j];
  }

  lemma {:induction false} LastUpdateIs(h: seq<Event>, k: int)
    requires Updates(h, k) > 0
    ensures var i := LastUpdate(h, k);
      i < |h| && h[i] == Touch(k) && forall j :: i < j < |h| ==> h[j] != Touch(k) && h[j] != Gone(k)
  {
    var g, e := h[..|h| - 1], h[|h| - 1];
    if e != Touch(k) {
      LastUpdateIs(g, k);
      assert forall j :: 0 <= j < |g| ==> h[j] == g[j];
    }
  }

  predicate TellsKey(h: seq<Event>, m: map<int, Stat>, k: int) {
    (k in m <==> Updates(h, k) > 0) && (k in m ==> m[k] == Stat(Updates(h, k), LastUpdate(h, k)))
  }

  /** `m` is the statistics of the history `h`. */
  ghost predicate Tells(h: seq<Event>, m: map<int, Stat>) {
    forall k :: TellsKey(h, m, k)
  }

  lemma TellsStep(h: seq<Event>, m: map<int, Stat>, e: Event)
    requires Tells(h, m)
    ensures e.Touch? && e.k !in m ==> Tells(h + [e], m[e.k := Stat(1, |h|)])
    ensures e.Touch? && e.k in m ==> Tells(h + [e], m[e.k := Stat(m[e.k].freq + 1, |h|)])
    ensures e.Gone? ==> Tells(h + [e], m - {e.k})
  {
    var g := h + [e];
    var freq := if e.k in m then m[e.k].freq + 1 else 1;
    var m' := if e.Gone? then m - {e.k} else m[e.k := Stat(freq, |h|)];
    assert g[..|h|] == h;
    forall k: int
      ensures TellsKey(g, m', k)
    {
      assert TellsKey(h, m, k);
    }
  }

  lemma NotListed(s: seq<Bucket>, m: map<int, Stat>, now: nat, k: int)
    requires Lists(s, m, now) && k !in m
    ensures !Listed(s, k)
  {
    forall i, a | 0 <= i < |s| && 0 <= a < |s[i].items|
      ensures s[i].items[a] != k
    {
      assert ItemOk(s[i], a, m, now);
    }
  }

  // ---------- buckets and history together ----------

  /** The buckets `s` are right for the history `h`, whose statistics are `m`, over the cached keys. */
  ghost predicate Meaning(keys: set<int>, s: seq<Bucket>, m: map<int, Stat>, h: seq<Event>) {
    forall x :: Broken(x) ==> keys == m.Keys && Lists(s, m, |h|) && NoneEmpty(s) && Tells(h, m)
  }

  lemma MeaningIs(keys: set<int>, s: seq<Bucket>, m: map<int, Stat>, h: seq<Event>)
    ensures Meaning(keys, s, m, h) <==> keys == m.Keys && Lists(s, m, |h|) && NoneEmpty(s) && Tells(h, m)
  {
    assert Broken(Seal);
  }

  lemma MeaningAdd(keys: set<int>, s: seq<Bucket>, m: map<int, Stat>, h: seq<Event>, k: int)
    requires Meaning(keys, s, m, h) && k !in keys
    ensures !Listed(s, k) && Meaning(keys + {k}, Add(s, k), m[k := Stat(1, |h|)], h + [Touch(k)])
  {
    MeaningNew(keys, s, m, h, k);
    MeaningIs(keys, s, m, h);
    AddOk(s, k, m, |h|);
    TellsStep(h, m, Touch(k));
  }

  lemma MeaningNew(keys: set<int>, s: seq<Bucket>, m: map<int, Stat>, h: seq<Event>, k: int)
    requires Meaning(keys, s, m, h) && k !in keys
    ensures !Listed(s, k)
  {
    MeaningIs(keys, s, m, h);
    NotListed(s, m, |h|, k);
  }

  lemma MeaningRaise(keys: set<int>, s: seq<Bucket>, m: map<int, Stat>, h: seq<Event>, i: nat, a: nat)
    requires Meaning(keys, s, m, h) && i < |s| && a < |s[i].items|
    ensures var k := s[i].items[a];
      k in m && !Listed(Take(Prepare(s, i), i, a), k) &&
      Meaning(keys, Raise(s, i, a), m[k := Stat(m[k].freq + 1, |h|)], h + [Touch(k)])
  {
    var k := s[i].items[a];
    MeaningIs(keys, s, m, h);
    PrepareOk(s, i, m, |h|);
    TakeOk(Prepare(s, i), i, a, m, |h|);
    NotListed(Take(Prepare(s, i), i, a), m - {k}, |h|, k);
    RaiseOk(s, i, a, m, |h|);
    TellsStep(h, m, Touch(k));
  }

  lemma MeaningTouch(keys: set<int>, s: seq<Bucket>, m: map<int, Stat>, h: seq<Event>, i: nat, a: nat, k: int)
    returns (s1: seq<Bucket>, m1: map<int, Stat>)
    requires Meaning(keys, s, m, h) && i < |s| && a < |s[i].items| && s[i].items[a] == k
    ensures s1 == Raise(s, i, a) && !Listed(Take(Prepare(s, i), i, a), k) && Meaning(keys, s1, m1, h + [Touch(k)])
  {
    MeaningRaise(keys, s, m, h, i, a);
    s1, m1 := Raise(s, i, a), m[k := Stat(m[k].freq + 1, |h|)];
  }

  lemma MeaningRemove(keys: set<int>, s: seq<Bucket>, m: map<int, Stat>, h: seq<Event>, i: nat, a: nat)
    requires Meaning(keys, s, m, h) && i < |s| && a < |s[i].items|
    ensures var k := s[i].items[a];
      k in m && Meaning(keys - {k}, Remove(s, i, a), m - {k}, h + [Gone(k)]) && !Listed(Remove(s, i, a), k)
  {
    var k := s[i].items[a];
    MeaningIs(keys, s, m, h);
    RemoveOk(s, i, a, m, |h|);
    TellsStep(h, m, Gone(k));
    NotListed(Remove(s, i, a), m - {k}, |h| + 1, k);
  }

  // ---------- what a history says, without the cache ----------

  /** Updated since it was last removed. */
  predicate Cached(h: seq<Event>, k: int) {
    Updates(h, k) > 0
  }

  /** Fewer updates since insertion, or equally many and the last of them longer ago. */
  predicate WorseKey(h: seq<Event>, v: int, k: int) {
    Worse(Stat(Updates(h, v), LastUpdate(h, v)), Stat(Updates(h, k), LastUpdate(h, k)))
  }

  ghost predicate IsVictim(h: seq<Event>, v: int) {
    Cached(h, v) && forall k :: Cached(h, k) && k != v ==> WorseKey(h, v, k)
  }

  lemma MeaningKeys(keys: set<int>, s: seq<Bucket>, m: map<int, Stat>, h: seq<Event>, k: int)
    requires Meaning(keys, s, m, h)
    ensures k in keys <==> Cached(h, k)
  {
    MeaningIs(keys, s, m, h);
    assert TellsKey(h, m, k);
  }

  /** The front of the first bucket is the victim. */
  lemma MeaningVictim(keys: set<int>, s: seq<Bucket>, m: map<int, Stat>, h: seq<Event>)
    requires Meaning(keys, s, m, h) && |keys| > 0
    ensures s != [] && s[0].items != [] && IsVictim(h, s[0].items[0])
  {
    MeaningIs(keys, s, m, h);
    var some := Member(keys);
    VictimIsWorst(s, m, |h|, some);
    var v := s[0].items[0];
    assert TellsKey(h, m, v);
    forall k | Cached(h, k) && k != v
      ensures WorseKey(h, v, k)
    {
      assert TellsKey(h, m, k);
      VictimIsWorst(s, m, |h|, k);
    }
  }

  /** No two keys are both the victim. */
  lemma VictimUnique(h: seq<Event>, v: int, w: int)
    requires IsVictim(h, v) && IsVictim(h, w)
    ensures v == w
  {
    assert v != w ==> WorseKey(h, v, w) && WorseKey(h, w, v);
  }
}
