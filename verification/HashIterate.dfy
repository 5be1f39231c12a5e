/** The hash table's iterator, and the set operations built on it. */
module HashIterate {
  import opened Assoc
  import opened Basics
  import opened TwoTables
  import opened HashTableModel

  // ---------- the entries of a table, in iteration order ----------

  function Flat<T>(t: seq<seq<T>>): seq<T> {
    if t == [] then [] else t[0] + Flat(t[1..])
  }

  lemma {:induction false} FlatAppend<T>(t: seq<seq<T>>, u: seq<seq<T>>)
    ensures Flat(t + u) == Flat(t) + Flat(u)
  {
    if t == [] {
      assert t + u == u;
    } else {
      FlatAppend(t[1..], u);
      assert (t + u)[1..] == t[1..] + u;
      Associate(t[0], Flat(t[1..]), Flat(u));
    }
  }

  lemma Associate<T>(a: seq<T>, b: seq<T>, c: seq<T>)
    ensures a + (b + c) == (a + b) + c
  {
  }

  /** The place of an entry: behind all earlier buckets. */
  lemma {:induction false} FlatAt<T>(t: seq<seq<T>>, i: nat, a: nat)
    requires i < |t| && a < |t[i]|
    ensures |Flat(t[..i])| + a < |Flat(t)| && Flat(t)[|Flat(t[..i])| + a] == t[i][a]
  {
    assert t == t[..i] + ([t[i]] + t[i + 1..]);
    FlatAppend(t[..i], [t[i]] + t[i + 1..]);
    assert ([t[i]] + t[i + 1..])[1..] == t[i + 1..];
    assert Flat([t[i]] + t[i + 1..]) == t[i] + Flat(t[i + 1..]);
  }

  /** How many entries are in the first `i` buckets. */
  lemma {:induction false} FlatSize<T>(t: seq<seq<T>>, i: nat)
    requires i < |t|
    ensures |Flat(t[..i + 1])| == |Flat(t[..i])| + |t[i]| && |Flat(t[..0])| == 0
  {
    assert t[..i + 1] == t[..i] + [t[i]] && Flat([t[i]]) == t[i];
    FlatAppend(t[..i], [t[i]]);
  }

  /** What the first `n` buckets hold: each key of theirs once. */
  ghost predicate FlatKey<K, V>(t: seq<seq<(K, V)>>, hash: K -> nat, n: nat, k: K)
    requires n <= |t|
  {
    var d := Dict(Flat(t[..n]));
    (k in d <==> In(Maps(t), hash, k) && Index(hash, k, |t|) < n) &&
    (k in d ==> In(Maps(t), hash, k) && d[k] == At(Maps(t), hash, k))
  }

  lemma {:induction false} FlatDict<K(!new), V>(t: seq<seq<(K, V)>>, hash: K -> nat, from: int, n: nat)
    requires AllDistinct(t) && Placed(Maps(t), hash, from) && n <= |t|
    ensures Distinct(Flat(t[..n])) && forall k :: FlatKey(t, hash, n, k)
  {
    if n > 0 {
      var i := n - 1;
      FlatDict(t, hash, from, i);
      assert t[..n] == t[..i] + [t[i]] && Flat([t[i]]) == t[i];
      FlatAppend(t[..i], [t[i]]);
      DictAppend(Flat(t[..i]), t[i]);
      forall k: K
        ensures FlatKey(t, hash, n, k) && !(k in Dict(Flat(t[..i])) && k in Dict(t[i]))
      {
        FlatStep(t, hash, from, i, k);
      }
    }
  }

  lemma FlatStep<K(!new), V>(t: seq<seq<(K, V)>>, hash: K -> nat, from: int, i: nat, k: K)
    requires i < |t| && PlacedKey(Maps(t), hash, from, i, k) && FlatKey(t, hash, i, k)
    requires Dict(Flat(t[..i + 1])) == Dict(t[i]) + Dict(Flat(t[..i]))
    ensures FlatKey(t, hash, i + 1, k) && !(k in Dict(Flat(t[..i])) && k in Dict(t[i]))
  {
  }

  lemma EntriesDict<K(!new), V>(t1: seq<seq<(K, V)>>, t2: seq<seq<(K, V)>>, idx: int, hash: K -> nat, m: map<K, V>)
    requires AllDistinct(t1) && AllDistinct(t2) && Inv(Tables(Maps(t1), Maps(t2), idx), hash, m)
    ensures Distinct(Flat(t1) + Flat(t2)) && Dict(Flat(t1) + Flat(t2)) == m
  {
    var s := Tables(Maps(t1), Maps(t2), idx);
    FlatDict(t1, hash, idx, |t1|);
    FlatDict(t2, hash, 0, |t2|);
    assert t1[..|t1|] == t1 && t2[..|t2|] == t2;
    DictAppend(Flat(t1), Flat(t2));
    forall k: K
      ensures !(k in Dict(Flat(t1)) && k in Dict(Flat(t2)))
      ensures k in Dict(Flat(t1) + Flat(t2)) <==> k in m
      ensures k in m ==> Dict(Flat(t1) + Flat(t2))[k] == m[k]
    {
      assert FlatKey(t1, hash, |t1|, k) && FlatKey(t2, hash, |t2|, k) && HoldsKey(s, hash, m, k);
    }
  }

  ghost function Entries<K(!new), V>(t: HashTable<K, V>): seq<(K, V)>
    reads t
  {
    Flat(t.t1) + Flat(t.t2)
  }

  /** The iteration order lists every entry of the map once, and `used` counts them. */
  lemma EntriesSpec<K(!new), V>(t: HashTable<K, V>)
    requires t.Valid()
    ensures Distinct(Entries(t)) && Dict(Entries(t)) == t.m && |Entries(t)| == t.used
  {
    EntriesDict(t.t1, t.t2, t.idx, t.hash, t.m);
    DictSize(Entries(t));
  }

  /** Table 1 comes before table 2, a bucket before the next one, and a list from its front. */
  lemma EntriesInOrder<K(!new), V>(t: HashTable<K, V>, i: nat, a: nat)
    ensures i < |t.t1| && a < |t.t1[i]| ==>
      |Flat(t.t1[..i])| + a < |Entries(t)| && Entries(t)[|Flat(t.t1[..i])| + a] == t.t1[i][a]
    ensures i < |t.t2| && a < |t.t2[i]| ==>
      var j := |Flat(t.t1)| + |Flat(t.t2[..i])| + a; j < |Entries(t)| && Entries(t)[j] == t.t2[i][a]
  {
    if i < |t.t1| && a < |t.t1[i]| {
      FlatAt(t.t1, i, a);
    }
    if i < |t.t2| && a < |t.t2[i]| {
      FlatAt(t.t2, i, a);
    }
  }

  // ---------- the iterator ----------

  /** A slot: table 0 or 1, bucket and place in its list.  `End` is the null slot. */
  datatype Cursor = End | Cursor(table: nat, bucket: nat, at: nat)

  function Table<K(!new), V>(t: HashTable<K, V>, i: nat): seq<seq<(K, V)>>
    reads t
  {
    if i == 0 then t.t1 else t.t2
  }

  predicate OnSlot<K(!new), V>(t: HashTable<K, V>, c: Cursor)
    reads t
  {
    c.End? || (c.table < 2 && c.bucket < |Table(t, c.table)| && c.at < |Table(t, c.table)[c.bucket]|)
  }

  /** What is in table `i` and after it, from bucket `j` on. */
  ghost function After<K(!new), V>(t: HashTable<K, V>, i: nat, j: nat): seq<(K, V)>
    requires i < 2 ==> j <= |Table(t, i)|
    reads t
  {
    if i >= 2 then [] else Flat(Table(t, i)[j..]) + if i == 0 then Flat(t.t2) else []
  }

  /** The entries from the cursor on. */
  ghost function Rest<K(!new), V>(t: HashTable<K, V>, c: Cursor): seq<(K, V)>
    requires OnSlot(t, c)
    reads t
  {
    if c.End? then [] else Table(t, c.table)[c.bucket][c.at..] + After(t, c.table, c.bucket + 1)
  }

  /** The first bucket from `j` on that is not empty. */
  method NextBucket<T>(t: seq<seq<T>>, j: nat) returns (b: nat)
    requires j <= |t|
    ensures j <= b <= |t| && (b < |t| ==> t[b] != []) && Flat(t[j..]) == Flat(t[b..])
  {
    b := j;
    while b < |t| && |t[b]| == 0
      invariant j <= b <= |t| && Flat(t[j..]) == Flat(t[b..])
    {
      assert t[b..] == [t[b]] + t[b + 1..];
      b := b + 1;
    }
  }

  lemma AtFront<K(!new), V>(t: HashTable<K, V>, i: nat, b: nat)
    requires i < 2 && b < |Table(t, i)| && Table(t, i)[b] != []
    ensures Rest(t, Cursor(i, b, 0)) == After(t, i, b)
  {
    var u := Table(t, i);
    assert u[b..] == [u[b]] + u[b + 1..] && u[b][0..] == u[b];
    Associate(u[b], Flat(u[b + 1..]), if i == 0 then Flat(t.t2) else []);
  }

  lemma AtEnd<K(!new), V>(t: HashTable<K, V>, i: nat)
    requires i < 2
    ensures After(t, i, |Table(t, i)|) == if i == 0 then After(t, 1, 0) else []
  {
    assert Table(t, i)[|Table(t, i)|..] == [] && t.t2[0..] == t.t2;
  }

  /** The search both the constructor and Increment make: the rest of one table, then the other. */
  method Seek<K(!new), V>(t: HashTable<K, V>, table: nat, bucket: nat) returns (c: Cursor)
    requires table < 2 && bucket <= |Table(t, table)|
    ensures OnSlot(t, c) && Rest(t, c) == After(t, table, bucket)
  {
    var i: nat, j: nat := table, bucket;
    while i < 2
      invariant table <= i <= 2 && (i < 2 ==> j <= |Table(t, i)|)
      invariant After(t, i, j) == After(t, table, bucket)
    {
      var b := NextBucket(Table(t, i), j);
      if b < |Table(t, i)| {
        AtFront(t, i, b);
        return Cursor(i, b, 0);
      }
      AtEnd(t, i);
      i, j := i + 1, 0;
    }
    c := End;
  }

  /** The iterator's constructor. */
  method Begin<K(!new), V>(t: HashTable<K, V>) returns (c: Cursor)
    ensures OnSlot(t, c) && Rest(t, c) == Entries(t)
  {
    assert t.t1[0..] == t.t1;
    c := Seek(t, 0, 0);
  }

  /** Increment: to the next element of the list, or to the next list. */
  method Increment<K(!new), V>(t: HashTable<K, V>, c: Cursor) returns (d: Cursor)
    requires OnSlot(t, c) && c != End
    ensures OnSlot(t, d) && Rest(t, d) == Rest(t, c)[1..]
  {
    var list := Table(t, c.table)[c.bucket];
    assert list[c.at..][1..] == list[c.at + 1..];
    if c.at + 1 < |list| {
      d := Cursor(c.table, c.bucket, c.at + 1);
    } else {
      d := Seek(t, c.table, c.bucket + 1);
    }
  }

  // ---------- the set operations ----------

  type HashSet<K(==, !new)> = HashTable<K, ()>

  /** The keys whose membership in `keys` is as wanted. */
  ghost function Select<K>(s: seq<(K, ())>, keys: set<K>, want: bool): seq<K> {
    if s == [] then [] else Picked(s[0].0, keys, want) + Select(s[1..], keys, want)
  }

  ghost function Picked<K>(k: K, keys: set<K>, want: bool): seq<K> {
    if k in keys <==> want then [k] else []
  }

  lemma {:induction false} SelectMember<K>(s: seq<(K, ())>, keys: set<K>, want: bool, k: K)
    ensures k in Select(s, keys, want) <==> k in Dict(s) && (k in keys <==> want)
  {
    if s != [] {
      SelectMember(s[1..], keys, want, k);
    }
  }

  lemma {:induction false} SelectOnce<K>(s: seq<(K, ())>, keys: set<K>, want: bool)
    requires Distinct(s)
    ensures NoDup(Select(s, keys, want))
  {
    if s != [] {
      var k, r := s[0].0, Select(s[1..], keys, want);
      SelectOnce(s[1..], keys, want);
      SelectMember(s[1..], keys, want, k);
      assert k !in r && [] + r == r;
    }
  }

  /** What is selected keeps its order. */
  lemma {:induction false} SelectAt<K>(s: seq<(K, ())>, keys: set<K>, want: bool, i: nat)
    requires i < |s| && (s[i].0 in keys <==> want)
    ensures var before, all := Select(s[..i], keys, want), Select(s, keys, want);
      before < all && all[|before|] == s[i].0
  {
    if i > 0 {
      SelectAt(s[1..], keys, want, i - 1);
      assert s[1..][..i - 1] == s[..i][1..];
    }
  }

  lemma SelectStep<K>(out: seq<K>, s: seq<(K, ())>, keys: set<K>, want: bool)
    requires s != []
    ensures out + Select(s, keys, want) == out + Picked(s[0].0, keys, want) + Select(s[1..], keys, want)
  {
    Associate(out, Picked(s[0].0, keys, want), Select(s[1..], keys, want));
  }

  lemma Head<K(!new), V>(t: HashTable<K, V>, c: Cursor)
    requires OnSlot(t, c) && c != End
    ensures Rest(t, c) != [] && Rest(t, c)[0] == Table(t, c.table)[c.bucket][c.at]
  {
  }

  /** One loop over `s` that looks every element up in `other`, which each lookup may rearrange. */
  method Filter<K(!new)>(s: HashSet<K>, other: HashSet<K>, want: bool) returns (out: seq<K>)
    requires s.Valid() && other.Valid() && s != other
    modifies other
    ensures other.Valid() && other.m == old(other.m)
    ensures out == Select(Entries(s), other.m.Keys, want)
  {
    out := [];
    var c := Begin(s);
    while c != End
      invariant other.Valid() && other.m == old(other.m) && OnSlot(s, c)
      invariant out + Select(Rest(s, c), other.m.Keys, want) == Select(Entries(s), other.m.Keys, want)
      decreases |Rest(s, c)|
    {
      var key := Table(s, c.table)[c.bucket][c.at].0;
      Head(s, c);
      SelectStep(out, Rest(s, c), other.m.Keys, want);
      var found;
      ghost var u1, u2;
      found, u1, u2 := other.FindSlot(key);
      if found.Some? == want {
        out := out + [key];
      } else {
        assert out + [] == out;
      }
      c := Increment(s, c);
    }
  }

  lemma FilterSpec<K(!new)>(s: HashSet<K>, keys: set<K>, want: bool)
    requires s.Valid()
    ensures var out := Select(Entries(s), keys, want);
      NoDup(out) && forall k :: k in out <==> k in s.m && (k in keys <==> want)
  {
    EntriesSpec(s);
    SelectOnce(Entries(s), keys, want);
    forall k: K
      ensures k in Select(Entries(s), keys, want) <==> k in s.m && (k in keys <==> want)
    {
      SelectMember(Entries(s), keys, want, k);
    }
  }

  /** Intersection: each common element once. */
  method Intersection<K(!new)>(a: HashSet<K>, b: HashSet<K>) returns (out: seq<K>)
    requires a.Valid() && b.Valid() && a != b
    modifies a, b
    ensures a.Valid() && b.Valid() && a.m == old(a.m) && b.m == old(b.m)
    ensures NoDup(out) && forall k :: k in out <==> k in a.m && k in b.m
    ensures old(b.used > a.used) ==> unchanged(a) && out == Select(Entries(a), b.m.Keys, true)
    ensures !old(b.used > a.used) ==> unchanged(b) && out == Select(Entries(b), a.m.Keys, true)
  {
    if b.used > a.used {
      FilterSpec(a, b.m.Keys, true);
      out := Filter(a, b, true);
    } else {
      FilterSpec(b, a.m.Keys, true);
      out := Filter(b, a, true);
    }
  }

  /** Difference: each element of `a` that is not in `b`, once. */
  method Difference<K(!new)>(a: HashSet<K>, b: HashSet<K>) returns (out: seq<K>)
    requires a.Valid() && b.Valid() && a != b
    modifies b
    ensures b.Valid() && b.m == old(b.m)
    ensures NoDup(out) && forall k :: k in out <==> k in a.m && k !in b.m
    ensures out == Select(Entries(a), b.m.Keys, false)
  {
    FilterSpec(a, b.m.Keys, false);
    out := Filter(a, b, false);
  }

  /** A plain loop over a set. */
  method All<K(!new)>(s: HashSet<K>) returns (out: seq<K>)
    requires s.Valid()
    ensures out == Select(Entries(s), {}, false)
  {
    out := [];
    var c := Begin(s);
    while c != End
      invariant OnSlot(s, c) && out + Select(Rest(s, c), {}, false) == Select(Entries(s), {}, false)
      decreases |Rest(s, c)|
    {
      Head(s, c);
      SelectStep(out, Rest(s, c), {}, false);
      out := out + [Table(s, c.table)[c.bucket][c.at].0];
      c := Increment(s, c);
    }
  }

  /** Union: each element of either set, once. */
  method Union<K(!new)>(a: HashSet<K>, b: HashSet<K>) returns (out: seq<K>)
    requires a.Valid() && b.Valid() && a != b
    modifies a, b
    ensures a.Valid() && b.Valid() && a.m == old(a.m) && b.m == old(b.m)
    ensures NoDup(out) && forall k :: k in out <==> k in a.m || k in b.m
    ensures var (less, more) := if old(b.used > a.used) then (a, b) else (b, a);
      unchanged(less) &&
      out == Select(old(Entries(more)), {}, false) + Select(Entries(less), more.m.Keys, false)
  {
    var less := if b.used > a.used then a else b;
    var more := if b.used > a.used then b else a;
    FilterSpec(more, {}, false);
    FilterSpec(less, more.m.Keys, false);
    out := All(more);
    var extra := Filter(less, more, false);
    Disjoint(out, extra);
    out := out + extra;
  }

  lemma Disjoint<K>(a: seq<K>, b: seq<K>)
    requires NoDup(a) && NoDup(b) && forall k :: k in b ==> k !in a
    ensures NoDup(a + b)
  {
    forall i, j | 0 <= i < j < |a + b|
      ensures (a + b)[i] != (a + b)[j]
    {
      assert i < |a| <= j ==> b[j - |a|] in b && a[i] in a;
    }
  }
}
