/** Two bucket tables with an incremental migration from the first to the second, seen as buckets
    of finite maps.  Both hash tables of the source are instances. */
module TwoTables {
  import opened Mask

  /** `idx` is the next bucket of table 1 to migrate, or -1 when no migration is under way. */
  datatype Tables<K, V> = Tables(a1: seq<map<K, V>>, a2: seq<map<K, V>>, idx: int)

  function Index<K>(hash: K -> nat, k: K, size: nat): nat {
    And(hash(k), SizeMask(size))
  }

  /** Sizes are powers of two, at least 4; table 2 is twice table 1 while migrating. */
  ghost predicate Sized<K, V>(s: Tables<K, V>) {
    |s.a1| >= 4 && IsPow2(|s.a1|) && -1 <= s.idx < |s.a1| &&
    |s.a2| == if s.idx < 0 then 0 else 2 * |s.a1|
  }

  lemma IndexBound<K>(hash: K -> nat, k: K, size: nat)
    requires IsPow2(size)
    ensures Index(hash, k, size) < size && IsPow2(2 * size)
  {
    Doubled(hash(k), size);
  }

  /** The bucket of a key is its hash modulo the size. */
  lemma IndexIs<K>(hash: K -> nat, k: K, size: nat)
    requires IsPow2(size)
    ensures Index(hash, k, size) == hash(k) % size < size
  {
    AndMask(hash(k), size);
    IndexBound(hash, k, size);
  }

  /** Key `k` is in its bucket of the table. */
  ghost predicate In<K, V>(a: seq<map<K, V>>, hash: K -> nat, k: K) {
    var b := Index(hash, k, |a|); b < |a| && k in a[b]
  }

  ghost function At<K, V>(a: seq<map<K, V>>, hash: K -> nat, k: K): V
    requires In(a, hash, k)
  {
    a[Index(hash, k, |a|)][k]
  }

  /** Every entry is in the bucket its hash and the mask select; buckets below `from` are empty. */
  ghost predicate Placed<K(!new), V>(a: seq<map<K, V>>, hash: K -> nat, from: int) {
    forall i, k :: 0 <= i < |a| ==> PlacedKey(a, hash, from, i, k)
  }

  ghost predicate PlacedKey<K, V>(a: seq<map<K, V>>, hash: K -> nat, from: int, i: nat, k: K)
    requires i < |a|
  {
    k in a[i] ==> Index(hash, k, |a|) == i >= from
  }

  /** Key `k` is stored exactly when the map has it, then once and with the map's value. */
  ghost predicate HoldsKey<K, V>(s: Tables<K, V>, hash: K -> nat, m: map<K, V>, k: K) {
    (k in m <==> In(s.a1, hash, k) || In(s.a2, hash, k)) &&
    !(In(s.a1, hash, k) && In(s.a2, hash, k)) &&
    (In(s.a1, hash, k) ==> At(s.a1, hash, k) == m[k]) &&
    (In(s.a2, hash, k) ==> At(s.a2, hash, k) == m[k])
  }

  ghost predicate Holds<K(!new), V>(s: Tables<K, V>, hash: K -> nat, m: map<K, V>) {
    forall k :: HoldsKey(s, hash, m, k)
  }

  /** The two tables together hold exactly the map `m`, every entry in its own bucket. */
  ghost predicate Inv<K(!new), V>(s: Tables<K, V>, hash: K -> nat, m: map<K, V>) {
    Sized(s) && Placed(s.a1, hash, s.idx) && Placed(s.a2, hash, 0) && Holds(s, hash, m)
  }

  /** Where entries are, said with the hash alone. */
  lemma PlacedIs<K(!new), V>(s: Tables<K, V>, hash: K -> nat, m: map<K, V>, i: nat, k: K)
    requires Inv(s, hash, m)
    ensures i < |s.a1| && k in s.a1[i] ==> hash(k) % |s.a1| == i >= s.idx && k in m && m[k] == s.a1[i][k]
    ensures i < |s.a2| && k in s.a2[i] ==> hash(k) % |s.a2| == i && k in m && m[k] == s.a2[i][k]
  {
    assert HoldsKey(s, hash, m, k);
    if i < |s.a1| && k in s.a1[i] {
      assert PlacedKey(s.a1, hash, s.idx, i, k);
      IndexIs(hash, k, |s.a1|);
    }
    if i < |s.a2| && k in s.a2[i] {
      assert PlacedKey(s.a2, hash, 0, i, k);
      Doubled(0, |s.a1|);
      IndexIs(hash, k, |s.a2|);
    }
  }

  function Empty<K, V>(n: nat): (a: seq<map<K, V>>)
    ensures |a| == n && forall i :: 0 <= i < n ==> a[i] == map[]
  {
    seq(n, _ => map[])
  }

  /** The state a new table starts in, and the one Clear() returns to. */
  lemma EmptyInv<K(!new), V>(hash: K -> nat)
    ensures Inv<K, V>(Tables(Empty(4), [], -1), hash, map[])
  {
    assert IsPow2(4) by { assert IsPow2(2); }
  }

  /** Starting a migration. */
  lemma GrowInv<K(!new), V>(s: Tables<K, V>, hash: K -> nat, m: map<K, V>)
    requires Inv(s, hash, m) && s.idx < 0
    ensures Inv(Tables(s.a1, Empty(2 * |s.a1|), 0), hash, m)
  {
    var u := Tables(s.a1, Empty(2 * |s.a1|), 0);
    forall i, k | 0 <= i < |u.a1|
      ensures PlacedKey(u.a1, hash, u.idx, i, k)
    {
      assert PlacedKey(s.a1, hash, s.idx, i, k);
    }
    forall k: K
      ensures HoldsKey(u, hash, m, k)
    {
      assert HoldsKey(s, hash, m, k);
    }
  }

  // ---------- one bucket of one table ----------

  /** Setting an entry in its own bucket. */
  lemma SetIn<K(!new), V>(a: seq<map<K, V>>, hash: K -> nat, from: int, k: K, v: V)
    requires IsPow2(|a|) && Placed(a, hash, from) && Index(hash, k, |a|) >= from
    ensures var b := Index(hash, k, |a|);
      b < |a| && Placed(a[b := a[b][k := v]], hash, from) && In(a[b := a[b][k := v]], hash, k) &&
      At(a[b := a[b][k := v]], hash, k) == v
  {
    IndexBound(hash, k, |a|);
    var b := Index(hash, k, |a|);
    var c := a[b := a[b][k := v]];
    forall i, j | 0 <= i < |c|
      ensures PlacedKey(c, hash, from, i, j)
    {
      assert PlacedKey(a, hash, from, i, j);
    }
  }

  /** Dropping a key from its own bucket. */
  lemma DropIn<K(!new), V>(a: seq<map<K, V>>, hash: K -> nat, from: int, k: K)
    requires Placed(a, hash, from) && In(a, hash, k)
    ensures var b := Index(hash, k, |a|);
      Placed(a[b := a[b] - {k}], hash, from) && !In(a[b := a[b] - {k}], hash, k)
  {
    var b := Index(hash, k, |a|);
    var c := a[b := a[b] - {k}];
    forall i, j | 0 <= i < |c|
      ensures PlacedKey(c, hash, from, i, j)
    {
      assert PlacedKey(a, hash, from, i, j);
    }
  }

  /** Other keys do not notice a change of one entry of a bucket. */
  lemma Elsewhere<K, V>(a: seq<map<K, V>>, hash: K -> nat, b: nat, x: map<K, V>, k: K, j: K)
    requires b < |a| && j != k && (x == a[b] - {k} || (k in x && x == a[b][k := x[k]]))
    ensures In(a[b := x], hash, j) <==> In(a, hash, j)
    ensures In(a, hash, j) ==> At(a[b := x], hash, j) == At(a, hash, j)
  {
  }

  // ---------- steps ----------

  /** Adding an absent key to its bucket of table 1, which is not yet migrated. */
  lemma Put1<K(!new), V>(s: Tables<K, V>, hash: K -> nat, m: map<K, V>, k: K, v: V)
    requires Inv(s, hash, m) && k !in m && Index(hash, k, |s.a1|) >= s.idx
    ensures var b := Index(hash, k, |s.a1|);
      b < |s.a1| && Inv(s.(a1 := s.a1[b := s.a1[b][k := v]]), hash, m[k := v])
  {
    SetIn(s.a1, hash, s.idx, k, v);
    var b := Index(hash, k, |s.a1|);
    var x := s.a1[b][k := v];
    var u, m' := s.(a1 := s.a1[b := x]), m[k := v];
    assert HoldsKey(s, hash, m, k);
    forall j: K
      ensures HoldsKey(u, hash, m', j)
    {
      if j != k {
        assert HoldsKey(s, hash, m, j);
        Elsewhere(s.a1, hash, b, x, k, j);
      }
    }
  }

  /** Adding an absent key to its bucket of table 2. */
  lemma Put2<K(!new), V>(s: Tables<K, V>, hash: K -> nat, m: map<K, V>, k: K, v: V)
    requires Inv(s, hash, m) && k !in m && s.idx >= 0
    ensures var b := Index(hash, k, |s.a2|);
      b < |s.a2| && Inv(s.(a2 := s.a2[b := s.a2[b][k := v]]), hash, m[k := v])
  {
    IndexBound(hash, k, |s.a1|);
    SetIn(s.a2, hash, 0, k, v);
    var b := Index(hash, k, |s.a2|);
    var x := s.a2[b][k := v];
    var u, m' := s.(a2 := s.a2[b := x]), m[k := v];
    assert HoldsKey(s, hash, m, k);
    forall j: K
      ensures HoldsKey(u, hash, m', j)
    {
      if j != k {
        assert HoldsKey(s, hash, m, j);
        Elsewhere(s.a2, hash, b, x, k, j);
      }
    }
  }

  /** Removing a key from the bucket it is in. */
  lemma Take1<K(!new), V>(s: Tables<K, V>, hash: K -> nat, m: map<K, V>, k: K)
    requires Inv(s, hash, m) && In(s.a1, hash, k)
    ensures var b := Index(hash, k, |s.a1|);
      Inv(s.(a1 := s.a1[b := s.a1[b] - {k}]), hash, m - {k})
  {
    DropIn(s.a1, hash, s.idx, k);
    var b := Index(hash, k, |s.a1|);
    var x := s.a1[b] - {k};
    var u, m' := s.(a1 := s.a1[b := x]), m - {k};
    assert HoldsKey(s, hash, m, k);
    forall j: K
      ensures HoldsKey(u, hash, m', j)
    {
      if j != k {
        assert HoldsKey(s, hash, m, j);
        Elsewhere(s.a1, hash, b, x, k, j);
      }
    }
  }

  lemma Take2<K(!new), V>(s: Tables<K, V>, hash: K -> nat, m: map<K, V>, k: K)
    requires Inv(s, hash, m) && In(s.a2, hash, k)
    ensures var b := Index(hash, k, |s.a2|);
      Inv(s.(a2 := s.a2[b := s.a2[b] - {k}]), hash, m - {k})
  {
    DropIn(s.a2, hash, 0, k);
    var b := Index(hash, k, |s.a2|);
    var x := s.a2[b] - {k};
    var u, m' := s.(a2 := s.a2[b := x]), m - {k};
    assert HoldsKey(s, hash, m, k);
    forall j: K
      ensures HoldsKey(u, hash, m', j)
    {
      if j != k {
        assert HoldsKey(s, hash, m, j);
        Elsewhere(s.a2, hash, b, x, k, j);
      }
    }
  }

  /** Moving one entry from the bucket under migration to table 2 keeps the map. */
  lemma MoveOne<K(!new), V>(s: Tables<K, V>, hash: K -> nat, m: map<K, V>, k: K)
    requires Inv(s, hash, m) && s.idx >= 0 && k in s.a1[s.idx]
    ensures var b := Index(hash, k, |s.a2|);
      k in m && m[k] == s.a1[s.idx][k] && b < |s.a2| && k !in s.a2[b] &&
      Inv(Tables(s.a1[s.idx := s.a1[s.idx] - {k}], s.a2[b := s.a2[b][k := m[k]]], s.idx), hash, m)
  {
    assert PlacedKey(s.a1, hash, s.idx, s.idx, k) && In(s.a1, hash, k) && HoldsKey(s, hash, m, k);
    Take1(s, hash, m, k);
    var u := s.(a1 := s.a1[s.idx := s.a1[s.idx] - {k}]);
    Put2(u, hash, m - {k}, k, m[k]);
    assert (m - {k})[k := m[k]] == m;
  }

  /** Passing an emptied bucket. */
  lemma Advance<K(!new), V>(s: Tables<K, V>, hash: K -> nat, m: map<K, V>)
    requires Inv(s, hash, m) && 0 <= s.idx < |s.a1| - 1 && s.a1[s.idx] == map[]
    ensures Inv(s.(idx := s.idx + 1), hash, m)
  {
    var u := s.(idx := s.idx + 1);
    forall i, k | 0 <= i < |u.a1|
      ensures PlacedKey(u.a1, hash, u.idx, i, k)
    {
      assert PlacedKey(s.a1, hash, s.idx, i, k);
    }
    forall k: K
      ensures HoldsKey(u, hash, m, k)
    {
      assert HoldsKey(s, hash, m, k);
    }
  }

  /** Passing the last bucket: table 2 becomes table 1. */
  lemma Finish<K(!new), V>(s: Tables<K, V>, hash: K -> nat, m: map<K, V>)
    requires Inv(s, hash, m) && s.idx == |s.a1| - 1 && s.a1[s.idx] == map[]
    ensures Inv(Tables(s.a2, [], -1), hash, m)
  {
    var u := Tables(s.a2, [], -1);
    forall k: K
      ensures HoldsKey(u, hash, m, k)
    {
      assert HoldsKey(s, hash, m, k);
      var b := Index(hash, k, |s.a1|);
      assert b < |s.a1| ==> PlacedKey(s.a1, hash, s.idx, b, k);
    }
    forall i, k | 0 <= i < |u.a1|
      ensures PlacedKey(u.a1, hash, u.idx, i, k)
    {
      assert PlacedKey(s.a2, hash, 0, i, k);
    }
    Doubled(0, |s.a1|);
  }
}
