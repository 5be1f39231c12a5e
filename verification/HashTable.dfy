/** HashTable: separate chaining with move-to-front lists and incremental rehashing. */
module HashTableModel {
  import opened Mask
  import opened Assoc
  import opened TwoTables

  datatype Option<+T> = None | Some(value: T)

  // ---------- Slist ----------

  /** `rest` is the list without one occurrence of `e`. */
  ghost predicate Cut<T>(list: seq<T>, e: T, rest: seq<T>) {
    exists i :: 0 <= i < |list| && list[i] == e && rest == list[..i] + list[i + 1..]
  }

  /** ExtractNodeIf: take the first element with the key out of the list. */
  method ExtractNodeIf<K(==), V>(list: seq<(K, V)>, key: K) returns (node: Option<(K, V)>, rest: seq<(K, V)>)
    requires Distinct(list)
    ensures node == if key in Dict(list) then Some((key, Dict(list)[key])) else None
    ensures Distinct(rest) && Dict(rest) == Dict(list) - {key}
    ensures if node.Some? then Cut(list, node.value, rest) else rest == list
  {
    rest := list;
    var i := 0;
    while i < |list|
      invariant 0 <= i <= |list| && rest == list
      invariant key !in Dict(list[..i])
    {
      if list[i].0 == key {
        ghost var a, e, b := list[..i], list[i], list[i + 1..];
        assert list == a + [e] + b;
        DictInsert(a, e, b);
        node, rest := Some(list[i]), list[..i] + list[i + 1..];
        assert Cut(list, e, rest);
        return;
      }
      assert list[..i + 1] == list[..i] + [list[i]] + [] && list[..i] + [] == list[..i];
      DictInsert(list[..i], list[i], []);
      i := i + 1;
    }
    assert list[..i] == list;
    return None, list;
  }

  /** SearchIf: the element with the key. */
  method SearchIf<K(==), V>(list: seq<(K, V)>, key: K) returns (node: Option<(K, V)>)
    requires Distinct(list)
    ensures node == if key in Dict(list) then Some((key, Dict(list)[key])) else None
  {
    var i := 0;
    while i < |list|
      invariant 0 <= i <= |list|
      invariant forall j :: 0 <= j < i ==> list[j].0 != key
    {
      if list[i].0 == key {
        DictMember(list, list[i]);
        return Some(list[i]);
      }
      i := i + 1;
    }
    if key in Dict(list) {
      DictMember(list, (key, Dict(list)[key]));
      assert false;
    }
    return None;
  }

  // ---------- tables ----------

  ghost function Maps<K, V>(t: seq<seq<(K, V)>>): (a: seq<map<K, V>>)
    ensures |a| == |t| && forall i :: 0 <= i < |t| ==> a[i] == Dict(t[i])
  {
    seq(|t|, i requires 0 <= i < |t| => Dict(t[i]))
  }

  lemma MapsUpdate<K, V>(t: seq<seq<(K, V)>>, b: nat, x: seq<(K, V)>)
    requires b < |t|
    ensures Maps(t[b := x]) == Maps(t)[b := Dict(x)]
  {
  }

  ghost predicate AllDistinct<K, V>(t: seq<seq<(K, V)>>) {
    forall i :: 0 <= i < |t| ==> Distinct(t[i])
  }

  // ---------- what the operations do to the lists ----------

  /** Those entries of the list that belong to bucket `b` of a table of `size`, last one first. */
  function Arrivals<K, V>(list: seq<(K, V)>, hash: K -> nat, size: nat, b: nat): seq<(K, V)>
    requires size > 0
  {
    if list == [] then []
    else
      var e := list[|list| - 1];
      (if hash(e.0) % size == b then [e] else []) + Arrivals(list[..|list| - 1], hash, size, b)
  }

  /** An entry of the bucket comes right in front of those that were before it in the list. */
  lemma {:induction false} ArrivalsAt<K, V>(list: seq<(K, V)>, hash: K -> nat, size: nat, b: nat, i: nat)
    requires size > 0 && i < |list| && hash(list[i].0) % size == b
    ensures var all, before := Arrivals(list, hash, size, b), Arrivals(list[..i], hash, size, b);
      |before| < |all| && all[|all| - |before|..] == before && all[|all| - |before| - 1] == list[i]
  {
    var init := list[..|list| - 1];
    if i < |init| {
      ArrivalsAt(init, hash, size, b, i);
      assert init[..i] == list[..i];
    }
  }

  lemma {:induction false} ArrivalsOnly<K, V>(list: seq<(K, V)>, hash: K -> nat, size: nat, b: nat, e: (K, V))
    requires size > 0
    ensures e in Arrivals(list, hash, size, b) <==> e in list && hash(e.0) % size == b
  {
    if list != [] {
      ArrivalsOnly(list[..|list| - 1], hash, size, b, e);
      assert list == list[..|list| - 1] + [list[|list| - 1]];
    }
  }

  /** The entries of the list went to the fronts of their buckets, one after the other. */
  ghost predicate Spread<K, V>(was: seq<seq<(K, V)>>, now: seq<seq<(K, V)>>, list: seq<(K, V)>, hash: K -> nat) {
    |now| == |was| && forall b :: 0 <= b < |was| ==> now[b] == Arrivals(list, hash, |was|, b) + was[b]
  }

  lemma SpreadMore<K, V>(was: seq<seq<(K, V)>>, now: seq<seq<(K, V)>>, list: seq<(K, V)>, hash: K -> nat,
                         e: (K, V), b: nat)
    requires Spread(was, now, list, hash) && b < |now| && b == hash(e.0) % |now|
    ensures Spread(was, now[b := [e] + now[b]], list + [e], hash)
  {
    assert (list + [e])[..|list|] == list;
    forall i | 0 <= i < |was|
      ensures now[b := [e] + now[b]][i] == Arrivals(list + [e], hash, |was|, i) + was[i]
    {
      assert now[i] == Arrivals(list, hash, |was|, i) + was[i];
    }
  }

  /** One migration step, from `t1`, `t2` and `idx` to `u1`, `u2` and `next`. */
  ghost predicate Stepped<K, V>(t1: seq<seq<(K, V)>>, t2: seq<seq<(K, V)>>, idx: int, hash: K -> nat,
                                u1: seq<seq<(K, V)>>, u2: seq<seq<(K, V)>>, next: int) {
    if idx < 0 then u1 == t1 && u2 == t2 && next == idx
    else if idx + 1 < |t1| then u1 == t1[idx := []] && Spread(t2, u2, t1[idx], hash) && next == idx + 1
    else idx < |t1| && Spread(t2, u1, t1[idx], hash) && u2 == [] && next == -1
  }

  /** Only the bucket of `e` changed: it got `e` in front. */
  ghost predicate Added<K, V>(u: seq<seq<(K, V)>>, t: seq<seq<(K, V)>>, hash: K -> nat, e: (K, V)) {
    |u| > 0 && var b := hash(e.0) % |u|; t == u[b := [e] + u[b]]
  }

  /** Only the bucket of `e` changed: it lost `e`. */
  ghost predicate Lost<K, V>(u: seq<seq<(K, V)>>, t: seq<seq<(K, V)>>, hash: K -> nat, e: (K, V)) {
    |u| > 0 && |t| == |u| && var b := hash(e.0) % |u|; Cut(u[b], e, t[b]) && t == u[b := t[b]]
  }

  /** Only the bucket of `e` changed: `e` moved to its front. */
  ghost predicate Fronted<K, V>(u: seq<seq<(K, V)>>, t: seq<seq<(K, V)>>, hash: K -> nat, e: (K, V)) {
    |u| > 0 && |t| == |u| && var b := hash(e.0) % |u|;
    t[b] != [] && t[b][0] == e && Cut(u[b], e, t[b][1..]) && t == u[b := t[b]]
  }

  class HashTable<K(==, !new), V> {
    const hash: K -> nat
    var t1: seq<seq<(K, V)>>
    var t2: seq<seq<(K, V)>>
    var mask1: nat
    var mask2: nat
    var used: nat
    var idx: int

    /** The map this table stands for. */
    ghost var m: map<K, V>

    ghost function View(): Tables<K, V>
      reads this
    {
      Tables(Maps(t1), Maps(t2), idx)
    }

    /** Number of table-1 buckets already migrated. */
    function Done(): nat
      reads this
    {
      if idx < 0 then 0 else idx
    }

    /** How many calls a migration under way still takes. */
    function StepsLeft(): int
      reads this
    {
      if idx < 0 then 0 else |t1| - idx
    }

    ghost predicate Valid()
      reads this
    {
      AllDistinct(t1) && AllDistinct(t2) && Inv(View(), hash, m) &&
      mask1 == SizeMask(|t1|) && (idx >= 0 ==> mask2 == SizeMask(|t2|)) &&
      used == |m| && used <= |t1| + Done()
    }

    constructor (hash: K -> nat)
      ensures Valid() && m == map[] && this.hash == hash
    {
      this.hash := hash;
      t1, t2, used, idx, m := [[], [], [], []], [], 0, -1, map[];
      mask1, mask2 := SizeMask(4), SizeMask(0);
      new;
      EmptyInv<K, V>(hash);
      assert Maps(t1) == Empty(4) && Maps(t2) == [];
    }

    predicate InRehashing()
      reads this
    {
      idx != -1
    }

    /** bucket_index */
    function BucketIndex1(key: K): nat
      reads this
    {
      And(hash(key), mask1)
    }

    function BucketIndex2(key: K): nat
      reads this
    {
      And(hash(key), mask2)
    }

    /** The entry with the key is the first of its bucket. */
    predicate AtFront(key: K)
      reads this
    {
      (BucketIndex1(key) < |t1| && t1[BucketIndex1(key)] != [] && t1[BucketIndex1(key)][0].0 == key) ||
      (InRehashing() && BucketIndex2(key) < |t2| && t2[BucketIndex2(key)] != [] && t2[BucketIndex2(key)][0].0 == key)
    }

    lemma Indexes(key: K)
      requires Valid()
      ensures BucketIndex1(key) == Index(hash, key, |t1|) == hash(key) % |t1| < |t1|
      ensures InRehashing() ==> BucketIndex2(key) == Index(hash, key, |t2|) == hash(key) % |t2| < |t2|
    {
      IndexIs(hash, key, |t1|);
      if InRehashing() {
        Doubled(0, |t1|);
        IndexIs(hash, key, |t2|);
      }
    }

    /** A second table of twice the size. */
    static function Grown(size: nat): (t: seq<seq<(K, V)>>)
      ensures |t| == 2 * size && forall b :: 0 <= b < |t| ==> t[b] == []
    {
      seq(2 * size, _ => [])
    }

    /** Rehash: start a migration when the table is full. */
    method Rehash()
      requires Valid()
      modifies this
      ensures Valid() && m == old(m) && t1 == old(t1) && used == old(used)
      ensures InRehashing() <==> old(InRehashing()) || used >= |t1|
      ensures old(InRehashing()) ==> t2 == old(t2) && idx == old(idx)
      ensures !old(InRehashing()) && InRehashing() ==> idx == 0 && t2 == Grown(|t1|)
      ensures !InRehashing() ==> t2 == old(t2) && idx == old(idx)
    {
      if !InRehashing() && used >= |t1| {
        GrowInv(View(), hash, m);
        t2 := Grown(|t1|);
        mask2 := SizeMask(|t2|);
        idx := 0;
        assert Maps(t2) == Empty(2 * |t1|);
      }
    }

    /** IncrementalRehash: migrate one bucket; after the last one, table 2 becomes table 1. */
    method IncrementalRehash()
      requires Valid()
      modifies this
      ensures Valid() && m == old(m) && used == old(used)
      ensures !old(InRehashing()) ==> t1 == old(t1) && !InRehashing()
      ensures old(InRehashing()) && old(idx) + 1 < old(|t1|) ==> idx == old(idx) + 1 && |t1| == old(|t1|)
      ensures old(InRehashing()) && old(idx) + 1 == old(|t1|) ==> !InRehashing() && |t1| == 2 * old(|t1|)
      ensures old(InRehashing()) ==> StepsLeft() == old(StepsLeft()) - 1 && (!InRehashing() ==> used < |t1|)
      ensures Stepped(old(t1), old(t2), old(idx), hash, t1, t2, idx)
    {
      if !InRehashing() {
        return;
      }
      DrainBucket();
      if idx + 1 < |t1| {
        Advance(View(), hash, m);
        idx := idx + 1;
      } else {
        Finish(View(), hash, m);
        idx := -1;
        t1, t2 := t2, [];
        mask1, mask2 := mask2, SizeMask(0);
        assert Maps(t2) == [];
      }
    }

    /** The loop over the bucket under migration. */
    method DrainBucket()
      requires Valid() && InRehashing()
      modifies this`t1, this`t2
      ensures Valid() && t1 == old(t1)[idx := []] && Spread(old(t2), t2, old(t1)[idx], hash)
    {
      ghost var list, done := t1[idx], 0;
      while t1[idx] != []
        invariant Valid() && done <= |list| && t1 == old(t1)[idx := list[done..]]
        invariant Spread(old(t2), t2, list[..done], hash)
        decreases |t1[idx]|
      {
        SpreadMore(old(t2), t2, list[..done], hash, list[done], hash(list[done].0) % |t2|);
        assert list[..done + 1] == list[..done] + [list[done]];
        MoveFront();
        done := done + 1;
      }
      assert list[..done] == list;
    }

    /** One turn of the migration loop: the front element moves to the front of its new bucket. */
    method MoveFront()
      requires Valid() && InRehashing() && t1[idx] != []
      modifies this`t1, this`t2
      ensures Valid() && t1 == old(t1)[idx := old(t1)[idx][1..]]
      ensures var e := old(t1)[idx][0];
        var b := hash(e.0) % old(|t2|); b < old(|t2|) && t2 == old(t2)[b := [e] + old(t2)[b]]
    {
      var slot, rest := t1[idx][0], t1[idx][1..];
      Indexes(slot.0);
      var b := BucketIndex2(slot.0);
      FrontParts(t1[idx], t2[b]);
      MoveOne(View(), hash, m, slot.0);
      ghost var s := Tables(Maps(t1)[idx := Dict(rest)], Maps(t2)[b := Dict([slot] + t2[b])], idx);
      assert Inv(s, hash, m);
      MapsUpdate(t1, idx, rest);
      MapsUpdate(t2, b, [slot] + t2[b]);
      t1 := t1[idx := rest];
      t2 := t2[b := [slot] + t2[b]];
      assert View() == s;
    }

    /** Where a key can be. */
    lemma KeyWhere(key: K)
      requires Valid()
      ensures BucketIndex1(key) == hash(key) % |t1| < |t1|
      ensures InRehashing() ==> BucketIndex2(key) == hash(key) % |t2| < |t2|
      ensures var in1, in2 := key in Dict(t1[BucketIndex1(key)]), InRehashing() && key in Dict(t2[BucketIndex2(key)]);
        (key in m <==> in1 || in2) && !(in1 && in2) && (BucketIndex1(key) < idx ==> !in1) &&
        (in1 ==> m[key] == Dict(t1[BucketIndex1(key)])[key]) &&
        (in2 ==> m[key] == Dict(t2[BucketIndex2(key)])[key])
    {
      Indexes(key);
      assert HoldsKey(View(), hash, m, key) && PlacedKey(Maps(t1), hash, idx, BucketIndex1(key), key);
    }

    method EmplaceFront1(e: (K, V))
      requires Valid() && e.0 !in m && !InRehashing() && used < |t1|
      modifies this`t1, this`used, this`m
      ensures Valid() && m == old(m)[e.0 := e.1] && |t1| == old(|t1|) && used == old(used) + 1 && AtFront(e.0)
      ensures Added(old(t1), t1, hash, e)
    {
      Indexes(e.0);
      KeyWhere(e.0);
      var b := BucketIndex1(e.0);
      Put1(View(), hash, m, e.0, e.1);
      ghost var s := Tables(Maps(t1)[b := Dict(t1[b])[e.0 := e.1]], Maps(t2), idx);
      assert ([e] + t1[b])[1..] == t1[b];
      MapsUpdate(t1, b, [e] + t1[b]);
      t1 := t1[b := [e] + t1[b]];
      used := used + 1;
      m := m[e.0 := e.1];
      assert View() == s;
    }

    method EmplaceFront2(e: (K, V))
      requires Valid() && e.0 !in m && InRehashing() && used < |t1| + Done()
      modifies this`t2, this`used, this`m
      ensures Valid() && m == old(m)[e.0 := e.1] && |t2| == old(|t2|) && used == old(used) + 1 && AtFront(e.0)
      ensures Added(old(t2), t2, hash, e)
    {
      Indexes(e.0);
      KeyWhere(e.0);
      var b := BucketIndex2(e.0);
      Put2(View(), hash, m, e.0, e.1);
      ghost var s := Tables(Maps(t1), Maps(t2)[b := Dict(t2[b])[e.0 := e.1]], idx);
      assert ([e] + t2[b])[1..] == t2[b];
      MapsUpdate(t2, b, [e] + t2[b]);
      t2 := t2[b := [e] + t2[b]];
      used := used + 1;
      m := m[e.0 := e.1];
      assert View() == s;
    }

    /** GetDuplicate over the buckets that can hold the key. */
    method GetDuplicate(key: K) returns (dup: Option<(K, V)>)
      requires Valid()
      ensures dup == if key in m then Some((key, m[key])) else None
    {
      KeyWhere(key);
      var b1 := BucketIndex1(key);
      if !InRehashing() {
        dup := SearchIf(t1[b1], key);
      } else if idx > b1 {
        dup := SearchIf(t2[BucketIndex2(key)], key);
      } else {
        dup := SearchIf(t1[b1], key);
        if dup == None {
          dup := SearchIf(t2[BucketIndex2(key)], key);
        }
      }
    }

    /** Rehash starts a migration. */
    predicate Due()
      reads this
    {
      !InRehashing() && used >= |t1|
    }

    /** InsertWithDuplicate: add an entry unless its key is present.  While a migration is under way
        a new key always goes to table 2.  The tables after the migration step are `u1` and `u2`. */
    method InsertWithDuplicate(e: (K, V))
      returns (ok: bool, dup: (K, V), ghost u1: seq<seq<(K, V)>>, ghost u2: seq<seq<(K, V)>>)
      requires Valid()
      modifies this
      ensures Valid() && (ok <==> e.0 !in old(m))
      ensures m == if ok then old(m)[e.0 := e.1] else old(m)
      ensures dup == (e.0, m[e.0]) && (ok ==> AtFront(e.0))
      ensures old(InRehashing()) ==> StepsLeft() == old(StepsLeft()) - 1
      ensures old(Due()) ==> Stepped(old(t1), Grown(old(|t1|)), 0, hash, u1, u2, idx)
      ensures !old(Due()) ==> Stepped(old(t1), old(t2), old(idx), hash, u1, u2, idx)
      ensures if ok && !InRehashing() then Added(u1, t1, hash, e) else t1 == u1
      ensures if ok && InRehashing() then Added(u2, t2, hash, e) else t2 == u2
    {
      Rehash();
      IncrementalRehash();
      u1, u2 := t1, t2;
      assert used < |t1| + Done();
      var d := GetDuplicate(e.0);
      if d.Some? {
        ok, dup := false, d.value;
        return;
      }
      if !InRehashing() {
        EmplaceFront1(e);
      } else {
        EmplaceFront2(e);
      }
      ok, dup := true, e;
    }

    /** Replace a bucket by one with the same entries in another order. */
    method Reorder1(b: nat, list: seq<(K, V)>)
      requires Valid() && b < |t1| && Distinct(list) && Dict(list) == Dict(t1[b])
      modifies this`t1
      ensures Valid() && t1 == old(t1)[b := list]
    {
      ghost var s := View();
      MapsUpdate(t1, b, list);
      t1 := t1[b := list];
      assert View() == s;
    }

    method Reorder2(b: nat, list: seq<(K, V)>)
      requires Valid() && b < |t2| && Distinct(list) && Dict(list) == Dict(t2[b])
      modifies this`t2
      ensures Valid() && t2 == old(t2)[b := list]
    {
      ghost var s := View();
      MapsUpdate(t2, b, list);
      t2 := t2[b := list];
      assert View() == s;
    }

    /** FindSlot: extract the entry from its bucket and put it back in front.  The tables after the
        migration step are `u1` and `u2`. */
    method FindSlot(key: K)
      returns (slot: Option<(K, V)>, ghost u1: seq<seq<(K, V)>>, ghost u2: seq<seq<(K, V)>>)
      requires Valid()
      modifies this
      ensures Valid() && m == old(m)
      ensures slot == if key in m then Some((key, m[key])) else None
      ensures key in m ==> AtFront(key)
      ensures old(InRehashing()) ==> StepsLeft() == old(StepsLeft()) - 1
      ensures Stepped(old(t1), old(t2), old(idx), hash, u1, u2, idx)
      ensures Moved(slot, u1, u2)
    {
      IncrementalRehash();
      u1, u2 := t1, t2;
      slot := MoveToFront(key);
    }

    /** Of the tables `u1` and `u2` at most the bucket of the found entry changed, which it now heads. */
    ghost predicate Moved(slot: Option<(K, V)>, u1: seq<seq<(K, V)>>, u2: seq<seq<(K, V)>>)
      reads this
    {
      (t1 == u1 && t2 == u2 && slot == None) ||
      (slot.Some? && Fronted(u1, t1, hash, slot.value) && t2 == u2) ||
      (slot.Some? && t1 == u1 && Fronted(u2, t2, hash, slot.value))
    }

    method MoveToFront(key: K) returns (slot: Option<(K, V)>)
      requires Valid()
      modifies this`t1, this`t2
      ensures Valid() && |t1| == old(|t1|)
      ensures slot == if key in m then Some((key, m[key])) else None
      ensures key in m ==> AtFront(key)
      ensures Moved(slot, old(t1), old(t2))
    {
      KeyWhere(key);
      var rest;
      var b1 := BucketIndex1(key);
      slot, rest := ExtractNodeIf(t1[b1], key);
      if slot.Some? {
        assert ([slot.value] + rest)[1..] == rest;
        Reorder1(b1, [slot.value] + rest);
      } else if InRehashing() {
        slot := MoveToFront2(key);
      }
    }

    method MoveToFront2(key: K) returns (slot: Option<(K, V)>)
      requires Valid() && InRehashing() && key !in Dict(t1[hash(key) % |t1|])
      modifies this`t2
      ensures Valid() && slot == if key in m then Some((key, m[key])) else None
      ensures key in m ==> AtFront(key)
      ensures Moved(slot, t1, old(t2))
    {
      KeyWhere(key);
      var rest;
      var b2 := BucketIndex2(key);
      slot, rest := ExtractNodeIf(t2[b2], key);
      if slot.Some? {
        assert ([slot.value] + rest)[1..] == rest;
        Reorder2(b2, [slot.value] + rest);
      }
    }

    method Remove1(key: K, rest: seq<(K, V)>)
      requires Valid() && BucketIndex1(key) < |t1| && key in Dict(t1[BucketIndex1(key)])
      requires Distinct(rest) && Dict(rest) == Dict(t1[BucketIndex1(key)]) - {key}
      modifies this`t1, this`used, this`m
      ensures Valid() && m == old(m) - {key} && t1 == old(t1)[hash(key) % old(|t1|) := rest]
    {
      Indexes(key);
      KeyWhere(key);
      var b := BucketIndex1(key);
      assert In(Maps(t1), hash, key);
      Take1(View(), hash, m, key);
      ghost var s := Tables(Maps(t1)[b := Dict(t1[b]) - {key}], Maps(t2), idx);
      MapsUpdate(t1, b, rest);
      t1 := t1[b := rest];
      used := used - 1;
      m := m - {key};
      assert View() == s;
    }

    method Remove2(key: K, rest: seq<(K, V)>)
      requires Valid() && InRehashing() && BucketIndex2(key) < |t2| && key in Dict(t2[BucketIndex2(key)])
      requires Distinct(rest) && Dict(rest) == Dict(t2[BucketIndex2(key)]) - {key}
      modifies this`t2, this`used, this`m
      ensures Valid() && m == old(m) - {key} && t2 == old(t2)[hash(key) % old(|t2|) := rest]
    {
      Indexes(key);
      KeyWhere(key);
      var b := BucketIndex2(key);
      assert In(Maps(t2), hash, key);
      Take2(View(), hash, m, key);
      ghost var s := Tables(Maps(t1), Maps(t2)[b := Dict(t2[b]) - {key}], idx);
      MapsUpdate(t2, b, rest);
      t2 := t2[b := rest];
      used := used - 1;
      m := m - {key};
      assert View() == s;
    }

    /** Extract: take the entry with the key out of the table.  The tables after the migration step are
        `u1` and `u2`. */
    method Extract(key: K)
      returns (node: Option<(K, V)>, ghost u1: seq<seq<(K, V)>>, ghost u2: seq<seq<(K, V)>>)
      requires Valid()
      modifies this
      ensures Valid() && m == old(m) - {key}
      ensures node == if key in old(m) then Some((key, old(m)[key])) else None
      ensures old(InRehashing()) ==> StepsLeft() == old(StepsLeft()) - 1
      ensures Stepped(old(t1), old(t2), old(idx), hash, u1, u2, idx)
      ensures Dropped(node, u1, u2)
    {
      IncrementalRehash();
      u1, u2 := t1, t2;
      node := Take(key);
    }

    /** Of the tables `u1` and `u2` at most the bucket of the extracted entry changed, which lost it. */
    ghost predicate Dropped(node: Option<(K, V)>, u1: seq<seq<(K, V)>>, u2: seq<seq<(K, V)>>)
      reads this
    {
      (t1 == u1 && t2 == u2 && node == None) ||
      (node.Some? && Lost(u1, t1, hash, node.value) && t2 == u2) ||
      (node.Some? && t1 == u1 && Lost(u2, t2, hash, node.value))
    }

    method Take(key: K) returns (node: Option<(K, V)>)
      requires Valid()
      modifies this`t1, this`t2, this`used, this`m
      ensures Valid() && m == old(m) - {key} && |t1| == old(|t1|)
      ensures node == if key in old(m) then Some((key, old(m)[key])) else None
      ensures Dropped(node, old(t1), old(t2))
    {
      KeyWhere(key);
      var rest;
      node, rest := ExtractNodeIf(t1[BucketIndex1(key)], key);
      if node.Some? {
        Remove1(key, rest);
      } else if InRehashing() {
        node, rest := ExtractNodeIf(t2[BucketIndex2(key)], key);
        if node.Some? {
          Remove2(key, rest);
        }
      }
    }

    /** Erase: the number of entries removed. */
    method Erase(key: K) returns (n: nat)
      requires Valid()
      modifies this
      ensures Valid() && m == old(m) - {key} && n == old(|m|) - |m|
    {
      var node;
      ghost var u1, u2;
      node, u1, u2 := Extract(key);
      n := if node == None then 0 else 1;
    }

    /** Clear */
    method Clear()
      requires Valid()
      modifies this
      ensures Valid() && m == map[] && |t1| == 4 && !InRehashing()
    {
      t1 := [[], [], [], []];
      mask1 := SizeMask(4);
      used := 0;
      if InRehashing() {
        t2 := [];
        mask2 := SizeMask(0);
      }
      idx := -1;
      m := map[];
      EmptyInv<K, V>(hash);
      assert Maps(t1) == Empty(4) && Maps(t2) == [];
    }
  }

  lemma {:induction false} FrontParts<K, V>(list: seq<(K, V)>, other: seq<(K, V)>)
    requires list != [] && Distinct(list) && Distinct(other)
    ensures var (slot, rest) := (list[0], list[1..]);
      slot.0 in Dict(list) && Dict(list)[slot.0] == slot.1 && Dict(rest) == Dict(list) - {slot.0} && Distinct(rest) &&
      Dict([slot] + other) == Dict(other)[slot.0 := slot.1] &&
      (slot.0 !in Dict(other) ==> Distinct([slot] + other))
  {
    assert ([list[0]] + other)[1..] == other;
  }
}
