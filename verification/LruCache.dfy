/** LruCache: a Blist in order of use plus a dictionary from keys to list nodes. */
module LruCacheModel {
  import opened Assoc
  import opened Basics
  import opened BlistModel
  import opened LruSpec

  function Entries(s: seq<BNode<int>>): (v: seq<(int, BNode<int>)>)
    ensures |v| == |s| && forall i :: 0 <= i < |s| ==> v[i] == (s[i].value, s[i])
  {
    seq(|s|, i requires 0 <= i < |s| => (s[i].value, s[i]))
  }

  /** The list cut around one node: its keys, its entries, and what is left without it. */
  lemma Around(a: seq<BNode<int>>, n: BNode<int>, b: seq<BNode<int>>)
    ensures Values(a + [n] + b) == Values(a) + [n.value] + Values(b) && Values(a + b) == Values(a) + Values(b)
    ensures Entries(a + [n] + b) == Entries(a) + [(n.value, n)] + Entries(b)
    ensures Entries(a + b) == Entries(a) + Entries(b)
    ensures Distinct(Entries(a + [n] + b)) <==> Distinct(Entries(a + b)) && n.value !in Dict(Entries(a + b))
    ensures n.value !in Dict(Entries(a + b)) ==> Dict(Entries(a + [n] + b)) == Dict(Entries(a + b))[n.value := n]
  {
    DictInsert(Entries(a), (n.value, n), Entries(b));
  }

  lemma InFront(n: BNode<int>, s: seq<BNode<int>>)
    ensures Values([n] + s) == [n.value] + Values(s)
    ensures Distinct(Entries([n] + s)) <==> Distinct(Entries(s)) && n.value !in Dict(Entries(s))
    ensures Dict(Entries([n] + s)) == Dict(Entries(s))[n.value := n]
  {
    assert Entries([n] + s)[1..] == Entries(s);
  }

  lemma KeyListed(s: seq<BNode<int>>, k: int)
    requires Distinct(Entries(s))
    ensures k in Values(s) <==> k in Dict(Entries(s))
  {
    if k in Dict(Entries(s)) {
      DictMember(Entries(s), (k, Dict(Entries(s))[k]));
      var i :| 0 <= i < |s| && Entries(s)[i] == (k, Dict(Entries(s))[k]);
      assert Values(s)[i] == k;
    }
    if k in Values(s) {
      var i :| 0 <= i < |s| && Values(s)[i] == k;
      assert Entries(s)[i] == (k, s[i]);
      DictMember(Entries(s), (k, s[i]));
    }
  }

  lemma {:induction false} WithoutMiddle(a: seq<int>, k: int, b: seq<int>)
    requires k !in a
    ensures Without(a + [k] + b, k) == a + b
  {
    if a == [] {
      assert a + [k] + b == [k] + b && a + b == b;
    } else {
      assert (a + [k] + b)[1..] == a[1..] + [k] + b;
      WithoutMiddle(a[1..], k, b);
      assert [a[0]] + (a[1..] + b) == a + b;
    }
  }

  /** Where a listed key is. */
  lemma Place(s: seq<BNode<int>>, k: int) returns (i: nat)
    requires Distinct(Entries(s)) && k in Dict(Entries(s))
    ensures i < |s| && s[i] == Dict(Entries(s))[k] && s[i].value == k
  {
    var e := (k, Dict(Entries(s))[k]);
    DictMember(Entries(s), e);
    i :| 0 <= i < |s| && Entries(s)[i] == e;
  }

  lemma CutAt(s: seq<BNode<int>>, i: nat)
    requires Distinct(Entries(s)) && i < |s|
    ensures s == s[..i] + [s[i]] + s[i + 1..]
    ensures var (r, k) := (s[..i] + s[i + 1..], s[i].value);
      Values(r) == Without(Values(s), k) && Distinct(Entries(r)) && Dict(Entries(r)) == Dict(Entries(s)) - {k}
  {
    var a, n, b := s[..i], s[i], s[i + 1..];
    assert s == a + [n] + b;
    Around(a, n, b);
    KeyListed(a + b, n.value);
    PutThenDrop(Dict(Entries(a + b)), n.value, n);
    WithoutMiddle(Values(a), n.value, Values(b));
  }

  class LruCache {
    const maxSize: nat
    const cache: Blist<int>
    var dict: map<int, BNode<int>>

    /** Everything that was ever done to this cache. */
    ghost var h: seq<Event>

    ghost function Keys(): seq<int>
      reads cache
    {
      Values(cache.nodes)
    }

    /** The dictionary maps exactly the listed keys, each to its own node. */
    ghost predicate Linked()
      reads this, cache, cache.nodes
    {
      cache.Valid() && |cache.nodes| <= maxSize && Distinct(Entries(cache.nodes)) && dict == Dict(Entries(cache.nodes))
    }

    /** Moreover, the list is what the policy prescribes for the whole history. */
    ghost predicate Valid()
      reads this, cache, cache.nodes
    {
      Linked() && Keys() == Run(h, maxSize)
    }

    constructor (maxSize: nat)
      ensures Valid() && h == [] && this.maxSize == maxSize && fresh(cache)
    {
      this.maxSize := maxSize;
      cache := new Blist<int>();
      dict := map[];
      h := [];
    }

    /** UpdateEntry: move a known key to the front; add a new one, evicting the last key if full. */
    method UpdateEntry(k: int)
      requires Valid()
      modifies this, cache, cache.nodes
      ensures Valid() && h == old(h) + [Touch(k)]
      ensures Keys() == Update(old(Keys()), maxSize, k)
      ensures forall n :: n in cache.nodes ==> n in old(cache.nodes) || fresh(n)
    {
      RunStep(h, maxSize, Touch(k));
      h := h + [Touch(k)];
      if maxSize == 0 {
        return;
      }
      KeyListed(cache.nodes, k);
      if k in dict {
        MoveToFront(k);
      } else {
        if cache.count >= maxSize {
          DropBack();
        }
        Add(k);
      }
    }

    /** The cut of the list at the node the dictionary has for a key. */
    lemma Cut(k: int) returns (i: nat)
      requires Linked() && k in dict
      ensures i < |cache.nodes| && dict[k] == cache.nodes[i] && cache.nodes[i].value == k
      ensures cache.nodes == cache.nodes[..i] + [dict[k]] + cache.nodes[i + 1..]
      ensures var r := cache.nodes[..i] + cache.nodes[i + 1..];
        Values(r) == Without(Keys(), k) && Distinct(Entries(r)) && Dict(Entries(r)) == dict - {k}
    {
      i := Place(cache.nodes, k);
      CutAt(cache.nodes, i);
    }

    method MoveToFront(k: int)
      requires Linked() && k in dict
      modifies this`dict, cache, cache.nodes
      ensures Linked() && Keys() == [k] + Without(old(Keys()), k)
      ensures forall n :: n in cache.nodes ==> n in old(cache.nodes)
    {
      var node := dict[k];
      ghost var i := Cut(k);
      assert LinkedAt(cache.nodes, i);
      cache.Extract(node, i);
      InFront(node, cache.nodes);
      cache.PushFront(node);
    }

    method Add(k: int)
      requires Linked() && k !in dict && |cache.nodes| < maxSize
      modifies this`dict, cache, cache.nodes
      ensures Linked() && Keys() == [k] + old(Keys())
      ensures forall n :: n in cache.nodes ==> n in old(cache.nodes) || fresh(n)
    {
      var node := new BNode<int>(k);
      InFront(node, cache.nodes);
      cache.PushFront(node);
      dict := dict[k := node];
    }

    method DropBack()
      requires Linked()
      modifies this`dict, cache, cache.nodes
      ensures Linked() && Keys() == DropLast(old(Keys())) && dict.Keys <= old(dict).Keys
      ensures cache.nodes <= old(cache.nodes)
    {
      if cache.header == null {
        return;
      }
      ghost var a, n := cache.nodes[..|cache.nodes| - 1], cache.nodes[|cache.nodes| - 1];
      assert LinkedAt(cache.nodes, 0);
      Around(a, n, []);
      assert cache.nodes == a + [n] + [] && a + [] == a;
      dict := dict - {cache.header.prev.value};
      var ok := cache.PopBack();
    }

    method DropKey(k: int)
      requires Linked() && k in dict
      modifies this`dict, cache, cache.nodes
      ensures Linked() && Keys() == Without(old(Keys()), k)
    {
      ghost var i := Cut(k);
      assert LinkedAt(cache.nodes, i);
      cache.Extract(dict[k], i);
      dict := dict - {k};
    }

    /** DelVictim: forget the least recently used key. */
    method DelVictim()
      requires Valid()
      modifies this, cache, cache.nodes
      ensures Valid() && h == old(h) + [Evict] && Keys() == DropLast(old(Keys()))
    {
      RunStep(h, maxSize, Evict);
      h := h + [Evict];
      DropBack();
    }

    /** Victim: of all cached keys, the one whose last use is longest ago. */
    method Victim() returns (found: bool, k: int)
      requires Valid()
      ensures found <==> Keys() != []
      ensures found ==> k == Keys()[|Keys()| - 1]
      ensures found ==> forall j :: j in Keys() && j != k ==> LastUse(h, k) < LastUse(h, j)
    {
      if cache.header == null {
        return false, 0;
      }
      RunSound(h, maxSize);
      assert LinkedAt(cache.nodes, 0);
      return true, cache.header.prev.value;
    }

    /** Search does not count as a use. */
    method Search(k: int) returns (found: bool)
      requires Valid()
      ensures found <==> k in Keys()
    {
      KeyListed(cache.nodes, k);
      found := k in dict;
    }

    /** DelEntry */
    method DelEntry(k: int) returns (found: bool)
      requires Valid()
      modifies this, cache, cache.nodes
      ensures Valid() && h == old(h) + [Del(k)]
      ensures Keys() == Without(old(Keys()), k) && (found <==> k in old(Keys()))
    {
      RunStep(h, maxSize, Del(k));
      h := h + [Del(k)];
      KeyListed(cache.nodes, k);
      found := k in dict;
      if found {
        DropKey(k);
      } else {
        WithoutAbsent(Keys(), k);
      }
    }

    lemma {:induction false} WithoutAbsent(s: seq<int>, k: int)
      requires k !in s
      ensures Without(s, k) == s
    {
      if s != [] {
        WithoutAbsent(s[1..], k);
      }
    }

    /** Clear */
    method Clear()
      requires Valid()
      modifies this, cache
      ensures Valid() && h == old(h) + [Wipe] && Keys() == []
    {
      RunStep(h, maxSize, Wipe);
      h := h + [Wipe];
      dict := map[];
      cache.Clear();
    }
  }
}
