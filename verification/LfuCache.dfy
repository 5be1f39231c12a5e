/** LfuCache: a Blist of frequency nodes, each holding a Blist of keys, plus a dictionary from keys
    to the two nodes they sit in. */
module LfuCacheModel {
  import opened Basics
  import opened BlistModel
  import opened LfuSpec

  class FreqValue {
    const freq: nat
    const items: Blist<int>

    constructor (freq: nat)
      ensures this.freq == freq && fresh(items) && items.Valid() && items.nodes == []
    {
      this.freq := freq;
      items := new Blist<int>();
    }
  }

  /** NodeCtx */
  datatype Ctx = Ctx(fnode: BNode<FreqValue>, inode: BNode<int>)

  // ---------- the cache as two parallel sequences ----------

  type Fnodes = seq<BNode<FreqValue>>
  type Rows = seq<seq<BNode<int>>>

  /** The buckets formed by frequency nodes and the item nodes they hold. */
  ghost function Buckets(fs: Fnodes, rows: Rows): (s: seq<Bucket>)
    ensures |s| == |rows|
    ensures |fs| == |rows| ==> forall i :: 0 <= i < |fs| ==> s[i] == Bucket(fs[i].value.freq, Values(rows[i]))
  {
    seq(|rows|, i requires 0 <= i < |rows| => Bucket(if i < |fs| then fs[i].value.freq else 0, Values(rows[i])))
  }

  /** Every listed key has its own two nodes in the dictionary. */
  ghost predicate Ctxs(dict: map<int, Ctx>, fs: Fnodes, rows: Rows) {
    |fs| == |rows| &&
    forall i, a :: 0 <= i < |rows| && 0 <= a < |rows[i]| ==> CtxAt(dict, fs[i], rows[i][a])
  }

  ghost predicate CtxAt(dict: map<int, Ctx>, f: BNode<FreqValue>, n: BNode<int>) {
    n.value in dict && dict[n.value] == Ctx(f, n)
  }

  lemma Already<T>(s: set<T>, x: T)
    requires x in s
    ensures s + {x} == s
  {
  }

  lemma InFront<T>(s: seq<T>, x: T)
    ensures s[..0] + [x] + s[0..] == [x] + s
  {
  }

  lemma InsertedAt<T>(s: seq<T>, i: nat, x: T, j: nat)
    requires i <= |s| && j <= |s|
    ensures (s[..i] + [x] + s[i..])[j] == if j < i then s[j] else if j == i then x else s[j - 1]
  {
  }

  lemma DroppedAt<T>(s: seq<T>, i: nat, j: nat)
    requires i < |s| && j < |s| - 1
    ensures (s[..i] + s[i + 1..])[j] == if j < i then s[j] else s[j + 1]
  {
  }

  /** A bucket was opened at `i`. */
  lemma Opened(dict: map<int, Ctx>, fs: Fnodes, rows: Rows, i: nat, f: BNode<FreqValue>)
    requires |fs| == |rows| && i <= |fs| && Ctxs(dict, fs, rows)
    ensures var (fs', rows') := (fs[..i] + [f] + fs[i..], rows[..i] + [[]] + rows[i..]);
      Buckets(fs', rows') == InsertBucket(Buckets(fs, rows), i, f.value.freq) && Ctxs(dict, fs', rows')
  {
    var fs', rows' := fs[..i] + [f] + fs[i..], rows[..i] + [[]] + rows[i..];
    var u, v := Buckets(fs', rows'), InsertBucket(Buckets(fs, rows), i, f.value.freq);
    forall j | 0 <= j < |rows'|
      ensures u[j] == v[j]
      ensures forall a :: 0 <= a < |rows'[j]| ==> CtxAt(dict, fs'[j], rows'[j][a])
    {
      InsertedAt(fs, i, f, j);
      InsertedAt(rows, i, [], j);
      BucketAt(Buckets(fs, rows), i, f.value.freq, j);
    }
  }

  lemma OpenedBehind(dict: map<int, Ctx>, fs: Fnodes, rows: Rows, i: nat, f: BNode<FreqValue>, fs': Fnodes, rows': Rows)
    requires |fs| == |rows| && i < |fs| && Ctxs(dict, fs, rows)
    requires fs' == fs[..i + 1] + [f] + fs[i + 1..] && rows' == rows[..i + 1] + [[]] + rows[i + 1..]
    ensures |fs'| == |rows'| == |fs| + 1 && fs'[i] == fs[i] && fs'[i + 1] == f && rows'[i] == rows[i]
    ensures Buckets(fs', rows') == InsertBucket(Buckets(fs, rows), i + 1, f.value.freq) && Ctxs(dict, fs', rows')
  {
    Opened(dict, fs, rows, i + 1, f);
  }

  /** Bucket `i` was closed. */
  lemma Dropped(dict: map<int, Ctx>, fs: Fnodes, rows: Rows, i: nat)
    requires |fs| == |rows| && i < |fs| && Ctxs(dict, fs, rows)
    ensures var (fs', rows') := (fs[..i] + fs[i + 1..], rows[..i] + rows[i + 1..]);
      Buckets(fs', rows') == DropBucket(Buckets(fs, rows), i) && Ctxs(dict, fs', rows')
  {
    var fs', rows' := fs[..i] + fs[i + 1..], rows[..i] + rows[i + 1..];
    assert forall j :: 0 <= j < |fs'| ==>
      fs'[j] == fs[if j < i then j else j + 1] && rows'[j] == rows[if j < i then j else j + 1];
  }

  lemma Taken(dict: map<int, Ctx>, fs: Fnodes, rows: Rows, i: nat, a: nat)
    requires |fs| == |rows| && i < |fs| && a < |rows[i]| && Ctxs(dict, fs, rows)
    ensures var rows' := rows[i := rows[i][..a] + rows[i][a + 1..]];
      Buckets(fs, rows') == Take(Buckets(fs, rows), i, a) && Ctxs(dict, fs, rows')
  {
    var row := rows[i][..a] + rows[i][a + 1..];
    assert Values(row) == Values(rows[i])[..a] + Values(rows[i])[a + 1..];
    assert forall b :: 0 <= b < |row| ==> row[b] == rows[i][if b < a then b else b + 1];
  }

  lemma Appended(dict: map<int, Ctx>, fs: Fnodes, rows: Rows, i: nat, n: BNode<int>)
    requires |fs| == |rows| && i < |fs| && Ctxs(dict, fs, rows) && !Listed(Buckets(fs, rows), n.value)
    ensures var rows' := rows[i := rows[i] + [n]];
      Buckets(fs, rows') == Append(Buckets(fs, rows), i, n.value) &&
      Ctxs(dict[n.value := Ctx(fs[i], n)], fs, rows')
  {
    var rows', dict' := rows[i := rows[i] + [n]], dict[n.value := Ctx(fs[i], n)];
    assert Values(rows[i] + [n]) == Values(rows[i]) + [n.value];
    forall j, a | 0 <= j < |rows'| && 0 <= a < |rows'[j]|
      ensures CtxAt(dict', fs[j], rows'[j][a])
    {
      if j != i || a < |rows[i]| {
        assert rows'[j][a] == rows[j][a] && CtxAt(dict, fs[j], rows[j][a]);
        assert Values(rows[j])[a] in Buckets(fs, rows)[j].items;
      }
    }
  }

  lemma NotInRows(fs: Fnodes, rows: Rows, n: BNode<int>)
    requires |fs| == |rows| && !Listed(Buckets(fs, rows), n.value)
    ensures forall j :: 0 <= j < |rows| ==> n !in rows[j]
  {
    forall j, a | 0 <= j < |rows| && 0 <= a < |rows[j]|
      ensures rows[j][a] != n
    {
      assert Values(rows[j])[a] in Buckets(fs, rows)[j].items;
    }
  }

  /** The place of a cached key. */
  lemma Find(dict: map<int, Ctx>, fs: Fnodes, rows: Rows, m: map<int, Stat>, h: seq<Event>, k: int)
    returns (i: nat, a: nat)
    requires Ctxs(dict, fs, rows) && Meaning(dict.Keys, Buckets(fs, rows), m, h) && k in dict
    ensures i < |rows| && a < |rows[i]| && rows[i][a].value == k && dict[k] == Ctx(fs[i], rows[i][a])
    ensures Buckets(fs, rows)[i].items[a] == k
  {
    var s := Buckets(fs, rows);
    MeaningIs(dict.Keys, s, m, h);
    assert Listed(s, k);
    i :| 0 <= i < |s| && k in s[i].items;
    a :| 0 <= a < |rows[i]| && Values(rows[i])[a] == k;
    assert CtxAt(dict, fs[i], rows[i][a]);
  }

  /** An update of a cached key: where it is, and what its buckets become. */
  lemma Known(dict: map<int, Ctx>, fs: Fnodes, rows: Rows, m: map<int, Stat>, h: seq<Event>, k: int)
    returns (i: nat, a: nat, s1: seq<Bucket>, m1: map<int, Stat>)
    requires Ctxs(dict, fs, rows) && Meaning(dict.Keys, Buckets(fs, rows), m, h) && k in dict
    ensures i < |rows| && a < |rows[i]| && rows[i][a].value == k && dict[k] == Ctx(fs[i], rows[i][a])
    ensures var s := Buckets(fs, rows); !Listed(Take(Prepare(s, i), i, a), k) && s1 == Raise(s, i, a)
    ensures Meaning(dict.Keys, s1, m1, h + [Touch(k)])
  {
    i, a := Find(dict, fs, rows, m, h, k);
    s1, m1 := MeaningTouch(dict.Keys, Buckets(fs, rows), m, h, i, a, k);
  }

  /** A key that is no longer listed can be dropped from the dictionary. */
  lemma Forgotten(dict: map<int, Ctx>, fs: Fnodes, rows: Rows, k: int)
    requires Ctxs(dict, fs, rows) && !Listed(Buckets(fs, rows), k)
    ensures Ctxs(dict - {k}, fs, rows)
  {
    forall i, a | 0 <= i < |rows| && 0 <= a < |rows[i]|
      ensures CtxAt(dict - {k}, fs[i], rows[i][a])
    {
      assert CtxAt(dict, fs[i], rows[i][a]) && Values(rows[i])[a] in Buckets(fs, rows)[i].items;
    }
  }

  ghost predicate Apart(x: Blist<int>, y: Blist<int>)
    reads x, y
  {
    x != y && forall a, b :: 0 <= a < |x.nodes| && 0 <= b < |y.nodes| ==> x.nodes[a] != y.nodes[b]
  }

  class LfuCache {
    const freqList: Blist<FreqValue>
    var dict: map<int, Ctx>

    /** The frequency list and its nodes; the item lists and their nodes. */
    ghost var FRepr: set<object>
    ghost var IRepr: set<object>

    /** The item nodes held by each frequency node. */
    ghost var rows: Rows

    /** What was done to this cache since it was made or cleared, and the statistics that leaves. */
    ghost var h: seq<Event>
    ghost var m: map<int, Stat>

    /** An item list in the footprint is sound. */
    ghost predicate Part(items: Blist<int>)
      requires items in IRepr
      reads `IRepr, IRepr
    {
      (forall n :: n in items.nodes ==> n in IRepr) && items.Valid()
    }

    ghost predicate Closed()
      reads `FRepr, `IRepr, freqList
    {
      freqList in FRepr && this !in FRepr + IRepr && FRepr !! IRepr &&
      (forall f :: f in freqList.nodes ==> f in FRepr) && (forall f :: f in freqList.nodes ==> f.value.items in IRepr)
    }

    /** The item lists are sound and share nothing. */
    ghost predicate ItemLists()
      requires Closed()
      reads `FRepr, `IRepr, freqList, IRepr
    {
      (forall f :: f in freqList.nodes ==> Part(f.value.items)) &&
      (forall f, g :: f in freqList.nodes && g in freqList.nodes && f != g ==> Apart(f.value.items, g.value.items))
    }

    ghost predicate Links()
      reads `FRepr, `IRepr, freqList, FRepr, IRepr
    {
      Closed() && freqList.Valid() && ItemLists()
    }

    ghost predicate InRows()
      requires Closed()
      reads `FRepr, `IRepr, `rows, freqList, IRepr
    {
      |rows| == |freqList.nodes| &&
      forall i :: 0 <= i < |rows| ==> rows[i] == freqList.nodes[i].value.items.nodes
    }

    /** All lists are sound, share nothing, and hold what `rows` says. */
    ghost predicate Shape()
      reads `FRepr, `IRepr, `rows, freqList, FRepr, IRepr
    {
      Links() && InRows()
    }

    ghost function Abs(): seq<Bucket>
      reads `rows, freqList
    {
      Buckets(freqList.nodes, rows)
    }

    ghost predicate Pointed()
      reads `rows, `dict, freqList
    {
      Ctxs(dict, freqList.nodes, rows)
    }

    /** The buckets list the cached keys as their statistics say, no bucket is empty, and every
        dictionary context points at that key's own nodes. */
    ghost predicate Valid()
      reads this, freqList, FRepr, IRepr
    {
      Shape() && Pointed() && Meaning(dict.Keys, Abs(), m, h)
    }

    constructor ()
      ensures Valid() && h == [] && fresh(FRepr) && fresh(IRepr)
    {
      freqList := new Blist<FreqValue>();
      dict, h, m, rows := map[], [], map[], [];
      new;
      FRepr, IRepr := {freqList}, {};
    }

    // ---------- the item lists ----------

    /** items.Extract(inode), or items.PopFront() */
    method TakeItem(fnode: BNode<FreqValue>, inode: BNode<int>, pop: bool, ghost i: nat, ghost a: nat)
      requires Shape() && i < |rows| && freqList.nodes[i] == fnode && a < |rows[i]| && rows[i][a] == inode
      requires pop ==> a == 0
      modifies `rows, IRepr
      ensures Shape() && freqList.nodes == old(freqList.nodes)
      ensures rows == old(rows)[i := old(rows)[i][..a] + old(rows)[i][a + 1..]]
      ensures !pop ==> inode in IRepr && inode.next == null
    {
      UnlinkItem(fnode, inode, pop, a);
      rows := rows[i := rows[i][..a] + rows[i][a + 1..]];
      forall j | 0 <= j < |rows|
        ensures rows[j] == freqList.nodes[j].value.items.nodes
      {
        assert freqList.nodes[j] in freqList.nodes;
      }
    }

    method UnlinkItem(fnode: BNode<FreqValue>, inode: BNode<int>, pop: bool, ghost a: nat)
      requires Links() && fnode in freqList.nodes && (pop ==> a == 0)
      requires a < |fnode.value.items.nodes| && fnode.value.items.nodes[a] == inode
      modifies IRepr
      ensures Links() && freqList.nodes == old(freqList.nodes) && (!pop ==> inode in IRepr && inode.next == null)
      ensures fnode.value.items.nodes == old(fnode.value.items.nodes)[..a] + old(fnode.value.items.nodes)[a + 1..]
      ensures forall f :: f in freqList.nodes && f != fnode ==> f.value.items.nodes == old(f.value.items.nodes)
    {
      var items := fnode.value.items;
      assert Part(items) && LinkedAt(items.nodes, a);
      if pop {
        var _ := items.PopFront();
      } else {
        items.Extract(inode, a);
      }
      forall f | f in freqList.nodes
        ensures Part(f.value.items) && (f != fnode ==> f.value.items.nodes == old(f.value.items.nodes))
      {
        assert old(Part(f.value.items));
        assert f != fnode ==> old(Apart(f.value.items, items));
      }
      forall f, g | f in freqList.nodes && g in freqList.nodes && f != g
        ensures Apart(f.value.items, g.value.items)
      {
        assert old(Apart(f.value.items, g.value.items));
      }
    }

    /** items.PushBack(inode) for a node that is in no list. */
    method AppendItem(fnode: BNode<FreqValue>, inode: BNode<int>, ghost i: nat)
      requires Shape() && i < |rows| && freqList.nodes[i] == fnode && inode.next == null
      requires inode !in FRepr && forall j :: 0 <= j < |rows| ==> inode !in rows[j]
      modifies `IRepr, `rows, IRepr, inode
      ensures Shape() && IRepr == old(IRepr) + {inode} && freqList.nodes == old(freqList.nodes)
      ensures rows == old(rows)[i := old(rows)[i] + [inode]]
    {
      forall f | f in freqList.nodes
        ensures inode !in f.value.items.nodes
      {
        var j :| 0 <= j < |freqList.nodes| && freqList.nodes[j] == f;
        assert inode !in rows[j];
      }
      LinkItem(fnode, inode);
      rows := rows[i := rows[i] + [inode]];
      forall j | 0 <= j < |rows|
        ensures rows[j] == freqList.nodes[j].value.items.nodes
      {
        assert freqList.nodes[j] in freqList.nodes;
      }
    }

    method LinkItem(fnode: BNode<FreqValue>, inode: BNode<int>)
      requires Links() && fnode in freqList.nodes && inode.next == null
      requires inode !in FRepr && forall f :: f in freqList.nodes ==> inode !in f.value.items.nodes
      modifies `IRepr, IRepr, inode
      ensures Links() && IRepr == old(IRepr) + {inode} && freqList.nodes == old(freqList.nodes)
      ensures fnode.value.items.nodes == old(fnode.value.items.nodes) + [inode]
      ensures forall f :: f in freqList.nodes && f != fnode ==> f.value.items.nodes == old(f.value.items.nodes)
    {
      var items := fnode.value.items;
      assert Part(items);
      items.PushBack(inode);
      IRepr := IRepr + {inode};
      forall f | f in freqList.nodes
        ensures Part(f.value.items) && (f != fnode ==> f.value.items.nodes == old(f.value.items.nodes))
      {
        assert old(Part(f.value.items));
        assert f != fnode ==> old(Apart(f.value.items, items));
      }
      forall f, g | f in freqList.nodes && g in freqList.nodes && f != g
        ensures Apart(f.value.items, g.value.items)
      {
        assert old(Apart(f.value.items, g.value.items));
      }
    }

    // ---------- the frequency list ----------

    /** A frequency node with an empty list of its own joined the others. */
    twostate lemma AddedList(new node: BNode<FreqValue>)
      requires old(Links()) && Closed() && old(allocated(freqList))
      requires forall f :: f in freqList.nodes ==> f == node || f in old(freqList.nodes)
      requires fresh(node.value.items) && node.value.items.Valid() && node.value.items.nodes == []
      requires unchanged(old(IRepr)) && old(IRepr) <= IRepr
      ensures ItemLists()
    {
      forall f | f in freqList.nodes
        ensures Part(f.value.items)
      {
        if f != node {
          assert old(Part(f.value.items));
        }
      }
      forall f, g | f in freqList.nodes && g in freqList.nodes && f != g
        ensures Apart(f.value.items, g.value.items)
      {
        if f != node && g != node {
          assert old(Apart(f.value.items, g.value.items));
        }
      }
    }

    /** Some frequency nodes left. */
    twostate lemma FewerLists()
      requires old(Links()) && Closed() && old(allocated(freqList))
      requires forall f :: f in freqList.nodes ==> f in old(freqList.nodes)
      requires unchanged(old(IRepr)) && old(IRepr) == IRepr
      ensures ItemLists()
    {
      forall f | f in freqList.nodes
        ensures Part(f.value.items)
      {
        assert old(Part(f.value.items));
      }
      forall f, g | f in freqList.nodes && g in freqList.nodes && f != g
        ensures Apart(f.value.items, g.value.items)
      {
        assert old(Apart(f.value.items, g.value.items));
      }
    }

    /** freq_list_.InsertAfter(fnode, CreateNode(freq)) */
    method InsertFreq(fnode: BNode<FreqValue>, freq: nat, ghost i: nat) returns (node: BNode<FreqValue>)
      requires Shape() && i < |rows| && freqList.nodes[i] == fnode
      modifies `FRepr, `IRepr, `rows, FRepr
      ensures Shape() && fresh(FRepr - old(FRepr)) && fresh(IRepr - old(IRepr)) && node.value.freq == freq
      ensures freqList.nodes == old(freqList.nodes)[..i + 1] + [node] + old(freqList.nodes)[i + 1..]
      ensures rows == old(rows)[..i + 1] + [[]] + old(rows)[i + 1..]
    {
      ghost var fs := freqList.nodes;
      node := LinkFreq(fnode, freq, i);
      ghost var was := rows;
      rows := was[..i + 1] + [[]] + was[i + 1..];
      forall j | 0 <= j < |rows|
        ensures rows[j] == freqList.nodes[j].value.items.nodes
      {
        if j != i + 1 {
          var o := if j <= i then j else j - 1;
          assert freqList.nodes[j] == fs[o] && rows[j] == was[o] && fs[o] in fs;
        }
      }
    }

    method LinkFreq(fnode: BNode<FreqValue>, freq: nat, ghost i: nat) returns (node: BNode<FreqValue>)
      requires Links() && i < |freqList.nodes| && freqList.nodes[i] == fnode
      modifies `FRepr, `IRepr, FRepr
      ensures Links() && fresh(FRepr - old(FRepr)) && fresh(IRepr - old(IRepr)) && node.value.freq == freq
      ensures freqList.nodes == old(freqList.nodes)[..i + 1] + [node] + old(freqList.nodes)[i + 1..]
      ensures node.value.items.nodes == []
      ensures forall f :: f in old(freqList.nodes) ==> f.value.items.nodes == old(f.value.items.nodes)
    {
      var value := new FreqValue(freq);
      node := new BNode<FreqValue>(value);
      freqList.InsertAfter(fnode, node, i);
      FRepr, IRepr := FRepr + {node}, IRepr + {value.items};
      AddedList(node);
    }

    /** freq_list_.PushFront(freq) */
    method PushFreq(freq: nat) returns (node: BNode<FreqValue>)
      requires Shape()
      modifies `FRepr, `IRepr, `rows, FRepr
      ensures Shape() && fresh(FRepr - old(FRepr)) && fresh(IRepr - old(IRepr)) && node.value.freq == freq
      ensures freqList.nodes == [node] + old(freqList.nodes)
      ensures rows == [[]] + old(rows)
    {
      ghost var fs := freqList.nodes;
      node := LinkFront(freq);
      ghost var was := rows;
      rows := [[]] + was;
      forall j | 0 <= j < |rows|
        ensures rows[j] == freqList.nodes[j].value.items.nodes
      {
        if j > 0 {
          assert freqList.nodes[j] == fs[j - 1] && rows[j] == was[j - 1] && fs[j - 1] in fs;
        }
      }
    }

    method LinkFront(freq: nat) returns (node: BNode<FreqValue>)
      requires Links()
      modifies `FRepr, `IRepr, FRepr
      ensures Links() && fresh(FRepr - old(FRepr)) && fresh(IRepr - old(IRepr)) && node.value.freq == freq
      ensures freqList.nodes == [node] + old(freqList.nodes) && node.value.items.nodes == []
      ensures forall f :: f in old(freqList.nodes) ==> f.value.items.nodes == old(f.value.items.nodes)
    {
      var value := new FreqValue(freq);
      node := new BNode<FreqValue>(value);
      freqList.PushFront(node);
      FRepr, IRepr := FRepr + {node}, IRepr + {value.items};
      AddedList(node);
    }

    /** freq_list_.Erase(fnode), or freq_list_.PopFront() */
    method EraseFreq(fnode: BNode<FreqValue>, pop: bool, ghost i: nat)
      requires Shape() && i < |rows| && freqList.nodes[i] == fnode && (pop ==> i == 0)
      modifies `rows, FRepr
      ensures Shape()
      ensures freqList.nodes == old(freqList.nodes)[..i] + old(freqList.nodes)[i + 1..]
      ensures rows == old(rows)[..i] + old(rows)[i + 1..]
    {
      ghost var fs, was := freqList.nodes, rows;
      UnlinkFreq(fnode, pop, i);
      rows := was[..i] + was[i + 1..];
      forall j | 0 <= j < |rows|
        ensures rows[j] == freqList.nodes[j].value.items.nodes
      {
        DroppedAt(fs, i, j);
        DroppedAt(was, i, j);
        assert freqList.nodes[j] in fs;
      }
    }

    method UnlinkFreq(fnode: BNode<FreqValue>, pop: bool, ghost i: nat)
      requires Links() && i < |freqList.nodes| && freqList.nodes[i] == fnode && (pop ==> i == 0)
      modifies FRepr
      ensures Links()
      ensures freqList.nodes == old(freqList.nodes)[..i] + old(freqList.nodes)[i + 1..]
      ensures forall f :: f in old(freqList.nodes) ==> f.value.items.nodes == old(f.value.items.nodes)
    {
      assert LinkedAt(freqList.nodes, i);
      if pop {
        var _ := freqList.PopFront();
      } else {
        freqList.Extract(fnode, i);
      }
      FewerLists();
    }

    // ---------- the steps of the operations, on buckets ----------

    /** Make sure that the list starts with the node of frequency 1. */
    method FirstFreq()
      requires Shape() && Pointed()
      modifies `FRepr, `IRepr, `rows, FRepr
      ensures Shape() && Pointed() && rows != []
      ensures Abs() == if old(Abs()) == [] || old(Abs())[0].freq > 1 then InsertBucket(old(Abs()), 0, 1) else old(Abs())
      ensures fresh(FRepr - old(FRepr)) && fresh(IRepr - old(IRepr))
    {
      assert freqList.header == null <==> Abs() == [];
      if freqList.header == null || freqList.header.value.freq > 1 {
        OpenFirst(1);
      }
    }

    method OpenFirst(freq: nat)
      requires Shape() && Pointed()
      modifies `FRepr, `IRepr, `rows, FRepr
      ensures Shape() && Pointed() && Abs() == InsertBucket(old(Abs()), 0, freq)
      ensures fresh(FRepr - old(FRepr)) && fresh(IRepr - old(IRepr))
    {
      ghost var fs, was := freqList.nodes, rows;
      var node := PushFreq(freq);
      Opened(dict, fs, was, 0, node);
      InFront(fs, node);
      InFront(was, []);
    }

    /** PushBack of the key's node, and SetFreqNode. */
    method PutItem(fnode: BNode<FreqValue>, inode: BNode<int>, ghost i: nat)
      requires Shape() && i < |rows| && freqList.nodes[i] == fnode && inode.next == null && inode !in FRepr
      requires Pointed() && !Listed(Abs(), inode.value)
      modifies `IRepr, `rows, `dict, IRepr, inode
      ensures Shape() && IRepr == old(IRepr) + {inode} && freqList.nodes == old(freqList.nodes)
      ensures Pointed() && Abs() == Append(old(Abs()), i, inode.value)
      ensures dict == old(dict)[inode.value := Ctx(fnode, inode)]
    {
      NotInRows(freqList.nodes, rows, inode);
      Appended(dict, freqList.nodes, rows, i, inode);
      AppendItem(fnode, inode, i);
      dict := dict[inode.value := Ctx(fnode, inode)];
    }

    /** The node of the next frequency, made if missing. */
    method NextFreq(fnode: BNode<FreqValue>, ghost i: nat) returns (next: BNode<FreqValue>)
      requires Shape() && Pointed() && i < |rows| && freqList.nodes[i] == fnode
      modifies `FRepr, `IRepr, `rows, FRepr
      ensures Shape() && Pointed() && Abs() == Prepare(old(Abs()), i)
      ensures i + 1 < |rows| && freqList.nodes[i] == fnode && freqList.nodes[i + 1] == next && rows[i] == old(rows)[i]
      ensures fresh(FRepr - old(FRepr)) && fresh(IRepr - old(IRepr))
    {
      assert LinkedAt(freqList.nodes, i);
      ghost var u := Prepare(Abs(), i);
      PrepareIs(Abs(), i, fnode.next == null || fnode.next.value.freq - 1 > fnode.value.freq);
      var after := fnode.next;
      if after == null || after.value.freq - 1 > fnode.value.freq {
        assert u == InsertBucket(Abs(), i + 1, fnode.value.freq + 1);
        after := OpenNext(fnode, fnode.value.freq + 1, i);
      }
      assert Abs() == u;
      next := after;
    }

    method OpenNext(fnode: BNode<FreqValue>, freq: nat, ghost i: nat) returns (node: BNode<FreqValue>)
      requires Shape() && Pointed() && i < |rows| && freqList.nodes[i] == fnode
      modifies `FRepr, `IRepr, `rows, FRepr
      ensures Shape() && Pointed() && Abs() == InsertBucket(old(Abs()), i + 1, freq)
      ensures i + 1 < |rows| && freqList.nodes[i] == fnode && freqList.nodes[i + 1] == node && rows[i] == old(rows)[i]
      ensures fresh(FRepr - old(FRepr)) && fresh(IRepr - old(IRepr))
    {
      ghost var fs, was := freqList.nodes, rows;
      node := InsertFreq(fnode, freq, i);
      OpenedBehind(dict, fs, was, i, node, freqList.nodes, rows);
    }

    lemma PrepareIs(s: seq<Bucket>, i: nat, grow: bool)
      requires i < |s| && (grow <==> i + 1 == |s| || s[i + 1].freq - 1 > s[i].freq)
      ensures Prepare(s, i) == if grow then InsertBucket(s, i + 1, s[i].freq + 1) else s
    {
    }

    /** Take the frequency node out if its item list is empty. */
    method CloseIfEmpty(fnode: BNode<FreqValue>, pop: bool, ghost i: nat)
      requires Shape() && Pointed() && i < |rows| && freqList.nodes[i] == fnode && (pop ==> i == 0)
      modifies `rows, FRepr
      ensures Shape() && Pointed() && Abs() == DropIfEmpty(old(Abs()), i)
    {
      assert Part(fnode.value.items);
      if fnode.value.items.header == null {
        Dropped(dict, freqList.nodes, rows, i);
        EraseFreq(fnode, pop, i);
      }
    }

    /** Move the key's node to the end of the next list, and SetFreqNode. */
    method MoveItem(fnode: BNode<FreqValue>, next: BNode<FreqValue>, inode: BNode<int>, ghost i: nat, ghost a: nat)
      requires Shape() && Pointed() && i + 1 < |rows| && freqList.nodes[i] == fnode && freqList.nodes[i + 1] == next
      requires a < |rows[i]| && rows[i][a] == inode && !Listed(Take(Abs(), i, a), inode.value)
      modifies `IRepr, `rows, `dict, IRepr
      ensures Shape() && Pointed() && Abs() == Move(old(Abs()), i, a)
      ensures freqList.nodes == old(freqList.nodes) && dict == old(dict)[inode.value := Ctx(next, inode)]
      ensures IRepr == old(IRepr)
    {
      Taken(dict, freqList.nodes, rows, i, a);
      TakeItem(fnode, inode, false, i, a);
      PutItem(next, inode, i + 1);
    }

    /** UpdateEntry of a key that is not cached. */
    method AddKey(k: int)
      requires Shape() && Pointed() && !Listed(Abs(), k)
      modifies `FRepr, `IRepr, `rows, `dict, FRepr, IRepr
      ensures Shape() && Pointed() && Abs() == Add(old(Abs()), k) && dict.Keys == old(dict.Keys) + {k}
      ensures fresh(FRepr - old(FRepr)) && fresh(IRepr - old(IRepr))
    {
      NotListedIn(Abs(), 0, 1, k);
      FirstFreq();
      var inode := new BNode<int>(k);
      PutItem(freqList.header, inode, 0);
    }

    lemma NotListedIn(s: seq<Bucket>, i: nat, f: nat, k: int)
      requires i <= |s| && !Listed(s, k)
      ensures !Listed(InsertBucket(s, i, f), k)
    {
      var u := InsertBucket(s, i, f);
      assert forall j :: 0 <= j < |u| ==> u[j] == if j < i then s[j] else if j == i then Bucket(f, []) else s[j - 1];
    }

    /** UpdateEntry of a cached key. */
    method RaiseKey(k: int, ghost i: nat, ghost a: nat)
      requires Shape() && Pointed() && i < |rows| && a < |rows[i]| && rows[i][a].value == k
      requires k in dict && dict[k] == Ctx(freqList.nodes[i], rows[i][a])
      requires !Listed(Take(Prepare(Abs(), i), i, a), k)
      modifies `FRepr, `IRepr, `rows, `dict, FRepr, IRepr
      ensures Shape() && Pointed() && Abs() == Raise(old(Abs()), i, a) && dict.Keys == old(dict.Keys)
      ensures fresh(FRepr - old(FRepr)) && fresh(IRepr - old(IRepr))
    {
      var fnode, inode := dict[k].fnode, dict[k].inode;
      Already(dict.Keys, k);
      var next := NextFreq(fnode, i);
      MoveAndClose(fnode, next, inode, i, a);
    }

    method MoveAndClose(fnode: BNode<FreqValue>, next: BNode<FreqValue>, inode: BNode<int>, ghost i: nat, ghost a: nat)
      requires Shape() && Pointed() && i + 1 < |rows| && freqList.nodes[i] == fnode && freqList.nodes[i + 1] == next
      requires a < |rows[i]| && rows[i][a] == inode && !Listed(Take(Abs(), i, a), inode.value)
      modifies `IRepr, `rows, `dict, FRepr, IRepr
      ensures Shape() && Pointed() && Abs() == DropIfEmpty(Move(old(Abs()), i, a), i)
      ensures dict.Keys == old(dict.Keys) + {inode.value} && IRepr == old(IRepr)
    {
      MoveItem(fnode, next, inode, i, a);
      CloseIfEmpty(fnode, false, i);
    }

    /** Take a cached key's item node out, and its frequency node if that is empty now. */
    method RemoveItem(fnode: BNode<FreqValue>, inode: BNode<int>, pop: bool, ghost i: nat, ghost a: nat)
      requires Shape() && Pointed() && i < |rows| && a < |rows[i]| && (pop ==> i == a == 0)
      requires fnode == freqList.nodes[i] && inode == rows[i][a]
      modifies `rows, FRepr, IRepr
      ensures Shape() && Pointed() && Abs() == Remove(old(Abs()), i, a)
    {
      Taken(dict, freqList.nodes, rows, i, a);
      TakeItem(fnode, inode, pop, i, a);
      CloseIfEmpty(fnode, pop, i);
    }

    // ---------- the operations ----------

    /** UpdateEntry */
    method UpdateEntry(k: int)
      requires Valid()
      modifies this, FRepr, IRepr
      ensures Valid() && h == old(h) + [Touch(k)]
      ensures fresh(FRepr - old(FRepr)) && fresh(IRepr - old(IRepr))
    {
      if k !in dict {
        UpdateNew(k);
      } else {
        UpdateKnown(k);
      }
    }

    method UpdateNew(k: int)
      requires Valid() && k !in dict
      modifies this, FRepr, IRepr
      ensures Valid() && h == old(h) + [Touch(k)]
      ensures fresh(FRepr - old(FRepr)) && fresh(IRepr - old(IRepr))
    {
      MeaningAdd(dict.Keys, Abs(), m, h, k);
      AddKey(k);
      m, h := m[k := Stat(1, |h|)], h + [Touch(k)];
    }

    method UpdateKnown(k: int)
      requires Valid() && k in dict
      modifies this, FRepr, IRepr
      ensures Valid() && h == old(h) + [Touch(k)]
      ensures fresh(FRepr - old(FRepr)) && fresh(IRepr - old(IRepr))
    {
      ghost var i, a, s1, m1 := Known(dict, freqList.nodes, rows, m, h, k);
      RaiseKey(k, i, a);
      Record(k, m1);
    }

    /** The statistics that go with an update. */
    ghost method Record(k: int, m1: map<int, Stat>)
      requires Shape() && Pointed() && Meaning(dict.Keys, Abs(), m1, h + [Touch(k)])
      modifies `m, `h
      ensures Valid() && m == m1 && h == old(h) + [Touch(k)]
    {
      m, h := m1, h + [Touch(k)];
    }

    method RemoveAt(k: int, fnode: BNode<FreqValue>, inode: BNode<int>, pop: bool, ghost i: nat, ghost a: nat)
      requires Valid() && i < |rows| && a < |rows[i]| && (pop ==> i == a == 0)
      requires fnode == freqList.nodes[i] && inode == rows[i][a] && inode.value == k
      modifies this, FRepr, IRepr
      ensures Valid() && h == old(h) + [Gone(k)] && dict == old(dict) - {k}
      ensures FRepr == old(FRepr) && IRepr == old(IRepr)
    {
      MeaningRemove(dict.Keys, Abs(), m, h, i, a);
      RemoveItem(fnode, inode, pop, i, a);
      Forget(k);
    }

    /** The dictionary's Erase, and the statistics that go with it. */
    method Forget(k: int)
      requires Shape() && Pointed() && !Listed(Abs(), k)
      requires Meaning(dict.Keys - {k}, Abs(), m - {k}, h + [Gone(k)])
      modifies `dict, `m, `h
      ensures Valid() && h == old(h) + [Gone(k)] && dict == old(dict) - {k}
    {
      Forgotten(dict, freqList.nodes, rows, k);
      KeysWithout(dict, k);
      dict, m, h := dict - {k}, m - {k}, h + [Gone(k)];
    }

    /** DelEntry */
    method DelEntry(k: int) returns (found: bool)
      requires Valid()
      modifies this, FRepr, IRepr
      ensures Valid() && (found <==> k in old(dict)) && dict == old(dict) - {k}
      ensures h == if found then old(h) + [Gone(k)] else old(h)
      ensures FRepr == old(FRepr) && IRepr == old(IRepr)
    {
      found := k in dict;
      if found {
        ghost var i, a := Find(dict, freqList.nodes, rows, m, h, k);
        RemoveAt(k, dict[k].fnode, dict[k].inode, false, i, a);
      }
    }

    /** A cache that is not empty has a first frequency node, which has a first item: the victim. */
    lemma FirstIsVictim()
      requires Valid() && |dict| != 0
      ensures freqList.header != null && freqList.header.value.items.header != null
      ensures |rows| > 0 && |rows[0]| > 0 && freqList.header == freqList.nodes[0]
      ensures freqList.header.value.items.header == rows[0][0] && IsVictim(h, rows[0][0].value)
    {
      assert |dict| == |dict.Keys|;
      MeaningVictim(dict.Keys, Abs(), m, h);
      assert Part(freqList.nodes[0].value.items);
    }

    /** Victim: the cached key updated least since its insertion, and least recently among those. */
    method Victim() returns (found: bool, v: int)
      requires Valid()
      ensures found <==> exists k :: Cached(h, k)
      ensures found ==> IsVictim(h, v)
      ensures found ==> forall k :: Cached(h, k) && k != v ==>
        Updates(h, v) < Updates(h, k) || (Updates(h, v) == Updates(h, k) && LastUpdate(h, v) < LastUpdate(h, k))
    {
      found := |dict| != 0;
      v := 0;
      if found {
        FirstIsVictim();
        v := freqList.header.value.items.header.value;
      } else {
        forall k
          ensures !Cached(h, k)
        {
          MeaningKeys(dict.Keys, Abs(), m, h, k);
        }
      }
    }

    /** DelVictim removes the key that Victim names, if there is one. */
    method DelVictim()
      requires Valid()
      modifies this, FRepr, IRepr
      ensures Valid() && FRepr == old(FRepr) && IRepr == old(IRepr)
      ensures h == old(h) || exists v :: IsVictim(old(h), v) && h == old(h) + [Gone(v)]
      ensures h == old(h) <==> old(|dict|) == 0
    {
      if |dict| != 0 {
        FirstIsVictim();
        var fnode := freqList.header;
        var inode := fnode.value.items.header;
        RemoveAt(inode.value, fnode, inode, true, 0, 0);
      }
    }

    /** Clear */
    method Clear()
      requires Valid()
      modifies this, FRepr, IRepr
      ensures Valid() && h == [] && FRepr == old(FRepr) && IRepr == old(IRepr)
    {
      dict := map[];
      freqList.Clear();
      rows, m, h := [], map[], [];
    }

    /** Search */
    method Search(k: int) returns (found: bool)
      requires Valid()
      ensures found <==> Cached(h, k)
    {
      found := k in dict;
      MeaningKeys(dict.Keys, Abs(), m, h, k);
    }
  }
}
