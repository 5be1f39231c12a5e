/** Association lists with distinct keys, and the finite maps they stand for. */
module Assoc {

  ghost function Dict<K, V>(s: seq<(K, V)>): map<K, V> {
    if s == [] then map[] else Dict(s[1..])[s[0].0 := s[0].1]
  }

  ghost predicate Distinct<K, V>(s: seq<(K, V)>) {
    s == [] || (s[0].0 !in Dict(s[1..]) && Distinct(s[1..]))
  }

  lemma {:induction false} DictSize<K, V>(s: seq<(K, V)>)
    requires Distinct(s)
    ensures |Dict(s)| == |s|
  {
    if s != [] {
      DictSize(s[1..]);
    }
  }

  lemma {:induction false} DictMember<K, V>(s: seq<(K, V)>, e: (K, V))
    requires Distinct(s)
    ensures e in s <==> e.0 in Dict(s) && Dict(s)[e.0] == e.1
  {
    if s != [] {
      DictMember(s[1..], e);
      assert e in s <==> e == s[0] || e in s[1..];
    }
  }

  /** Where an element is added does not matter. */
  lemma {:induction false} DictInsert<K, V>(a: seq<(K, V)>, e: (K, V), b: seq<(K, V)>)
    ensures Dict(a + [e] + b).Keys == Dict(a + b).Keys + {e.0}
    ensures Distinct(a + [e] + b) <==> Distinct(a + b) && e.0 !in Dict(a + b)
    ensures e.0 !in Dict(a + b) ==> Dict(a + [e] + b) == Dict(a + b)[e.0 := e.1]
  {
    if a == [] {
      assert a + [e] + b == [e] + b && a + b == b;
      assert ([e] + b)[1..] == b;
    } else {
      var r := a[1..];
      assert (a + b)[1..] == r + b && (a + [e] + b)[1..] == r + [e] + b;
      DictInsert(r, e, b);
    }
  }

  lemma {:induction false} DictAppend<K, V>(a: seq<(K, V)>, b: seq<(K, V)>)
    ensures Dict(a + b) == Dict(b) + Dict(a)
    ensures Distinct(a + b) <==> Distinct(a) && Distinct(b) && Dict(a).Keys !! Dict(b).Keys
  {
    if a == [] {
      assert a + b == b;
    } else {
      assert (a + b)[1..] == a[1..] + b;
      DictAppend(a[1..], b);
    }
  }
}
