/** A way to keep a definition folded, and facts about sequences, sets and maps. */
module Basics {
  datatype Seal = Seal

  /** Always true.  A definition of the form `forall x :: Broken(x) ==> P` means `P`, but the verifier
      only unfolds it where `Broken(Seal)` is mentioned. */
  predicate Broken(x: Seal) {
    true
  }

  /** No element occurs twice. */
  ghost predicate NoDup<T>(s: seq<T>) {
    forall i, j :: 0 <= i < j < |s| ==> s[i] != s[j]
  }

  lemma Member<T>(s: set<T>) returns (x: T)
    requires |s| > 0
    ensures x in s
  {
    x :| x in s;
  }

  lemma KeysWithout<K, V>(d: map<K, V>, k: K)
    ensures (d - {k}).Keys == d.Keys - {k}
  {
  }

  lemma PutThenDrop<K, V>(d: map<K, V>, k: K, v: V)
    requires k !in d
    ensures d[k := v] - {k} == d
  {
  }
}
