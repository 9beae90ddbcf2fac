/** A map filled by `put` calls in a loop: a later entry with the same key replaces an earlier one. */
module MapFold {

  /** `m` after `put(k, v)` for every `(k, v)` of `entries`, in order. */
  function PutAll<K, V>(m: map<K, V>, entries: seq<(K, V)>): (r: map<K, V>)
    ensures r.Keys == m.Keys + set i | 0 <= i < |entries| :: entries[i].0
    decreases |entries|
  {
    if entries == [] then m
    else
      var last := entries[|entries| - 1];
      PutAll(m, entries[..|entries| - 1])[last.0 := last.1]
  }

  /** One more entry is one more `put`. */
  lemma PutAllAppend<K, V>(m: map<K, V>, entries: seq<(K, V)>, k: K, v: V)
    ensures PutAll(m, entries + [(k, v)]) == PutAll(m, entries)[k := v]
  {
    assert (entries + [(k, v)])[..|entries|] == entries;
  }

  /** A key that no entry mentions keeps its old presence and value. */
  lemma {:induction false} PutAllKeepsUnmentioned<K, V>(m: map<K, V>, entries: seq<(K, V)>, k: K)
    requires forall i :: 0 <= i < |entries| ==> entries[i].0 != k
    ensures k in PutAll(m, entries) <==> k in m
    ensures k in m ==> PutAll(m, entries)[k] == m[k]
    decreases |entries|
  {
    if entries != [] {
      PutAllKeepsUnmentioned(m, entries[..|entries| - 1], k);
    }
  }

  /** A key ends up holding the value of the last entry that mentions it. */
  lemma {:induction false} PutAllLastWins<K, V>(m: map<K, V>, entries: seq<(K, V)>, j: nat)
    requires j < |entries|
    requires forall i :: j < i < |entries| ==> entries[i].0 != entries[j].0
    ensures entries[j].0 in PutAll(m, entries)
    ensures PutAll(m, entries)[entries[j].0] == entries[j].1
    decreases |entries|
  {
    if j < |entries| - 1 {
      PutAllLastWins(m, entries[..|entries| - 1], j);
    }
  }

  /** Putting under a key that is already present replaces the value and keeps the size. */
  lemma PutExistingKeepsSize<K, V>(m: map<K, V>, k: K, v: V)
    requires k in m
    ensures |m[k := v]| == |m|
    ensures m[k := v][k] == v
  {
    assert m[k := v].Keys == m.Keys;
  }
}
