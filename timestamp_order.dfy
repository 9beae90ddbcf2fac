/**
 * Presentation timestamps and the ascending order in which a `TreeMap<Double, _>` keyed by them
 * hands out its entries (`firstEntry`, and iteration over `values()`).
 */
module TimestampOrder {

  import opened Wrappers
  import opened Sets

  /** A presentation timestamp; Java compares them with `Double::compare`, a total order. */
  type Timestamp = real

  ghost predicate IsLeast(k: Timestamp, s: set<Timestamp>)
  {
    k in s && forall x :: x in s ==> k <= x
  }

  ghost predicate StrictlyIncreasing(ts: seq<Timestamp>)
  {
    forall i, j :: 0 <= i < j < |ts| ==> ts[i] < ts[j]
  }

  lemma {:induction false} LeastExists(s: set<Timestamp>)
    requires s != {}
    ensures exists k :: IsLeast(k, s)
    decreases |s|
  {
    var x := Pick(s);
    if s == {x} {
      assert IsLeast(x, s);
    } else {
      LeastExists(s - {x});
      var m :| IsLeast(m, s - {x});
      assert forall y :: y in s ==> y == x || y in s - {x};
      if x <= m {
        assert IsLeast(x, s);
      } else {
        assert IsLeast(m, s);
      }
    }
  }

  /** The smallest timestamp of a non-empty set: the key of `TreeMap.firstEntry()`. */
  ghost function Least(s: set<Timestamp>): (k: Timestamp)
    requires s != {}
    ensures IsLeast(k, s)
  {
    LeastExists(s);
    var k :| IsLeast(k, s);
    k
  }

  /** The keys of a timestamp-ordered map in iteration order. */
  ghost function SortedKeys(s: set<Timestamp>): (r: seq<Timestamp>)
    ensures |r| == |s|
    ensures forall x :: x in s <==> x in r
    ensures StrictlyIncreasing(r)
    decreases |s|
  {
    if s == {} then []
    else
      var k := Least(s);
      [k] + SortedKeys(s - {k})
  }

  /** Removing the first key leaves the remaining keys in the same order. */
  lemma SortedKeysTail(s: set<Timestamp>)
    requires s != {}
    ensures SortedKeys(s)[0] == Least(s)
    ensures SortedKeys(s - {Least(s)}) == SortedKeys(s)[1..]
  {
  }

  /**
   * The values a consumer obtains by taking the first entry of the map and removing it, over
   * and over until the map is empty.
   */
  ghost function Drained<V>(m: map<Timestamp, V>): seq<V>
    decreases |m|
  {
    if m == map[] then []
    else
      var k := Least(m.Keys);
      [m[k]] + Drained(m - {k})
  }

  /** Draining hands the values out in ascending timestamp order, each key exactly once. */
  lemma {:induction false} DrainedInTimestampOrder<V>(m: map<Timestamp, V>)
    ensures |Drained(m)| == |m|
    ensures forall i :: 0 <= i < |m| ==> SortedKeys(m.Keys)[i] in m && Drained(m)[i] == m[SortedKeys(m.Keys)[i]]
    decreases |m|
  {
    if m != map[] {
      var k := Least(m.Keys);
      var rest := m - {k};
      assert rest.Keys == m.Keys - {k};
      DrainedInTimestampOrder(rest);
      SortedKeysTail(m.Keys);
      forall i | 0 <= i < |m|
        ensures SortedKeys(m.Keys)[i] in m && Drained(m)[i] == m[SortedKeys(m.Keys)[i]]
      {
        if i > 0 {
          assert SortedKeys(m.Keys)[i] == SortedKeys(rest.Keys)[i - 1];
          assert Drained(m)[i] == Drained(rest)[i - 1];
        }
      }
    }
  }

  /** Iterative search for the least timestamp of a non-empty set. */
  method LeastOf(s: set<Timestamp>) returns (k: Timestamp)
    requires s != {}
    ensures k == Least(s)
  {
    ghost var member := Pick(s);
    k :| k in s;
    var rest := s - {k};
    while rest != {}
      invariant rest <= s && k in s
      invariant forall x :: x in s && x !in rest ==> k <= x
      decreases |rest|
    {
      ghost var member := Pick(rest);
      var x :| x in rest;
      if x < k {
        k := x;
      }
      rest := rest - {x};
    }
  }

  /**
   * The key at position `n` in ascending order, or `None` when the set has at most `n` keys:
   * `stream().skip(n).findFirst()` over a `TreeMap`.
   */
  method NthLeast(s: set<Timestamp>, n: nat) returns (r: Option<Timestamp>)
    ensures r == if n < |s| then Some(SortedKeys(s)[n]) else None
  {
    var rest := s;
    var skipped := 0;
    while skipped < n && rest != {}
      invariant skipped <= n && skipped <= |s|
      invariant |rest| == |s| - skipped
      invariant SortedKeys(rest) == SortedKeys(s)[skipped..]
      decreases n - skipped
    {
      var k := LeastOf(rest);
      SortedKeysTail(rest);
      assert SortedKeys(s)[skipped..][1..] == SortedKeys(s)[skipped + 1..];
      rest := rest - {k};
      skipped := skipped + 1;
    }
    if rest == {} {
      r := None;
    } else {
      var k := LeastOf(rest);
      SortedKeysTail(rest);
      r := Some(k);
    }
  }
}
