/**
  The iteration order of the servers' `HashMap` stores. Java leaves it
  unspecified; the model fixes it as ascending key order, which is what a
  `HashMap` with small non-negative integer keys produces.
*/
module OrderedMap {

  /** Some element of a non-empty set. */
  lemma Pick<T>(s: set<T>) returns (y: T)
    requires |s| > 0
    ensures y in s
  {
    y :| y in s;
  }

  /** Two maps with the same keys and the same value at every key are equal. */
  lemma MapsEqual<K, V>(a: map<K, V>, b: map<K, V>)
    requires a.Keys == b.Keys && forall k | k in a :: a[k] == b[k]
    ensures a == b
  {
  }

  /** `m` is at most every key of `s`. */
  predicate IsLeast(m: int, s: set<int>)
  {
    forall x | x in s :: m <= x
  }

  lemma {:induction false} LeastExists(s: set<int>)
    requires |s| > 0
    ensures exists m :: m in s && IsLeast(m, s)
    decreases |s|
  {
    var y := Pick(s);
    var rest := s - {y};
    if |rest| == 0 {
      forall x | x in s
        ensures y <= x
      {
        assert x !in rest;
      }
      assert IsLeast(y, s);
    } else {
      LeastExists(rest);
      var m :| m in rest && IsLeast(m, rest);
      if y < m {
        forall x | x in s
          ensures y <= x
        {
          if x != y { assert x in rest; }
        }
        assert IsLeast(y, s);
      } else {
        forall x | x in s
          ensures m <= x
        {
          if x != y { assert x in rest; }
        }
        assert m in s && IsLeast(m, s);
      }
    }
  }

  /** The smallest key of a non-empty key set. */
  function Least(s: set<int>): (m: int)
    requires s != {}
    ensures m in s && forall x | x in s :: m <= x
  {
    assert |s| != 0;
    LeastExists(s);
    var m :| m in s && IsLeast(m, s);
    m
  }

  /** The keys of `s` in strictly increasing order. */
  function SortedKeys(s: set<int>): (ks: seq<int>)
    ensures |ks| == |s|
    ensures forall k :: k in ks <==> k in s
    ensures forall i, j | 0 <= i < j < |ks| :: ks[i] < ks[j]
    decreases |s|
  {
    if s == {} then []
    else
      var m := Least(s);
      [m] + SortedKeys(s - {m})
  }

  /** The entries of `db` in iteration order. */
  function Values<V>(db: map<int, V>): (vs: seq<V>)
    ensures |vs| == |db|
    ensures forall i | 0 <= i < |vs| :: SortedKeys(db.Keys)[i] in db && vs[i] == db[SortedKeys(db.Keys)[i]]
  {
    var ks := SortedKeys(db.Keys);
    seq(|ks|, i requires 0 <= i < |ks| => db[ks[i]])
  }

  /** Every entry of `db` occurs in its iteration, and nothing else does. */
  lemma ValuesExactly<V>(db: map<int, V>)
    ensures forall v :: v in Values(db) <==> v in db.Values
  {
  }

  /** A map of one entry iterates that entry alone. */
  lemma ValuesSingle<V>(k: int, v: V)
    ensures Values(map[k := v]) == [v]
  {
    assert SortedKeys(map[k := v].Keys)[0] in map[k := v].Keys;
  }

  /** The keys `lo`, `lo + 1`, ..., `hi - 1`. */
  function Interval(lo: int, hi: int): (s: set<int>)
    ensures forall k :: k in s <==> lo <= k < hi
    decreases hi - lo
  {
    if lo >= hi then {} else {lo} + Interval(lo + 1, hi)
  }

  /** An interval grows at its upper end by one key. */
  lemma IntervalExtend(lo: int, hi: int)
    requires lo <= hi
    ensures Interval(lo, hi + 1) == Interval(lo, hi) + {hi}
  {
  }

  /** The iteration of an interval starts at its lower end. */
  lemma IntervalUnfold(lo: int, hi: int)
    requires lo < hi
    ensures SortedKeys(Interval(lo, hi)) == [lo] + SortedKeys(Interval(lo + 1, hi))
  {
  }

  /** An interval of keys is iterated from `lo` upwards. */
  lemma {:induction false} SortedInterval(lo: int, hi: int)
    requires lo <= hi
    ensures |SortedKeys(Interval(lo, hi))| == hi - lo
    ensures forall i | 0 <= i < hi - lo :: SortedKeys(Interval(lo, hi))[i] == lo + i
    decreases hi - lo
  {
    if lo < hi {
      var ks := SortedKeys(Interval(lo, hi));
      var rest := SortedKeys(Interval(lo + 1, hi));
      IntervalUnfold(lo, hi);
      SortedInterval(lo + 1, hi);
      assert ks == [lo] + rest;
      forall i | 0 <= i < hi - lo
        ensures ks[i] == lo + i
      {
        if i > 0 {
          assert ks[i] == rest[i - 1];
        }
      }
    }
  }
}
