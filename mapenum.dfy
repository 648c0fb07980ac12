/** Facts about sequences that enumerate the keys of a map, used to state what a Go
    `for _, v := range m` loop visits when the visiting order is unspecified. */
module MapEnum {

  /** No element occurs twice in `s`. */
  predicate Distinct<T(==)>(s: seq<T>)
  {
    forall i, j :: 0 <= i < j < |s| ==> s[i] != s[j]
  }

  /** `keys` lists every key of `m` exactly once, in some order. */
  ghost predicate Enumerates<K(!new), V>(keys: seq<K>, m: map<K, V>)
  {
    Distinct(keys) && (forall k :: k in keys <==> k in m)
  }

  /** A non-empty set has an element (what a loop needs before it picks one). */
  lemma NonEmptyHasElement<T>(s: set<T>)
    requires s != {}
    ensures exists x :: x in s
  {
    if forall x :: x !in s {
      assert false;
    }
  }

  /** Some element of a non-empty set, as a loop that drains a set takes it. */
  method Pick<T>(s: set<T>) returns (x: T)
    requires s != {}
    ensures x in s
  {
    NonEmptyHasElement(s);
    x :| x in s;
  }

  /** A sequence without repetitions is as long as the set of its elements. */
  lemma {:induction false} DistinctCardinality<T(!new)>(s: seq<T>)
    requires Distinct(s)
    ensures |set x | x in s| == |s|
  {
    if s != [] {
      var tail := s[1..];
      assert Distinct(tail) by {
        forall i, j | 0 <= i < j < |tail| ensures tail[i] != tail[j] {
          assert tail[i] == s[i + 1] && tail[j] == s[j + 1];
        }
      }
      DistinctCardinality(tail);
      assert s[0] !in tail by {
        forall i | 0 <= i < |tail| ensures tail[i] != s[0] {
          assert tail[i] == s[i + 1];
        }
      }
      assert (set x | x in s) == (set x | x in tail) + {s[0]} by {
        forall x ensures x in s <==> x in tail || x == s[0] {
          if x in s && x != s[0] {
            var i :| 0 <= i < |s| && s[i] == x;
            assert tail[i - 1] == x;
          }
        }
      }
    }
  }

  /** An enumeration of a map's keys is exactly as long as the map. */
  lemma EnumerationLength<K(!new), V>(keys: seq<K>, m: map<K, V>)
    requires Enumerates(keys, m)
    ensures |keys| == |m|
  {
    DistinctCardinality(keys);
    assert (set x | x in keys) == m.Keys;
  }
}
