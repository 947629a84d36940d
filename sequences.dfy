/** Small facts about sequences used by the in-memory stores: a JavaScript
    `Map` is modelled as a Dafny map plus the sequence of its keys in
    insertion order. */
module Sequences {

  /** No element occurs twice. */
  ghost predicate Distinct<T>(s: seq<T>) {
    forall i, j :: 0 <= i < j < |s| ==> s[i] != s[j]
  }

  /** The set of elements of a sequence. */
  ghost function Elements<T>(s: seq<T>): set<T> {
    set x | x in s
  }

  /** The values of `m` listed in the order of `keys`, as `[...m.values()]`
      lists a JavaScript Map. */
  function ValuesInOrder<K, V>(keys: seq<K>, m: map<K, V>): (r: seq<V>)
    requires forall k :: k in keys ==> k in m
    ensures |r| == |keys|
    ensures forall i :: 0 <= i < |keys| ==> r[i] == m[keys[i]]
  {
    if keys == [] then [] else [m[keys[0]]] + ValuesInOrder(keys[1..], m)
  }

  /** A sequence without repetitions has as many elements as its set. */
  lemma {:induction false} DistinctCardinality<T>(s: seq<T>)
    requires Distinct(s)
    ensures |Elements(s)| == |s|
  {
    if s != [] {
      assert Distinct(s[1..]) by {
        forall i, j | 0 <= i < j < |s[1..]| ensures s[1..][i] != s[1..][j] {
          assert s[1..][i] == s[i + 1] && s[1..][j] == s[j + 1];
        }
      }
      DistinctCardinality(s[1..]);
      assert s[0] !in s[1..] by {
        forall k | 0 <= k < |s[1..]| ensures s[1..][k] != s[0] {
          assert s[1..][k] == s[k + 1];
        }
      }
      assert Elements(s) == {s[0]} + Elements(s[1..]) by {
        assert s == [s[0]] + s[1..];
      }
    }
  }

  /** A map whose keys are listed once each has as many entries as the list. */
  lemma MapSizeFromKeys<K, V>(keys: seq<K>, m: map<K, V>)
    requires Distinct(keys) && m.Keys == Elements(keys)
    ensures |m| == |keys|
  {
    DistinctCardinality(keys);
    assert |m| == |m.Keys|;
  }

  /** Listing the values by a complete key list misses no entry. */
  lemma ValuesInOrderCovers<K, V>(keys: seq<K>, m: map<K, V>)
    requires m.Keys == Elements(keys)
    ensures forall k :: k in m ==> m[k] in ValuesInOrder(keys, m)
  {
    var r := ValuesInOrder(keys, m);
    forall k | k in m ensures m[k] in r {
      var i :| 0 <= i < |keys| && keys[i] == k;
      assert r[i] == m[k];
    }
  }

  /** Appending a new element keeps a sequence free of repetitions. */
  lemma DistinctAppend<T>(s: seq<T>, x: T)
    requires Distinct(s) && x !in s
    ensures Distinct(s + [x])
  {
  }
}
