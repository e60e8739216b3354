/** Small shared definitions: an optional value, duplicate-free sequences and
    enumerations of a map's keys (what a key-value store's `keys()` returns). */
module Basics {

  datatype Option<T> = None | Some(value: T)

  /** No element occurs twice. */
  predicate Distinct<T(==)>(s: seq<T>)
  {
    forall i, j :: 0 <= i < j < |s| ==> s[i] != s[j]
  }

  /** `a` is `b` with some elements left out, the rest kept in order. */
  predicate Subsequence<T(==)>(a: seq<T>, b: seq<T>)
    decreases |b|
  {
    a == [] || (b != [] && ((a[0] == b[0] && Subsequence(a[1..], b[1..])) || Subsequence(a, b[1..])))
  }

  /** `ks` lists every key of `m` exactly once, in some order. */
  predicate Enumerates<V>(ks: seq<string>, m: map<string, V>)
  {
    Distinct(ks) && (forall k :: k in ks ==> k in m) && (forall k :: k in m ==> k in ks)
  }

  /** A duplicate-free sequence has as many elements as the set of its elements. */
  lemma {:induction false} DistinctCardinality<T>(s: seq<T>)
    requires Distinct(s)
    ensures |set x | x in s| == |s|
  {
    if s != [] {
      assert Distinct(s[1..]) by {
        forall i, j | 0 <= i < j < |s[1..]| ensures s[1..][i] != s[1..][j] {
          assert s[1..][i] == s[i + 1] && s[1..][j] == s[j + 1];
        }
      }
      DistinctCardinality(s[1..]);
      assert (set x | x in s) == {s[0]} + (set x | x in s[1..]);
    }
  }

  /** Two duplicate-free sequences over the same elements have the same length. */
  lemma {:induction false} DistinctSameElementsSameLength<T>(a: seq<T>, b: seq<T>)
    requires Distinct(a) && Distinct(b)
    requires forall x :: x in a <==> x in b
    ensures |a| == |b|
  {
    DistinctCardinality(a);
    DistinctCardinality(b);
    assert (set x | x in a) == (set x | x in b);
  }

  /** Every finite map has an enumeration of its keys. */
  lemma {:induction false} EnumerationExists<V>(m: map<string, V>) returns (ks: seq<string>)
    ensures Enumerates(ks, m)
    decreases m.Keys
  {
    if m.Keys == {} {
      ks := [];
      assert forall k :: k !in m by {
        forall k ensures k !in m { assert k in m ==> k in m.Keys; }
      }
    } else {
      var k :| k in m.Keys;
      var rest := EnumerationExists(m - {k});
      ks := rest + [k];
      assert forall x :: x in ks <==> x in rest || x == k;
    }
  }
}
