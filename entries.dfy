/**
 * A JavaScript `Map` as the bracket uses it: an association list kept in
 * insertion order. `Map.prototype.set` replaces the value of a key that is
 * already present without moving it, and appends a key that is not.
 */
module Entries {

  /** The keys of an association list. */
  function Keys<K, V>(m: seq<(K, V)>): set<K> {
    set i | 0 <= i < |m| :: m[i].0
  }

  lemma KeysCons<K, V>(e: (K, V), t: seq<(K, V)>)
    ensures Keys([e] + t) == {e.0} + Keys(t)
  {
    var s := [e] + t;
    forall x | x in Keys(s) ensures x in {e.0} + Keys(t) {
      var i :| 0 <= i < |s| && s[i].0 == x;
      if i > 0 { assert t[i - 1].0 == x; }
    }
    forall x | x in Keys(t) ensures x in Keys(s) {
      var i :| 0 <= i < |t| && t[i].0 == x;
      assert s[i + 1].0 == x;
    }
    assert s[0].0 == e.0;
  }

  /** No key occurs twice, as in every JavaScript Map. */
  predicate DistinctKeys<K(==), V>(m: seq<(K, V)>) {
    forall i, j :: 0 <= i < j < |m| ==> m[i].0 != m[j].0
  }

  /**
   * `m.set(k, v)`: a key already present keeps its place and takes the new
   * value; a new key goes at the end.
   */
  function Put<K(==), V>(m: seq<(K, V)>, k: K, v: V): (r: seq<(K, V)>)
    ensures |m| <= |r| <= |m| + 1
  {
    if m == [] then [(k, v)]
    else if m[0].0 == k then [(k, v)] + m[1..]
    else [m[0]] + Put(m[1..], k, v)
  }

  /** Setting a key the map does not have appends it. */
  lemma {:induction false} PutAppends<K, V>(m: seq<(K, V)>, k: K, v: V)
    requires k !in Keys(m)
    ensures Put(m, k, v) == m + [(k, v)]
  {
    if m != [] {
      assert m == [m[0]] + m[1..];
      KeysCons(m[0], m[1..]);
      PutAppends(m[1..], k, v);
    }
  }

  /** Setting a key the map has replaces its value in place and changes nothing else. */
  lemma {:induction false} PutReplaces<K, V>(m: seq<(K, V)>, k: K, v: V)
    requires DistinctKeys(m) && k in Keys(m)
    ensures |Put(m, k, v)| == |m|
    ensures forall i :: 0 <= i < |m| ==> Put(m, k, v)[i] == if m[i].0 == k then (k, v) else m[i]
  {
    assert m == [m[0]] + m[1..];
    KeysCons(m[0], m[1..]);
    if m[0].0 != k {
      PutReplaces(m[1..], k, v);
    }
  }

  /** After a set, the keys are the old ones and k, each still once. */
  lemma {:induction false} PutKeys<K, V>(m: seq<(K, V)>, k: K, v: V)
    requires DistinctKeys(m)
    ensures Keys(Put(m, k, v)) == Keys(m) + {k}
    ensures DistinctKeys(Put(m, k, v))
  {
    var r := Put(m, k, v);
    if m == [] {
      assert r[0].0 in Keys(r);
    } else {
      assert m == [m[0]] + m[1..];
      KeysCons(m[0], m[1..]);
      if m[0].0 == k {
        KeysCons((k, v), m[1..]);
      } else {
        var rest := Put(m[1..], k, v);
        PutKeys(m[1..], k, v);
        KeysCons(m[0], rest);
        forall i, j | 0 <= i < j < |r| ensures r[i].0 != r[j].0 {
          if i == 0 {
            assert r[j].0 == rest[j - 1].0 && rest[j - 1].0 in Keys(rest);
          } else {
            assert r[i] == rest[i - 1] && r[j] == rest[j - 1];
          }
        }
      }
    }
  }
}
