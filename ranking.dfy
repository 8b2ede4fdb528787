/**
 * The ranking shown when the bracket is over: the entries of the elimination
 * map sorted by rank, highest first, and cut to the first sixteen. The sort is
 * JavaScript's `Array.prototype.sort` with the comparator `b[1] - a[1]`, which
 * is stable; it is modelled as a stable insertion sort.
 */
module RankingView {

  /** How many entries the ranking view lists. */
  const ViewSize: nat := 16

  /** Ranks never increase from left to right. */
  predicate SortedDesc<K>(s: seq<(K, int)>) {
    forall i, j :: 0 <= i < j < |s| ==> s[i].1 >= s[j].1
  }

  /**
   * Inserts e into a list sorted by rank, in front of the first entry whose rank
   * is not above e's: entries of equal rank that were already there stay behind
   * e, which came before them in the input, so the sort is stable.
   */
  function InsertDesc<K>(e: (K, int), s: seq<(K, int)>): (r: seq<(K, int)>)
    ensures |r| == |s| + 1
  {
    if s == [] || s[0].1 <= e.1 then [e] + s
    else [s[0]] + InsertDesc(e, s[1..])
  }

  /** Inserting into a sorted list keeps it sorted and adds exactly e. */
  lemma {:induction false} InsertSorted<K>(e: (K, int), s: seq<(K, int)>)
    requires SortedDesc(s)
    ensures SortedDesc(InsertDesc(e, s))
    ensures multiset(InsertDesc(e, s)) == multiset(s) + multiset{e}
  {
    if s == [] || s[0].1 <= e.1 {
      ConsSorted(e, s);
    } else {
      var rest := InsertDesc(e, s[1..]);
      assert s == [s[0]] + s[1..];
      InsertSorted(e, s[1..]);
      forall x | x in rest ensures x.1 <= s[0].1 {
        assert x in multiset(s[1..]) + multiset{e};
      }
      ConsSorted(s[0], rest);
    }
  }

  /** An entry ranked at least as high as every entry of a sorted list may head it. */
  lemma ConsSorted<K>(x: (K, int), t: seq<(K, int)>)
    requires SortedDesc(t)
    requires forall y :: y in t ==> y.1 <= x.1
    ensures SortedDesc([x] + t)
  {
  }

  /** Sorts entries by rank, highest first, by inserting them one by one. */
  function SortDesc<K>(s: seq<(K, int)>): (r: seq<(K, int)>)
    ensures |r| == |s|
  {
    if s == [] then [] else InsertDesc(s[0], SortDesc(s[1..]))
  }

  /** The sort's result is sorted and holds the same entries. */
  lemma {:induction false} SortSorted<K>(s: seq<(K, int)>)
    ensures SortedDesc(SortDesc(s))
    ensures multiset(SortDesc(s)) == multiset(s)
  {
    if s != [] {
      assert s == [s[0]] + s[1..];
      SortSorted(s[1..]);
      InsertSorted(s[0], SortDesc(s[1..]));
    }
  }

  /**
   * `[...m.entries()].sort((a, b) => b[1] - a[1]).slice(0, 16)`: the sixteen
   * highest-ranked entries (all of them when there are fewer), highest first.
   */
  function Ranking<K>(entries: seq<(K, int)>): (top: seq<(K, int)>)
    ensures |top| == if |entries| < ViewSize then |entries| else ViewSize
    ensures SortedDesc(top)
    ensures multiset(top) <= multiset(entries)
    ensures forall t :: t in top ==> t in entries
    ensures forall e :: e in entries && e !in top ==> forall t :: t in top ==> t.1 >= e.1
  {
    var sorted := SortDesc(entries);
    SortSorted(entries);
    SameElements(entries, sorted);
    forall t | t in sorted ensures t in entries {
      assert t in multiset(sorted);
    }
    if |sorted| <= ViewSize then sorted
    else
      PrefixIsTop(sorted, ViewSize);
      sorted[..ViewSize]
  }

  /** The ranking view is the head of the sorted entries. */
  lemma RankingIsHead<K>(entries: seq<(K, int)>)
    ensures Ranking(entries) == SortDesc(entries)[..if |entries| < ViewSize then |entries| else ViewSize]
  {
  }

  /** Two sequences with the same multiset have the same elements. */
  lemma SameElements<T>(a: seq<T>, b: seq<T>)
    requires multiset(a) == multiset(b)
    ensures forall x :: x in a <==> x in b
  {
    forall x ensures x in a <==> x in b {
      assert x in a <==> x in multiset(a);
      assert x in b <==> x in multiset(b);
    }
  }

  /** A prefix of a sorted list holds part of the list, and nothing left out outranks it. */
  lemma PrefixIsTop<K>(s: seq<(K, int)>, n: nat)
    requires SortedDesc(s) && n <= |s|
    ensures multiset(s[..n]) <= multiset(s)
    ensures forall e :: e in s && e !in s[..n] ==> forall t :: t in s[..n] ==> t.1 >= e.1
  {
    assert s == s[..n] + s[n..];
    forall e, t | e in s && e !in s[..n] && t in s[..n] ensures t.1 >= e.1 {
      var i :| 0 <= i < |s| && s[i] == e;
      var j :| 0 <= j < n && s[..n][j] == t;
      assert i >= n;
    }
  }

  /** The sequence in the opposite order. */
  function Reverse<T>(s: seq<T>): (r: seq<T>)
    ensures |r| == |s|
    ensures forall i :: 0 <= i < |s| ==> r[i] == s[|s| - 1 - i]
  {
    if s == [] then [] else Reverse(s[1..]) + [s[0]]
  }

  /** Ranks strictly increase from left to right. */
  predicate StrictlyAscending<K>(s: seq<(K, int)>) {
    forall i, j :: 0 <= i < j < |s| ==> s[i].1 < s[j].1
  }

  /** An entry ranked below every entry of a sorted list is inserted at its end. */
  lemma {:induction false} InsertBelowAll<K>(e: (K, int), s: seq<(K, int)>)
    requires forall x :: x in s ==> x.1 > e.1
    ensures InsertDesc(e, s) == s + [e]
  {
    if s != [] {
      assert s[1..] + [e] == (s + [e])[1..];
      InsertBelowAll(e, s[1..]);
    }
  }

  /** Sorting entries whose ranks were handed out in increasing order reverses them. */
  lemma {:induction false} SortAscending<K>(s: seq<(K, int)>)
    requires StrictlyAscending(s)
    ensures SortDesc(s) == Reverse(s)
  {
    if s != [] {
      SortAscending(s[1..]);
      var rest := Reverse(s[1..]);
      assert forall x :: x in rest ==> x.1 > s[0].1;
      InsertBelowAll(s[0], rest);
    }
  }
}
