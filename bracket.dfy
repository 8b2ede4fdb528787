/**
 * The single-elimination "pick one of two" bracket of the App component:
 * a pool of items still to be paired in the current stage, the survivors of
 * the stage, the eliminated items in order, the pair on screen, the stage
 * counter, the flag that opens the ranking view and the elimination map
 * (item to rank, 1-based, in order of elimination).
 */
module Bracket {
  import opened Entries
  import opened RankingView

  /** An entrant: a title, with no structure of its own. */
  type Item = string

  /** An entry of the elimination map: an item and the rank it was given. */
  type Entry = (Item, int)

  datatype Option<T> = None | Some(value: T)

  /** No item occurs twice. */
  ghost predicate Distinct(s: seq<Item>) {
    forall x :: multiset(s)[x] <= 1
  }

  /** Two positions of a sequence without repeats hold different items. */
  lemma DistinctAt(s: seq<Item>, i: nat, j: nat)
    requires Distinct(s) && i < j < |s|
    ensures s[i] != s[j]
  {
    assert s == s[..j] + s[j..];
    assert s[..j][i] == s[i] && s[j..][0] == s[j];
    assert multiset(s)[s[j]] == multiset(s[..j])[s[j]] + multiset(s[j..])[s[j]];
  }

  /** `pair.find(x => x !== chosen)`: the first member of the pair that is not the chosen one. */
  function Other(pair: seq<Item>, chosen: Item): (r: Option<Item>)
    ensures r.None? <==> forall x :: x in pair ==> x == chosen
    ensures r.Some? ==> r.value in pair && r.value != chosen
    ensures r.Some? ==> exists i :: 0 <= i < |pair| && pair[i] == r.value && forall j :: 0 <= j < i ==> pair[j] == chosen
  {
    if pair == [] then None
    else if pair[0] != chosen then
      assert pair[0] in pair;
      Some(pair[0])
    else
      var r := Other(pair[1..], chosen);
      assert pair == [pair[0]] + pair[1..];
      assert forall x :: x in pair ==> x == pair[0] || x in pair[1..];
      if r.Some? then
        assert r.value in pair;
        var i :| 0 <= i < |pair[1..]| && pair[1..][i] == r.value && forall j :: 0 <= j < i ==> pair[1..][j] == chosen;
        assert pair[i + 1] == r.value && forall j :: 0 <= j < i + 1 ==> pair[j] == chosen;
        r
      else r
  }

  /** Filtering two different items out of a pool without repeats removes exactly one copy of each. */
  lemma RemovePair(pool: seq<Item>, a: Item, b: Item)
    requires Distinct(pool) && a in pool && b in pool && a != b
    ensures multiset(Without(pool, a, b)) + multiset{a, b} == multiset(pool)
    ensures |Without(pool, a, b)| == |pool| - 2
  {
    var w := Without(pool, a, b);
    WithoutCounts(pool, a, b);
    assert multiset(pool)[a] == 1 && multiset(pool)[b] == 1;
    assert multiset(w) + multiset{a, b} == multiset(pool);
    assert |multiset(w) + multiset{a, b}| == |w| + 2;
  }

  /** On a pair of two different items containing the chosen one, find yields the other one. */
  lemma OtherOfPair(pair: seq<Item>, chosen: Item)
    requires |pair| == 2 && pair[0] != pair[1] && chosen in pair
    ensures Other(pair, chosen) == Some(if pair[0] == chosen then pair[1] else pair[0])
  {
  }

  /** r keeps some of the items of s, in the order s has them. */
  ghost predicate IsSubsequence(r: seq<Item>, s: seq<Item>) {
    r == [] || (s != [] && ((r[0] == s[0] && IsSubsequence(r[1..], s[1..])) || IsSubsequence(r, s[1..])))
  }

  /** `s.filter(x => x !== a && x !== b)`. */
  function Without(s: seq<Item>, a: Item, b: Item): (r: seq<Item>)
    ensures |r| <= |s|
  {
    if s == [] then []
    else if s[0] == a || s[0] == b then Without(s[1..], a, b)
    else [s[0]] + Without(s[1..], a, b)
  }

  /** The filter removes every copy of a and b and keeps every copy of anything else. */
  lemma {:induction false} WithoutCounts(s: seq<Item>, a: Item, b: Item)
    ensures multiset(Without(s, a, b)) == multiset(s)[a := 0][b := 0]
  {
    if s != [] {
      assert s == [s[0]] + s[1..];
      WithoutCounts(s[1..], a, b);
    }
  }

  /** An item survives the filter exactly when it was there and is neither a nor b. */
  lemma WithoutMembers(s: seq<Item>, a: Item, b: Item)
    ensures forall x :: x in Without(s, a, b) <==> x in s && x != a && x != b
  {
  }

  /** The filter keeps the order of what it keeps. */
  lemma {:induction false} WithoutKeepsOrder(s: seq<Item>, a: Item, b: Item)
    ensures IsSubsequence(Without(s, a, b), s)
  {
    if s != [] {
      WithoutKeepsOrder(s[1..], a, b);
      var r := Without(s, a, b);
      if s[0] != a && s[0] != b {
        assert r[1..] == Without(s[1..], a, b);
      }
    }
  }

  /** The items of xs numbered in order: the k-th one gets rank first + k. */
  function Ranks(xs: seq<Item>, first: int): (r: seq<Entry>)
    ensures |r| == |xs|
  {
    if xs == [] then [] else Ranks(xs[..|xs| - 1], first) + [(xs[|xs| - 1], first + |xs| - 1)]
  }

  /** The k-th entry of a numbering is the k-th item with rank first + k. */
  lemma {:induction false} RanksAt(xs: seq<Item>, first: int, k: nat)
    requires k < |xs|
    ensures Ranks(xs, first)[k] == (xs[k], first + k)
  {
    if k < |xs| - 1 {
      RanksAt(xs[..|xs| - 1], first, k);
    }
  }

  /** The keys of a numbering are the numbered items, each once when the items are distinct. */
  lemma RanksKeys(xs: seq<Item>, first: int)
    requires Distinct(xs)
    ensures forall x :: x in Keys(Ranks(xs, first)) <==> x in xs
    ensures DistinctKeys(Ranks(xs, first))
  {
    var m := Ranks(xs, first);
    forall x | x in xs ensures x in Keys(m) {
      var k :| 0 <= k < |xs| && xs[k] == x;
      RanksAt(xs, first, k);
    }
    forall x | x in Keys(m) ensures x in xs {
      var k :| 0 <= k < |m| && m[k].0 == x;
      RanksAt(xs, first, k);
    }
    forall i, j | 0 <= i < j < |m| ensures m[i].0 != m[j].0 {
      RanksAt(xs, first, i);
      RanksAt(xs, first, j);
      DistinctAt(xs, i, j);
    }
  }

  /** The ranks of a numbering from 1 are 1..n in order, so each of 1..n is used exactly once. */
  lemma RanksOneToN(xs: seq<Item>)
    ensures forall i :: 0 <= i < |xs| ==> Ranks(xs, 1)[i].1 == i + 1
    ensures forall e :: e in Ranks(xs, 1) ==> 1 <= e.1 <= |xs|
  {
  }

  /** Numbering one more item gives it the next rank. */
  lemma RanksSnoc(xs: seq<Item>, x: Item)
    ensures Ranks(xs + [x], 1) == Ranks(xs, 1) + [(x, |xs| + 1)]
  {
  }

  /** The ranking view of a numbering lists it backwards: last eliminated first. */
  lemma RankingOfRanks(xs: seq<Item>)
    ensures Ranking(Ranks(xs, 1)) == Reverse(Ranks(xs, 1))[..if |xs| < ViewSize then |xs| else ViewSize]
    ensures xs != [] ==> Ranking(Ranks(xs, 1))[0] == (xs[|xs| - 1], |xs|)
  {
    var m := Ranks(xs, 1);
    forall i, j | 0 <= i < j < |m| ensures m[i].1 < m[j].1 {
      RanksAt(xs, 1, i);
      RanksAt(xs, 1, j);
    }
    SortAscending(m);
    var n := if |xs| < ViewSize then |xs| else ViewSize;
    RankingIsHead(m);
    if xs != [] {
      assert Reverse(m)[0] == m[|m| - 1];
      RanksAt(xs, 1, |xs| - 1);
    }
  }

  /** 2 to the power k. */
  function Pow2(k: nat): (p: nat)
    ensures p >= 1
  {
    if k == 0 then 1 else 2 * Pow2(k - 1)
  }

  /** n is 1, 2, 4, 8, ... */
  ghost predicate PowerOfTwo(n: nat) {
    if n <= 1 then n == 1 else n % 2 == 0 && PowerOfTwo(n / 2)
  }

  /** Promoting the survivors of a full stage halves the stage and doubles 2^stage. */
  lemma Halve(m: nat, stage: nat, n: nat)
    requires PowerOfTwo(m) && m >= 2 && m * Pow2(stage) == n
    ensures m % 2 == 0 && PowerOfTwo(m / 2)
    ensures (m / 2) * Pow2(stage + 1) == n
  {
  }

  /**
   * The bracket's state apart from the pair on screen. `dropped` is not in
   * the component: it collects, for the proofs, the leftovers that a stage
   * with an odd pool discards without a rank.
   */
  datatype State = State(
    remaining: seq<Item>,
    eliminated: seq<Item>,
    survivors: seq<Item>,
    stage: nat,
    showRanking: bool,
    eliminationOrder: seq<Entry>,
    dropped: seq<Item>)

  /** How many items entered the current stage, when none was dropped. */
  function StageSize(s: State): nat {
    |s.remaining| + 2 * |s.survivors|
  }

  /**
   * What every step keeps: each entrant is in exactly one of the pools (the
   * ranked champion stays in `remaining`); the elimination map numbers the
   * eliminated items 1, 2, ... in the order they lost, with the champion
   * last; the ranking view opens only when nothing is left to pair; and when
   * the entrant count is a power of two no item is ever dropped and every
   * stage halves the field.
   */
  ghost predicate Invariant(entrants: seq<Item>, s: State) {
    && Distinct(entrants)
    && multiset(s.remaining) + multiset(s.survivors) + multiset(s.eliminated) + multiset(s.dropped) == multiset(entrants)
    && s.eliminationOrder == Ranks(s.eliminated + (if s.showRanking then s.remaining else []), 1)
    && (s.showRanking ==> |s.remaining| <= 1 && s.survivors == [])
    && (PowerOfTwo(|entrants|) ==>
          && s.dropped == []
          && PowerOfTwo(StageSize(s))
          && StageSize(s) * Pow2(s.stage) == |entrants|)
  }

  /** The state the component starts from, and returns to on reset. */
  function Initial(entrants: seq<Item>): State {
    State(entrants, [], [], 0, false, [], [])
  }

  lemma InitialInvariant(entrants: seq<Item>)
    requires Distinct(entrants)
    ensures Invariant(entrants, Initial(entrants))
  {
  }

  /** No item is in two pools, and none is twice in one. */
  lemma Disjoint(entrants: seq<Item>, s: State)
    requires Invariant(entrants, s)
    ensures Distinct(s.remaining) && Distinct(s.survivors) && Distinct(s.eliminated)
    ensures forall x :: x in s.remaining ==> x !in s.survivors && x !in s.eliminated && x !in s.dropped
    ensures forall x :: x in s.survivors ==> x !in s.eliminated && x !in s.dropped
  {
    forall x
      ensures multiset(s.remaining)[x] <= 1 && multiset(s.survivors)[x] <= 1 && multiset(s.eliminated)[x] <= 1
      ensures x in s.remaining ==> x !in s.survivors && x !in s.eliminated && x !in s.dropped
      ensures x in s.survivors ==> x !in s.eliminated && x !in s.dropped
    {
      assert multiset(entrants)[x] <= 1;
      assert multiset(s.remaining)[x] + multiset(s.survivors)[x] + multiset(s.eliminated)[x] + multiset(s.dropped)[x] <= 1;
    }
  }

  /** An item still in the pool is not yet a key of the elimination map, so `set` appends it. */
  lemma FreshKey(entrants: seq<Item>, s: State, x: Item)
    requires Invariant(entrants, s) && !s.showRanking && x in s.remaining
    ensures DistinctKeys(s.eliminationOrder) && x !in Keys(s.eliminationOrder)
  {
    Disjoint(entrants, s);
    assert s.eliminated + [] == s.eliminated;
    RanksKeys(s.eliminated, 1);
  }

  /** Two different items of the pool: after one beats the other, the invariant still holds. */
  lemma ChoiceKeepsInvariant(entrants: seq<Item>, s: State, winner: Item, loser: Item)
    requires Invariant(entrants, s) && !s.showRanking
    requires winner in s.remaining && loser in s.remaining && winner != loser
    ensures |Without(s.remaining, winner, loser)| == |s.remaining| - 2
    ensures Invariant(entrants, s.(remaining := Without(s.remaining, winner, loser),
                                   survivors := s.survivors + [winner],
                                   eliminated := s.eliminated + [loser],
                                   eliminationOrder := s.eliminationOrder + [(loser, |s.eliminated| + 1)]))
  {
    Disjoint(entrants, s);
    RemovePair(s.remaining, winner, loser);
    RanksSnoc(s.eliminated, loser);
    var t := s.(remaining := Without(s.remaining, winner, loser),
                survivors := s.survivors + [winner],
                eliminated := s.eliminated + [loser],
                eliminationOrder := s.eliminationOrder + [(loser, |s.eliminated| + 1)]);
    assert s.eliminated + [] == s.eliminated && t.eliminated + [] == t.eliminated;
    assert StageSize(t) == StageSize(s);
    assert multiset(t.remaining) + multiset(t.survivors) + multiset(t.eliminated)
        == multiset(s.remaining) + multiset(s.survivors) + multiset(s.eliminated);
  }

  /** Fewer than two left and no survivors: ending the bracket, a lone leftover ranked last, keeps the invariant. */
  lemma FinishKeepsInvariant(entrants: seq<Item>, s: State)
    requires Invariant(entrants, s) && !s.showRanking
    requires |s.remaining| < 2 && s.survivors == []
    ensures Invariant(entrants, s.(showRanking := true,
                                   eliminationOrder := s.eliminationOrder +
                                     (if |s.remaining| == 1 then [(s.remaining[0], |s.eliminated| + 1)] else [])))
  {
    assert s.eliminated + [] == s.eliminated;
    if |s.remaining| == 1 {
      assert s.remaining == [s.remaining[0]];
      RanksSnoc(s.eliminated, s.remaining[0]);
    }
  }

  /**
   * The elimination map of any consistent state: every key is an eliminated
   * item or the ranked champion, each once, and the ranks are 1..n in the
   * order the keys were set; a ranked champion holds the largest rank.
   */
  lemma MapRanks(entrants: seq<Item>, s: State)
    requires Invariant(entrants, s)
    ensures DistinctKeys(s.eliminationOrder)
    ensures forall x :: x in Keys(s.eliminationOrder) <==> x in s.eliminated || (s.showRanking && x in s.remaining)
    ensures forall i :: 0 <= i < |s.eliminationOrder| ==> s.eliminationOrder[i].1 == i + 1
    ensures s.showRanking && |s.remaining| == 1 ==>
      s.eliminationOrder[|s.eliminationOrder| - 1] == (s.remaining[0], |s.eliminationOrder|)
  {
    Disjoint(entrants, s);
    var ranked := s.eliminated + (if s.showRanking then s.remaining else []);
    forall x ensures multiset(ranked)[x] <= 1 {
      assert multiset(ranked) == multiset(s.eliminated) + multiset(if s.showRanking then s.remaining else []);
      assert multiset(entrants)[x] <= 1;
    }
    RanksKeys(ranked, 1);
    RanksOneToN(ranked);
    if s.showRanking && |s.remaining| == 1 {
      RanksAt(ranked, 1, |ranked| - 1);
    }
  }

  /** Fewer than two left and some survivors: promoting them keeps the invariant. */
  lemma PromoteKeepsInvariant(entrants: seq<Item>, s: State)
    requires Invariant(entrants, s) && !s.showRanking
    requires |s.remaining| < 2 && s.survivors != []
    ensures Invariant(entrants, s.(remaining := s.survivors, survivors := [], stage := s.stage + 1,
                                   dropped := s.dropped + s.remaining))
  {
    var t := s.(remaining := s.survivors, survivors := [], stage := s.stage + 1, dropped := s.dropped + s.remaining);
    if PowerOfTwo(|entrants|) {
      Halve(StageSize(s), s.stage, |entrants|);
      assert |s.remaining| == 0;
      assert t.dropped == s.dropped;
      assert StageSize(t) == StageSize(s) / 2;
    }
    assert multiset(t.dropped) == multiset(s.dropped) + multiset(s.remaining);
  }

  /**
   * A stage that ends with one unpaired leftover while some items survived it
   * loses that leftover: it is in no pool and has no rank afterwards.
   */
  lemma PromoteDropsLeftover(entrants: seq<Item>, s: State)
    requires Invariant(entrants, s) && !s.showRanking
    requires |s.remaining| == 1 && s.survivors != []
    ensures var x := s.remaining[0];
      && x !in s.survivors && x !in s.eliminated
      && x !in Keys(s.eliminationOrder)
      && !PowerOfTwo(|entrants|)
  {
    Disjoint(entrants, s);
    FreshKey(entrants, s, s.remaining[0]);
    assert !PowerOfTwo(StageSize(s));
  }

  /**
   * With a power-of-two entrant count, a finished bracket has played log2(n)
   * stages and ranked every entrant 1..n in order of elimination, the
   * champion at n; the ranking view opens with the champion.
   */
  lemma FinishedRanksAll(entrants: seq<Item>, s: State)
    requires Invariant(entrants, s) && s.showRanking && PowerOfTwo(|entrants|)
    ensures |s.remaining| == 1 && s.survivors == [] && s.dropped == []
    ensures Pow2(s.stage) == |entrants|
    ensures multiset(s.eliminated + s.remaining) == multiset(entrants)
    ensures s.eliminationOrder == Ranks(s.eliminated + s.remaining, 1)
    ensures |s.eliminationOrder| == |entrants|
    ensures Ranking(s.eliminationOrder)[0] == (s.remaining[0], |entrants|)
  {
    var size := StageSize(s);
    assert size == |s.remaining|;
    assert PowerOfTwo(size);
    assert size != 0;
    assert size == 1;
    assert 1 * Pow2(s.stage) == |entrants|;
    var all := s.eliminated + s.remaining;
    assert multiset(all) == multiset(s.remaining) + multiset(s.eliminated);
    assert |multiset(all)| == |all|;
    assert |all| == |entrants|;
    RankingOfRanks(all);
  }
}
