/**
 * The App component's bracket as an object: its state hooks are fields, and
 * generateRandomPair, handleChoice and resetChoices are methods that update
 * them. React's effect on `remainingAnime`, which calls generateRandomPair
 * whenever that array is reassigned, becomes an explicit call (Settle) at the
 * end of every operation that reassigns it.
 */
module BracketEngine {
  import opened Entries
  import opened RankingView
  import opened Bracket

  class Engine {
    /** The title list the bracket was started with. */
    const entrants: seq<Item>
    /** Items still to be paired in this stage. */
    var remaining: seq<Item>
    /** Losers, in the order they lost. */
    var eliminated: seq<Item>
    /** Winners of this stage, waiting for the next one. */
    var survivors: seq<Item>
    /** The two items on screen. */
    var currentPair: seq<Item>
    var stage: nat
    /** The terminal flag: the ranking view is open. */
    var showRanking: bool
    /** The elimination map, in insertion order. */
    var eliminationOrder: seq<Entry>
    /** Leftovers discarded without a rank when a stage with an odd pool ends. */
    ghost var dropped: seq<Item>

    ghost function Snapshot(): State
      reads this
    {
      State(remaining, eliminated, survivors, stage, showRanking, eliminationOrder, dropped)
    }

    ghost predicate Consistent()
      reads this
    {
      Invariant(entrants, Snapshot())
    }

    /** The pair on screen is two different items of the pool. */
    ghost predicate PairDrawn()
      reads this
    {
      |currentPair| == 2 && currentPair[0] != currentPair[1] && currentPair[0] in remaining && currentPair[1] in remaining
    }

    /** Between user actions: consistent, and a pair is on screen unless the bracket is over. */
    ghost predicate Valid()
      reads this
    {
      Consistent() && (!showRanking ==> PairDrawn())
    }

    /** The component's initial state, followed by the effect that runs on mount. */
    constructor (titles: seq<Item>)
      requires Distinct(titles)
      ensures Valid() && entrants == titles
      ensures remaining == titles && eliminated == [] && survivors == [] && stage == 0
      ensures showRanking <==> |titles| < 2
      ensures eliminationOrder == if |titles| == 1 then [(titles[0], 1)] else []
      ensures showRanking ==> currentPair == []
    {
      entrants := titles;
      remaining := titles;
      eliminated := [];
      survivors := [];
      currentPair := [];
      stage := 0;
      showRanking := false;
      eliminationOrder := [];
      dropped := [];
      new;
      InitialInvariant(titles);
      Settle();
    }

    /**
     * generateRandomPair: with two or more items left, put two different ones
     * on screen (any two: the shuffle is not modelled); with fewer and no
     * survivors, end the bracket, ranking a lone leftover after every
     * eliminated item; with fewer and some survivors, promote the survivors
     * to the next stage, dropping a lone leftover. Returns whether
     * `remaining` was reassigned, which makes the effect run again.
     */
    method Advance() returns (rearmed: bool)
      requires Consistent() && !showRanking
      modifies this
      ensures Consistent()
      ensures eliminated == old(eliminated)
      ensures rearmed <==> old(|remaining|) < 2 && old(survivors) != []
      ensures old(|remaining|) >= 2 ==>
        && PairDrawn() && !showRanking
        && remaining == old(remaining) && survivors == old(survivors) && stage == old(stage)
        && eliminationOrder == old(eliminationOrder) && dropped == old(dropped)
      ensures old(|remaining|) < 2 && old(survivors) == [] ==>
        && showRanking
        && eliminationOrder == old(eliminationOrder) +
             (if old(|remaining|) == 1 then [(old(remaining[0]), old(|eliminated|) + 1)] else [])
        && remaining == old(remaining) && survivors == [] && stage == old(stage)
        && currentPair == old(currentPair) && dropped == old(dropped)
      ensures old(|remaining|) < 2 && old(survivors) != [] ==>
        && !showRanking
        && remaining == old(survivors) && survivors == [] && stage == old(stage) + 1
        && eliminationOrder == old(eliminationOrder) && currentPair == old(currentPair)
        && dropped == old(dropped) + old(remaining)
    {
      if |remaining| < 2 {
        if |survivors| == 0 {
          Finish();
          rearmed := false;
        } else {
          Promote();
          rearmed := true;
        }
      } else {
        DrawPair();
        rearmed := false;
      }
    }

    /** Fewer than two left and no survivors: open the ranking view, a lone leftover ranked last. */
    method Finish()
      requires Consistent() && !showRanking && |remaining| < 2 && survivors == []
      modifies this`showRanking, this`eliminationOrder
      ensures Consistent() && showRanking
      ensures eliminationOrder == old(eliminationOrder) +
        (if |remaining| == 1 then [(remaining[0], |eliminated| + 1)] else [])
    {
      ghost var t := Snapshot().(showRanking := true, eliminationOrder := eliminationOrder +
        (if |remaining| == 1 then [(remaining[0], |eliminated| + 1)] else []));
      FinishKeepsInvariant(entrants, Snapshot());
      if |remaining| == 1 {
        FreshKey(entrants, Snapshot(), remaining[0]);
        PutAppends(eliminationOrder, remaining[0], |eliminated| + 1);
        eliminationOrder := Put(eliminationOrder, remaining[0], |eliminated| + 1);
      }
      showRanking := true;
      assert Snapshot() == t;
    }

    /** Fewer than two left and some survivors: the survivors become the next stage's pool. */
    method Promote()
      requires Consistent() && !showRanking && |remaining| < 2 && survivors != []
      modifies this`remaining, this`survivors, this`stage, this`dropped
      ensures Consistent()
      ensures remaining == old(survivors) && survivors == [] && stage == old(stage) + 1
      ensures dropped == old(dropped) + old(remaining)
    {
      ghost var t := Snapshot().(remaining := survivors, survivors := [], stage := stage + 1,
                                 dropped := dropped + remaining);
      PromoteKeepsInvariant(entrants, Snapshot());
      dropped, remaining, survivors, stage := dropped + remaining, survivors, [], stage + 1;
      assert Snapshot() == t;
    }

    /** Two or more left: put two different items of the pool on screen, whichever two the shuffle picks. */
    method DrawPair()
      requires Consistent() && !showRanking && |remaining| >= 2
      modifies this`currentPair
      ensures Consistent() && PairDrawn()
    {
      var i, j :| 0 <= i < |remaining| && 0 <= j < |remaining| && i != j;
      Disjoint(entrants, Snapshot());
      if i < j { DistinctAt(remaining, i, j); } else { DistinctAt(remaining, j, i); }
      currentPair := [remaining[i], remaining[j]];
    }

    /**
     * handleChoice: the chosen item joins the survivors, the other member of
     * the pair is eliminated with the next rank, and both leave the pool.
     */
    method RecordChoice(chosen: Item)
      requires Valid() && !showRanking && chosen in currentPair
      modifies this`survivors, this`eliminated, this`remaining, this`eliminationOrder
      ensures Consistent()
      ensures var loser := if old(currentPair[0]) == chosen then old(currentPair[1]) else old(currentPair[0]);
        && survivors == old(survivors) + [chosen]
        && eliminated == old(eliminated) + [loser]
        && remaining == Without(old(remaining), chosen, loser)
        && |remaining| == old(|remaining|) - 2
        && eliminationOrder == old(eliminationOrder) + [(loser, old(|eliminated|) + 1)]
    {
      OtherOfPair(currentPair, chosen);
      var notChosen := Other(currentPair, chosen).value;
      var rank := |eliminated| + 1;
      ghost var t := Snapshot().(remaining := Without(remaining, chosen, notChosen),
                                 survivors := survivors + [chosen],
                                 eliminated := eliminated + [notChosen],
                                 eliminationOrder := eliminationOrder + [(notChosen, rank)]);
      ChoiceKeepsInvariant(entrants, Snapshot(), chosen, notChosen);
      FreshKey(entrants, Snapshot(), notChosen);
      PutAppends(eliminationOrder, notChosen, rank);
      survivors, eliminated, remaining, eliminationOrder :=
        survivors + [chosen], eliminated + [notChosen], Without(remaining, chosen, notChosen), Put(eliminationOrder, notChosen, rank);
      assert Snapshot() == t;
    }

    /**
     * The effect on `remaining`: advance once, and once more when advancing
     * promoted the survivors (which reassigns `remaining` again).
     */
    method Settle()
      requires Consistent() && !showRanking
      modifies this
      ensures Valid()
      ensures eliminated == old(eliminated)
      ensures old(|remaining|) >= 2 ==>
        && !showRanking
        && remaining == old(remaining) && survivors == old(survivors) && stage == old(stage)
        && eliminationOrder == old(eliminationOrder) && dropped == old(dropped)
      ensures old(|remaining|) < 2 && old(survivors) == [] ==>
        && showRanking
        && eliminationOrder == old(eliminationOrder) +
             (if old(|remaining|) == 1 then [(old(remaining[0]), old(|eliminated|) + 1)] else [])
        && remaining == old(remaining) && survivors == [] && stage == old(stage) && dropped == old(dropped)
      ensures old(|remaining|) < 2 && old(survivors) != [] ==>
        && (showRanking <==> old(|survivors|) == 1)
        && remaining == old(survivors) && survivors == [] && stage == old(stage) + 1
        && eliminationOrder == old(eliminationOrder) +
             (if old(|survivors|) == 1 then [(old(survivors[0]), old(|eliminated|) + 1)] else [])
        && dropped == old(dropped) + old(remaining)
      ensures showRanking ==> currentPair == old(currentPair)
    {
      var rearmed := Advance();
      if rearmed {
        rearmed := Advance();
      }
    }

    /**
     * A click on one of the two items: record the choice, then let the effect
     * draw the next pair, promote the survivors or end the bracket.
     */
    method Choose(chosen: Item)
      requires Valid() && !showRanking && chosen in currentPair
      modifies this
      ensures Valid()
      ensures var loser := if old(currentPair[0]) == chosen then old(currentPair[1]) else old(currentPair[0]);
        && eliminated == old(eliminated) + [loser]
        && eliminationOrder == old(eliminationOrder) + [(loser, old(|eliminated|) + 1)]
                                + (if showRanking then [(chosen, old(|eliminated|) + 2)] else [])
        && (old(|remaining|) >= 4 ==>
              && remaining == Without(old(remaining), chosen, loser)
              && survivors == old(survivors) + [chosen] && stage == old(stage) && dropped == old(dropped))
        && (old(|remaining|) < 4 ==>
              && remaining == old(survivors) + [chosen] && survivors == [] && stage == old(stage) + 1
              && dropped == old(dropped) + Without(old(remaining), chosen, loser))
      ensures showRanking <==> old(survivors) == [] && old(|remaining|) < 4
      ensures showRanking ==> remaining == [chosen] && currentPair == old(currentPair)
    {
      RecordChoice(chosen);
      Settle();
    }

    /**
     * resetChoices: back to the full entrant list in its original order, with
     * nothing eliminated, no survivors, an empty map and stage 0; then the
     * effect draws the first pair.
     */
    method Reset()
      requires Valid()
      modifies this
      ensures Valid()
      ensures remaining == entrants && eliminated == [] && survivors == [] && stage == 0
      ensures showRanking <==> |entrants| < 2
      ensures eliminationOrder == if |entrants| == 1 then [(entrants[0], 1)] else []
      ensures showRanking ==> currentPair == old(currentPair)
    {
      remaining := entrants;
      eliminated := [];
      survivors := [];
      eliminationOrder := [];
      stage := 0;
      showRanking := false;
      dropped := [];
      InitialInvariant(entrants);
      Settle();
    }
  }

  /** With two entrants, the first choice ends the bracket with the chosen item as the only one left. */
  method TwoEntrants(a: Item, b: Item)
    requires a != b
  {
    var e := new Engine([a, b]);
    assert !e.showRanking && e.PairDrawn();
    assert |e.remaining| == 2 && e.survivors == [];
    var winner := e.currentPair[0];
    e.Choose(winner);
    assert e.showRanking && e.remaining == [winner];
  }
}
