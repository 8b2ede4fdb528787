# "Pick one of two" bracket — a verified model

The `App` component in `src/App.js` runs a single-elimination bracket over a list
of titles. Two titles are shown, the user clicks the one they prefer, the other one
is eliminated, and when the stage's pool is used up the winners play the next
stage. When nothing is left to pair, a ranking view lists the titles by the order
in which they were eliminated, latest first, up to sixteen of them.

This project models that state machine and proves what each step does to it.

- `entries.dfy` (module `Entries`): the JavaScript `Map` that holds the elimination
  order (title to rank). It is an association list in insertion order, and `Put`
  is `Map.prototype.set`.
- `ranking.dfy` (module `RankingView`): the ranking view at lines 87-89. It sorts
  the map's entries by rank, highest first, with a stable insertion sort, and keeps
  the first sixteen.
- `bracket.dfy` (module `Bracket`): the pure part.
  - `Other` is the `find` at line 41 and `Without` is the `filter` at line 44.
  - `Ranks` is the numbering 1, 2, ... that the elimination map receives.
  - `State` is the bracket state, and `Invariant` is what every step keeps.
  - One lemma per transition proves that the transition keeps `Invariant`.
- `engine.dfy` (module `BracketEngine`): the component as a class `Engine`. Its
  fields are the state hooks, and its methods update them in place.
  - `Advance` is `generateRandomPair`. It is split into `Finish`, `Promote` and
    `DrawPair`, one per branch.
  - `RecordChoice` is `handleChoice`, and `Reset` is `resetChoices`.
  - `Settle` is the effect at lines 16-18. It runs `Advance` again whenever
    `Advance` reassigned the pool.
  - `Choose` is a click on one of the two titles: `RecordChoice`, then `Settle`.

The invariant says the following:
- Every entrant is in exactly one of these: the pool, the winners of the stage,
  the eliminated list, or the leftovers a stage discarded.
- The elimination map numbers the eliminated titles 1, 2, ... in the order they
  lost, and the champion comes last.
- When the entrant count is a power of two, nothing is ever discarded and each
  stage halves the field.

The leftovers are kept in a ghost field, `dropped`, which the component does not
have. They arise when a stage ends with one unpaired title while some titles
survived the stage. Line 30 then overwrites the pool with the survivors, and the
leftover disappears without a rank. `PromoteDropsLeftover` proves this, and proves
that it cannot happen when the entrant count is a power of two.

The titles are plain strings (`Item`). The entrant list is a parameter of the
constructor and must not repeat a title. `TwoEntrants` is a small client of the
class: with two entrants, the first click ends the bracket with the chosen title
left alone in the pool.

## Model

| member | source | states |
|---|---|---|
| `Entries.PutAppends` | src/App.js:45 | setting a key the map does not hold appends `(key, value)` at the end; every earlier entry stays where it was |
| `Entries.PutReplaces` | src/App.js:45 | setting a key the map already holds keeps the length, gives that key the new value in its old place, and changes no other entry (`Map.set` on a present key; the bracket never reaches this, see `Bracket.FreshKey`) |
| `Entries.PutKeys` | src/App.js:25 | after a set, the keys are the old keys plus the new one, and no key appears twice |
| `RankingView.InsertSorted` | src/App.js:88 | inserting into a list sorted by rank (descending) keeps it sorted and adds exactly the new entry |
| `RankingView.SortSorted` | src/App.js:88 | the sort's result is sorted by rank, highest first, and is a permutation of its input |
| `RankingView.Ranking` | src/App.js:87-89 | the view has min(n, 16) entries; it is sorted by rank, highest first; every entry comes from the map, at most as often as in the map; no entry left out outranks a listed one |
| `RankingView.SortAscending` | src/App.js:88 | entries whose ranks increase strictly come out of the sort in reverse order |
| `Bracket.Other` | src/App.js:41 | `find` yields nothing exactly when every member of the pair is the chosen title; otherwise it yields the first member that differs from the chosen title |
| `Bracket.OtherOfPair` | src/App.js:41 | on a pair of two different titles that contains the chosen one, `find` yields the other member |
| `Bracket.WithoutCounts` | src/App.js:44 | the filter removes every copy of the two titles and keeps every copy of every other title |
| `Bracket.WithoutMembers` | src/App.js:44 | a title survives the filter exactly when it was in the pool and is neither member of the pair |
| `Bracket.WithoutKeepsOrder` | src/App.js:44 | the filtered pool is a subsequence of the old pool, so the titles that remain keep their relative order |
| `Bracket.RemovePair` | src/App.js:44 | on a pool without repeats that holds both pair members, the filter removes exactly those two titles |
| `Bracket.RanksAt` | src/App.js:43-45 | the k-th title of the numbering has rank first + k |
| `Bracket.RanksKeys` | src/App.js:43-45 | the keys of the numbering are exactly the numbered titles, each once |
| `Bracket.RanksOneToN` | src/App.js:43-45 | numbered from 1, the i-th entry has rank i + 1, so the ranks are 1..n with each rank used exactly once |
| `Bracket.RankingOfRanks` | src/App.js:87-89 | the view of an elimination map lists it backwards, the last title eliminated first, with rank n |
| `Bracket.InitialInvariant` | src/App.js:8-14 | the initial state keeps the invariant: the full list in the pool, nothing eliminated, an empty map, stage 0 |
| `Bracket.Disjoint` | src/App.js:40-46 | in a consistent state no title appears twice in a pool or in two pools |
| `Bracket.FreshKey` | src/App.js:45 | a title still in the pool is not yet a key of the map, so setting it appends it |
| `Bracket.ChoiceKeepsInvariant` | src/App.js:40-46 | a choice keeps the invariant: the winner joins the survivors, the loser is eliminated with the next rank, and the pool shrinks by exactly two |
| `Bracket.FinishKeepsInvariant` | src/App.js:22-28 | ending the bracket keeps the invariant, and a lone leftover gets rank (number eliminated) + 1 |
| `Bracket.MapRanks` | src/App.js:22-46 | in a consistent state the map's keys are the eliminated titles (plus the champion once the view is open), each once; the i-th entry has rank i + 1; the champion holds the last and largest rank |
| `Bracket.PromoteKeepsInvariant` | src/App.js:29-33 | promoting the survivors keeps the invariant; with a power-of-two entrant count nothing is dropped |
| `Bracket.PromoteDropsLeftover` | src/App.js:29-33 | a stage that ends with one leftover while some titles survived loses that leftover: it is in no pool and has no rank, and the entrant count was not a power of two |
| `Bracket.FinishedRanksAll` | src/App.js:20-46 | with 2^k entrants, a finished bracket has played k stages and ranked every entrant 1..n in elimination order; the view opens with the champion at rank n |
| `BracketEngine.Engine.constructor` | src/App.js:8-18 | starts with the full list in the pool, nothing eliminated, an empty map, no pair and stage 0, then runs the mount effect: a pair is drawn, or the view opens at once (with no pair) when there are fewer than two entrants |
| `BracketEngine.Engine.Advance` | src/App.js:20-38 | with two or more left, draws two different titles of the pool and changes nothing else; with fewer and no survivors, opens the view and ranks a lone leftover (number eliminated) + 1; with fewer and some survivors, the pool becomes the survivors (same order), the survivors are cleared and the stage goes up by one |
| `BracketEngine.Engine.Finish` | src/App.js:22-28 | opens the view; the map gains the lone leftover with rank (number eliminated) + 1, or nothing if the pool is empty |
| `BracketEngine.Engine.Promote` | src/App.js:29-33 | the pool becomes the survivors in their order, the survivors are cleared, the stage goes up by one, and a leftover is dropped |
| `BracketEngine.Engine.DrawPair` | src/App.js:35-37 | the pair on screen is two different titles of the pool; nothing else changes |
| `BracketEngine.Engine.RecordChoice` | src/App.js:40-46 | the chosen title is appended to the survivors and the other one to the eliminated list; both leave the pool, the rest in order; the loser is appended to the map with rank (number eliminated) + 1 |
| `BracketEngine.Engine.Settle` | src/App.js:16-18 | runs the effect on the pool until it settles: one `Advance`, and a second one after a promotion; afterwards a pair is on screen, or the view is open and the pair last on screen stays (lines 22-28 do not clear it) |
| `BracketEngine.Engine.Choose` | src/App.js:40-46 | a click: the loser gets the next rank; the view opens exactly when this was the last pair of the stage and no one had survived before; in that case the chosen title is the champion, ranked right after the loser, and the last pair stays on screen; otherwise the next pair or stage follows |
| `BracketEngine.Engine.Reset` | src/App.js:48-56 | back to the full list in its original order, with no eliminations, no survivors, an empty map, stage 0 and the view closed, then a new pair is drawn; if the view opens at once (fewer than two entrants), the pair last on screen stays |

The functions that the rows above are about, and where their properties live:
- `Entries.Put` is `Map.prototype.set` (src/App.js:25 and 45); see `Entries.PutAppends`, `Entries.PutReplaces` and `Entries.PutKeys`.
- `RankingView.InsertDesc` and `RankingView.SortDesc` are the sort at src/App.js:88; see `RankingView.InsertSorted`, `RankingView.SortSorted`, `RankingView.SortAscending` and `RankingView.Ranking`.
- `Bracket.Other` is the `find` at src/App.js:41; its contract is its own row.
- `Bracket.Without` is the `filter` at src/App.js:44; see `Bracket.WithoutCounts`, `Bracket.WithoutMembers`, `Bracket.WithoutKeepsOrder` and `Bracket.RemovePair`.
- `Bracket.Ranks` is the numbering the elimination map receives at src/App.js:43-45; see `Bracket.RanksAt`, `Bracket.RanksKeys`, `Bracket.RanksOneToN` and `Bracket.RankingOfRanks`.
- `Bracket.Initial` is the initial state at src/App.js:8-14; see `Bracket.InitialInvariant` and `BracketEngine.Engine.constructor`.

## Left out

- The markup, styling, buttons and modal (src/App.js:58-109), the stage label and
  `stageList` (lines 5 and 61): these are display only.
- The title list in `./lists` (line 2) is static data. It is the constructor's
  parameter here, and it is required to hold no title twice.
- `Math.random` and the shuffle by a random comparator (line 36). `DrawPair` picks
  any two different positions of the pool, in either order, which covers every
  pair the shuffle can put first.
- React's scheduling: setter batching and stale closures. Each operation applies
  its updates in order and then runs the effect explicitly (`Settle`).
  - In particular, `resetChoices` calls `generateRandomPair` at line 55 on the
    state from before the reset, and that call is not modelled. When the view is
    open, that stale call re-opens the view and sets the old map again, in the
    same batch as the reset's own updates.
- Line 45 mutates the current `Map` in place before copying it (and line 25 does
  the same). The model updates the map as a value, so it does not capture that the
  previous state's map object is changed too.
- Fetching an image for each title on screen: src/App.js contains no such call,
  and the code that would do it is not part of this model.
- Invalid choices: `handleChoice` does not reject a title outside the pair. It
  would take `currentPair[0]` as the loser. The buttons only ever pass a member of
  the pair (line 68), so `RecordChoice` and `Choose` require the chosen title to
  be in the pair. The model does not treat an invalid choice as a no-op.
- `Choose` and `RecordChoice` also require the view to be closed, because the
  open modal covers the pair's buttons.
- `Advance` and `Settle` require the view to be closed. In the model `Reset`
  closes the view before `Settle`, so `Advance` never runs with it open. The
  program differs on that path: the reset button sits in the open modal
  (line 100), `resetChoices` reassigns the pool (line 49), and the effect then runs
  `generateRandomPair` while the stale call at line 55 has set the view open again
  (see the line-55 bullet above). That run with the view open is not modelled.
- Two behaviours of src/App.js that a reader might not expect; the model keeps both:
  - A lone leftover is ranked only when no title survived the stage (lines 22-26).
    Otherwise line 30 overwrites the pool with the survivors and the leftover is
    lost without a rank, as `PromoteDropsLeftover` shows.
  - The champion also gets a rank, one above the last title eliminated (lines
    24-26, reached through the second effect run), so it heads the ranking view.
- RankingView.Ranking: the stability of the sort (entries of equal rank keep their
  map order) is not stated. In every reachable state the ranks are all different
  (`Bracket.MapRanks`), so the view is fully determined without it.
- Numbers are unbounded integers. Ranks never exceed the entrant count, so
  JavaScript's number range is never reached.
