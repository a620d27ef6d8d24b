# Bar-cutting optimiser: a verified model

The optimiser cuts requested pieces (a length and a quantity each) from
stock bars. A saw blade of width `kerf` is lost after every piece. The
model covers two parts.

- **The stock packer** (`OttimizzatoreTaglio.ottimizza`). Pieces are grouped
  by length and taken longest first. Lengths within 10% of a cluster's anchor
  (its longest length) are shuffled together. Each piece then goes onto a
  randomly chosen bar in use that still has room for it. If no bar in use
  has room, the shortest long-enough bar is taken from a finite pool. The
  packer fails with one of two errors when the pool is empty or holds only
  shorter bars.
- **The catalog scenario generator** (`genera_tutti_scenari` and its
  helpers). Bars can be bought in any number, in the catalog's lengths. Four
  strategies plan the pieces, longest first:
  - greedy: tightest open bar; a new bar tries at most three lengths with a
    ten-piece first-fit pass;
  - preference for one length (run once per catalog length);
  - fewest bars: longest bars first;
  - long offcuts: prefer offcuts over 500 mm or under 100 mm.

  Each plan becomes a scenario: bars per catalog length, total waste,
  offcuts longest first, bar count and optional cost. A scenario is kept only
  if its bar counts are new. The list is then sorted by total waste.

Modules, one per file, in dependency order:

| file | module | covers |
|---|---|---|
| wrappers.dfy | Wrappers | `Option`, `Result` |
| seqs.dfy | Seqs | sums, sorts, minimum/maximum, `list.remove` |
| cutting.dfy | Cutting | expanding `(quantity, length)` demand; the kerf footprint of a bar |
| packer.dfy | Packer | `ottimizza` (lines 30-145) |
| plans.dfy | Plans | the plans the four strategies build; the first-fit pass that fills a new bar |
| scenario.dfy | Scenarios | `_crea_scenario`, `_scenario_duplicato` |
| choices.dfy | Choices | each strategy's choice of open bar and of new bar |
| strategies.dfy | Strategies | the four `_calcola_scenario_*` loops |
| generator.dfy | Generator | `genera_tutti_scenari` |

Representation:
- Lengths and the kerf are integers, in millimetres.
- Costs are reals.
- A bar dictionary becomes a datatype value.
  - A list of bars being filled is a `seq` updated at an index.
- Python's `random` module becomes an explicit stream of draws, `draws: seq<nat>`.
  - `_randbelow(n)` reads `draws[pos] % n`.
  - `random.shuffle` is CPython's Fisher-Yates swap loop over an `array`.
  - `random.choice(s)` is `s[_randbelow(len(s))]`.

Each strategy is described by one function, `Strategies.Run`. The method
that runs the strategy's loop imperatively is proved equal to it, and the
properties are proved about `Run`. The same pattern is used for the
first-fit pass, the open-bar scans and the generator.

A bar's `remaining` can end at `-kerf`. This happens when a piece fills the
bar's remaining space exactly: the code checks `piece <= remaining` and then
subtracts `piece + kerf`. The model follows the code, so waste is not
claimed to be non-negative; it is proved to be at least `-kerf`. The greedy
open-bar scan stops early at slack exactly 0, although a later bar could
leave less slack (down to `-kerf`). `Choices.TightestIsFirstTightest` states
this behaviour precisely.

## Model

| member | source | states |
|---|---|---|
| Cutting.ExpandCount | ottimizzatore_taglio.py:42-44 | the expanded piece list holds each length exactly as many times as the demand requests it in total |
| Cutting.ExpandDemand | ottimizzatore_taglio.py:824-826 | the expansion loop builds the list `Expand` describes |
| Cutting.FootprintIs | ottimizzatore_taglio.py:1140 | the room a bar's pieces take is their sum plus one kerf per piece (the long-offcuts strategy's remaining-space formula) |
| Packer.Below | ottimizzatore_taglio.py:94 | a draw for `random.choice` over n items is an index below n |
| Packer.Shuffle | ottimizzatore_taglio.py:69 | the shuffle permutes the cluster in place (same multiset) and consumes one draw per element after the first |
| Packer.GroupByLength | ottimizzatore_taglio.py:48-52 | the groups have exactly the requested lengths as keys, each holding that length as many times as it is requested; the key list is duplicate-free and lists exactly the keys |
| Packer.DistinctLengths | ottimizzatore_taglio.py:46-56 | the distinct lengths strictly decrease and are exactly the requested lengths; each has its group of as many copies as are requested, at least one |
| Packer.ClusterExtent | ottimizzatore_taglio.py:61-66 | the cluster starting at anchor i extends over exactly the following lengths at least 9/10 of the anchor, and stops at the first shorter one |
| Packer.EmitCluster | ottimizzatore_taglio.py:70-71 | emitting a shuffled cluster appends every piece of each of its lengths and nothing else, all pieces of one length together |
| Packer.NextCluster | ottimizzatore_taglio.py:60-73 | one outer step emits exactly the pieces of lengths i..j-1, every one within 10% of the anchor |
| Packer.OrderStep | ottimizzatore_taglio.py:59-73 | one cluster step keeps the order a concatenation of clusters in strictly decreasing anchor order |
| Packer.ProcessingOrder | ottimizzatore_taglio.py:46-73 | the processing order is a permutation of the pieces, cut into consecutive clusters; each cluster holds exactly the lengths between its anchor and 9/10 of it, and the anchors strictly decrease, more than 10% apart; all pieces of one length stand together |
| Packer.Fitting | ottimizzatore_taglio.py:88-89 | the candidates are exactly the bars in use whose remaining space is at least the piece |
| Packer.AddCut | ottimizzatore_taglio.py:95-97 | cutting a piece appends it, keeps the length and keeps the remaining space equal to length minus footprint |
| Packer.NewBar | ottimizzatore_taglio.py:130-136 | a new bar has one cut, no waste yet, and a remaining space equal to length minus footprint |
| Packer.CutAddsPiece | ottimizzatore_taglio.py:94-97 | putting a piece on a bar in use adds exactly that piece to the cuts and changes no bar's length |
| Packer.OpenKeeps | ottimizzatore_taglio.py:125-137 | taking a bar from the pool moves one length from the pool to the bars in use and adds exactly the piece |
| Packer.PlacePiece | ottimizzatore_taglio.py:83-137 | the piece fails exactly when it fits no bar in use and no pool bar; the error is "stock exhausted" iff the pool is empty, else it names the pool's longest bar. Otherwise a fitting bar in use takes it, or, when none fits, the shortest long-enough pool bar is opened; cuts gain the piece, and bars in use plus pool are conserved |
| Packer.PlaceAll | ottimizzatore_taglio.py:83-137 | after all pieces, every placed piece is on a bar and the bars taken come from the pool; an error is raised only at a piece that fits neither a bar in use nor a pool bar, once every earlier piece is placed, and it is StockExhausted exactly when the pool is empty |
| Packer.Finalize | ottimizzatore_taglio.py:142-143 | every bar's waste becomes its remaining space, nothing else changes |
| Packer.Optimize | ottimizzatore_taglio.py:30-145 | on success the cuts are exactly the requested pieces, every bar is balanced, non-empty and has waste equal to its remaining space (at least `-kerf`), and no stock length is used more often than it is stocked; an error comes only from a requested piece that, in the processing order, fits neither a bar in use nor a stock bar left, with all earlier pieces placed; "no bar long enough" names the longest stock bar left, and the stock runs out only when it holds fewer bars than pieces are requested |
| Plans.Taken | ottimizzatore_taglio.py:926-935 | the first-fit pass picks positions of the piece list |
| Plans.TakenPositions | ottimizzatore_taglio.py:926-935 | the pass picks unused positions other than the first piece, in increasing order, and at most the limit |
| Plans.TakenRoom | ottimizzatore_taglio.py:930-935 | the pass never drives the room below `-kerf` |
| Plans.TakenMaximal | ottimizzatore_taglio.py:926-935 | without the ten-piece limit, every unused piece the pass skipped is longer than the room left at the end (the pass is first-fit and maximal) |
| Plans.FirstUnused | ottimizzatore_taglio.py:879 | the first unused position: unused, and every earlier one is used |
| Plans.FirstUnusedIndex | ottimizzatore_taglio.py:879 | the scan returns the first unused position |
| Plans.FillBar | ottimizzatore_taglio.py:994-1000 | the pass loop returns the positions the pass picks and the room it leaves |
| Plans.Put | ottimizzatore_taglio.py:896-898 | putting the piece on open bar k appends it to bar k, lowers its remaining space by piece plus kerf and changes no other bar |
| Plans.PutKeeps | ottimizzatore_taglio.py:896-899 | placing the first unused piece on a fitting open bar keeps the plan sound, and it cuts exactly the pieces marked used |
| Plans.OpenKeeps | ottimizzatore_taglio.py:1002-1008 | buying a bar filled by the pass keeps the plan sound, and it cuts exactly the pieces marked used |
| Plans.OpenedSound | ottimizzatore_taglio.py:1002-1006 | a bought bar is a catalog length, carries pieces, balances and keeps at least `-kerf` |
| Plans.CutSource | ottimizzatore_taglio.py:1147-1170 | every piece the plan cuts lies on one of its bars |
| Plans.SoundFits | ottimizzatore_taglio.py:896-898 | on a sound bar, every piece is at most the bar's length (pieces plus kerf non-negative) |
| Scenarios.DemandOf | ottimizzatore_taglio.py:1150-1152 | the bar counts have exactly the catalog lengths as keys |
| Scenarios.CreateScenario | ottimizzatore_taglio.py:1147-1170 | the scenario built is the one `ScenarioOf` describes |
| Scenarios.CostIsBarPrices | ottimizzatore_taglio.py:1159-1161 | the cost over the bar counts equals the sum of each bar's price (0 for an unpriced length) |
| Scenarios.DemandCountsEveryBar | ottimizzatore_taglio.py:1150-1152 | the bar counts add up to the number of bars |
| Scenarios.ScenarioTotals | ottimizzatore_taglio.py:1147-1170 | offcuts are the bars' remaining spaces sorted longest first; their number is the bar count; they sum to the total waste; the bar counts total the bar count; a cost is present iff some price is given, and it is the sum of bar prices |
| Scenarios.IsDuplicate | ottimizzatore_taglio.py:863-868 | true iff some listed scenario has the same bar counts |
| Choices.TightestIsFirstTightest | ottimizzatore_taglio.py:884-893 | the greedy scan picks no bar iff none fits; otherwise a fitting bar strictly tighter than every fitting bar before it, which is the tightest overall unless its slack is exactly 0 |
| Choices.TightestOpenBar | ottimizzatore_taglio.py:884-893 | the scan with its early exit returns the choice `Tightest` describes |
| Choices.FirstLeast | ottimizzatore_taglio.py:976-977 | the first element of a stable ascending sort: none iff no candidate, else a least key, strictly less than every earlier candidate's |
| Choices.OpenChoice | ottimizzatore_taglio.py:965-977 | an open bar is chosen iff one has room for the piece, and the chosen one has room |
| Choices.PreferenceOpenChoice | ottimizzatore_taglio.py:971-977 | a fitting bar of the preferred length wins if there is one; within the winner's kind, the least slack, first on ties |
| Choices.MinBarsOpenChoice | ottimizzatore_taglio.py:1027-1031 | the chosen bar is a longest fitting one; among fitting bars of that length, the least remaining space, first on ties |
| Choices.LongOffcutsOpenChoice | ottimizzatore_taglio.py:1085-1095 | the chosen bar has the best tier of slack after the cut (over 500, under 100, between), first on ties |
| Choices.GreedyNewChoice | ottimizzatore_taglio.py:903-949 | greedy's new bar is one of the three shortest compatible lengths whose capped pass leaves the least room, the first such on ties |
| Choices.PreferenceNewChoice | ottimizzatore_taglio.py:983-992 | the preferred length is bought when the piece fits it, otherwise the shortest catalog length that fits |
| Choices.PreferenceNewNone | ottimizzatore_taglio.py:985-987 | the preference strategy gives up iff no catalog length fits the piece |
| Choices.MinBarsNewChoice | ottimizzatore_taglio.py:1037-1044 | the fewest-bars strategy gives up iff no catalog length fits; otherwise it buys the longest catalog length |
| Choices.LongOffcutsNewChoice | ottimizzatore_taglio.py:1101-1135 | the long-offcuts strategy buys a length whose pass gives the highest score (offcut length when over 500, minus it otherwise); no shorter fitting length scores as high |
| Choices.NewChoiceNone | ottimizzatore_taglio.py:905-907 | every strategy finds no new bar iff no catalog length fits the piece |
| Choices.NewChoiceSome | ottimizzatore_taglio.py:903-949 | a new bar is a fitting catalog length filled by the strategy's pass (capped at ten extra pieces for greedy only), with the room that pass leaves |
| Choices.RoomByFootprint | ottimizzatore_taglio.py:1140 | the room the pass leaves equals length minus the pieces' sum minus one kerf per piece, as the long-offcuts strategy recomputes it |
| Strategies.RunSound | ottimizzatore_taglio.py:877-949 | a strategy's loop either ends with a plan that cuts exactly the pieces on sound catalog bars, or gets stuck on a piece longer than every catalog length |
| Strategies.EvaluateSound | ottimizzatore_taglio.py:870-1145 | a scenario's bars cut exactly the pieces on sound catalog bars; a failure names a piece longer than every catalog length |
| Strategies.FailsExactlyWhenTooLong | ottimizzatore_taglio.py:905-907 | when every piece plus kerf is non-negative, a strategy fails iff some piece is longer than every catalog length |
| Strategies.RunStrategy | ottimizzatore_taglio.py:877-949 | the imperative loop ends with the outcome `Run` describes |
| Strategies.LeastSpaceTrial | ottimizzatore_taglio.py:917-941 | the trial loop keeps the first length whose capped pass leaves the least room, with that pass and room |
| Strategies.TrialBar | ottimizzatore_taglio.py:918-935 | a trial bar of a length holds exactly the positions `Pass` takes after the first piece, with `Space` left |
| Strategies.GreedyNewBar | ottimizzatore_taglio.py:903-945 | greedy's new-bar computation returns `GreedyOpening` |
| Strategies.HighestScoreTrial | ottimizzatore_taglio.py:1112-1135 | the trial loop keeps the first length of highest score, with its pass |
| Strategies.LongOffcutsNewBar | ottimizzatore_taglio.py:1101-1141 | the long-offcuts new-bar computation returns `LongOffcutsOpening` |
| Strategies.PreferenceNewBar | ottimizzatore_taglio.py:986-1004 | the preference strategy's new-bar computation returns `PreferenceOpening` |
| Strategies.MinBarsNewBar | ottimizzatore_taglio.py:1037-1058 | the min-bars strategy's new-bar computation returns `MinBarsOpening` |
| Strategies.ChooseOpen | ottimizzatore_taglio.py:965-977 | the open-bar selection returns `OpenChoice` |
| Strategies.ChooseNew | ottimizzatore_taglio.py:983-1006 | the new-bar selection returns `NewChoice` |
| Strategies.GreedyScenario | ottimizzatore_taglio.py:870-951 | returns the greedy scenario, or the error naming the piece no catalog length fits |
| Strategies.PreferenceScenario | ottimizzatore_taglio.py:953-1010 | returns the preference scenario, or `None` where the loop gives up |
| Strategies.MinBarsScenario | ottimizzatore_taglio.py:1012-1064 | returns the fewest-bars scenario, or `None` |
| Strategies.LongOffcutsScenario | ottimizzatore_taglio.py:1066-1145 | returns the long-offcuts scenario, or `None` |
| Strategies.RunSame | ottimizzatore_taglio.py:1012-1064 | from a plan whose bars all have the longest catalog length, the fewest-bars loop and the loop preferring the longest length produce the same outcome |
| Strategies.MinBarsIsPreferenceForLongest | ottimizzatore_taglio.py:1012-1064 | the fewest-bars scenario equals the scenario preferring the longest catalog length |
| Generator.AddIfNew | ottimizzatore_taglio.py:843-844 | a candidate is appended iff it exists and its bar counts are new |
| Generator.AddCandidate | ottimizzatore_taglio.py:849-850 | the duplicate check and append give `AddIfNew` |
| Generator.AddPreferenceScenarios | ottimizzatore_taglio.py:840-844 | the preference loop over the lengths produces `WithPreferences` |
| Generator.SortByWaste | ottimizzatore_taglio.py:859 | the scenarios are permuted into ascending total waste |
| Generator.GenerateScenarios | ottimizzatore_taglio.py:803-861 | the generator returns `Generate` |
| Generator.PreferenceCovered | ottimizzatore_taglio.py:840-844 | every preference scenario that exists is in the list, or one with its bar counts is |
| Generator.MinBarsNeverNew | ottimizzatore_taglio.py:846-850 | the fewest-bars candidate never adds a scenario |
| Generator.KeptShape | ottimizzatore_taglio.py:836-856 | the list starts with the greedy scenario and has between 1 and 2 + catalog size entries |
| Generator.KeptDistinct | ottimizzatore_taglio.py:836-856 | no two listed scenarios have the same bar counts |
| Generator.CollectFacts | ottimizzatore_taglio.py:830-861 | the generator fails iff greedy fails, naming a piece longer than every catalog length; otherwise the list holds the greedy scenario, is sorted by waste, has distinct bar counts, has 1 to 2 + catalog size entries, and every entry is some strategy's scenario |
| Generator.CollectComplete | ottimizzatore_taglio.py:830-861 | every listed scenario's bars cut exactly the pieces on sound catalog bars, and its totals are those of its bars |
| Generator.CollectFails | ottimizzatore_taglio.py:905-907 | with pieces plus kerf non-negative, the generator fails iff some piece is longer than every catalog length |
| Generator.GenerateComplete | ottimizzatore_taglio.py:803-861 | every scenario cuts each length exactly as often as the demand requests it, on sound catalog bars |

## Left out

- The GUI, Excel import and export, PDF reports and icons are not modelled. Neither is the efficiency display, nor the GUI's `ottimizza` and `_seleziona_scenario`: they format or choose among results.
- Python's `random` generator itself is not modelled. Its draws are a parameter, so every shuffle and choice the packer can make is covered.
- Packer.ClusterExtent: the float test `length >= anchor * 0.9` is modelled as the exact `10 * length >= 9 * anchor`. For integer millimetre lengths the two agree, because rounding `anchor * 0.9` never crosses an integer. Lengths of 2^53 or more, where floats no longer hold every integer, are not modelled.
- Bar dictionaries are modelled as values in a sequence. The source mutates dictionaries that nothing else aliases, so aliasing is not captured.
- The constructor's sort of the stock list is not modelled. The pool is only read through `min`, `max` and `remove` by value, so its order does not change the result.
- Strategies.PreferenceScenario requires the preferred length to be in the catalog. With any other length the source would raise `KeyError` in `_crea_scenario`, and its only caller passes catalog lengths.
- Strategies.FailsExactlyWhenTooLong and Generator.CollectFails assume every piece plus kerf is non-negative. With a negative kerf larger than a piece, a bar's remaining space can exceed its length, and a too-long piece can still fit.
- Generator.SortByWaste: the sort is implemented as a stable insertion sort, but stability (equal-waste scenarios keeping their order) is not stated.
- `costi_barre=None` and `{}` are both an empty map: the source treats them alike, giving no cost.
