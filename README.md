# Advent of Code 2023, days 4, 7 and 22, in Dafny

This project models three puzzle solutions and proves properties about them.

- **Sand slabs** (`aoc/2023/22.py`). Bricks are axis-aligned segments between two integer points.
  - Settling: the bricks are sorted by their lowest z. Each one jumps to just above the highest settled brick, then drops one level at a time until it reaches the floor or rests on an earlier brick.
  - Part 1 counts the bricks that are not the only support of any other brick.
  - Part 2 builds the supporter→supported graph. For each removed brick it runs a fresh in-degree cascade and adds up how many bricks fall.
- **Camel cards** (`aoc/2023/07.py`).
  - Cards get values through one of two card maps.
  - A hand's type comes from the sorted counts of its card values.
  - In the joker variant the type is the best over every replacement of the `J` cards.
  - Hands are ordered by (type, card values), and each pays rank × bid.
- **Scratchcards** (`aoc/2023/04.py`).
  - A card's matches are the numbers it shares with the winning numbers.
  - A card scores nothing without a match, and 2^(n−1) with n matches.
  - Every copy of a card wins one copy of each of the next n cards. The copies accumulate in an array that is updated in place.

Modules:

| module | file | models |
|---|---|---|
| `Opt` | `option.dfy` | the Option type used for every error path |
| `Sorting` | `sorting.dfy` | a stable insertion sort by a key order, standing in for Python's `sorted` |
| `Sums` | `sums.dfy` | the sum of a list: `sum(n_won_cards)` of day 4, and the count total of day 7 |
| `Bricks` | `bricks.dfy` | `Position`, `Brick`, `move_down`, `intersects`, `z_max`/`z_min`, `from_str`, `get_intersection` |
| `Settling` | `settling.dfy` | `get_settled_bricks`, as a method with the settling invariant |
| `Resettling` | `resettle.dfy` | settling an already settled pile: it comes back unchanged, in sorted order |
| `Support` | `support.dfy` | the supporters of a brick, and the `part1` loop over `support_bricks` |
| `ChainReaction` | `chain.dfy` | the `part2` graph, the in-degree count, the cascade with its work-list, and the sum over trials |
| `SandSlabs` | `sand_slabs.dfy` | `part1` and `part2` of day 22, from the parsed bricks |
| `CamelCards` | `camel_cards.dfy` | all of day 7 |
| `Scratchcards` | `scratchcards.dfy` | `solve_input` of day 4 |

How the model represents the source:

- **Errors become `None`.**
  - Day 7: an unknown card (the `ValueError` of `int(card)`), or a hand whose counts are not a key of `counts_to_type_map` (the `KeyError`), gives `None`.
  - Day 4: a card that wins copies past the end of the pile (the `IndexError` at line 15) gives `None`.
- **Bricks are identified by their index in the settled sequence.** The source uses brick values as set elements and dictionary keys. For drawn bricks (axis-aligned lines with sorted endpoints) no two settled bricks are equal, so the source's sets of values are the images of the model's sets of indices, with the same sizes (`SettledDistinct`, `SupportersByValue`, `AtIndicesSize`).
- **Part 2's cascade is proved against a declarative specification.** `FallSet(g, r)` is the set of bricks that belong to every set closed under "all of my supporters are removed or falling". The cascade's count equals its size.
- **Settled bricks are specified by the invariant `Stable`:**
  - both z-coordinates are at least 1;
  - no brick intersects an earlier one;
  - each brick is on the floor, or its one-lower copy meets an earlier brick.

  Each settled brick is its sorted input brick moved along z only. `Stable` alone allows more than one pile, so each brick is also pinned by `Settles`: it is lifted or lowered to one above the top of the bricks before it, lowered through clear levels only, and stopped at the first level where it would hit the floor or a brick. `SettledUnique` proves that this determines the whole pile from the sorted input. Settling is idempotent up to order: `SettleIdempotent` proves that settling a stable pile of drawn bricks again gives the same bricks, sorted by z_min.
- **`sorted` is modelled by a stable insertion sort.** `Ties(s, x, le)` is the subsequence of the elements that tie with `x`. `SortByStable` proves that the sort keeps every such subsequence, and `StableSortUnique` that a sorted sequence with the given subsequences is unique. So the ranking of hands, ties included, is determined.

## Model

| member | source | states |
|---|---|---|
| Bricks.FromEndpoints | aoc/2023/22.py:55 | the brick's endpoints are the two given points, ordered so that start ≤ end lexicographically on (x, y, z) |
| Bricks.LineIsNormalized | aoc/2023/22.py:55 | for an axis-aligned segment, the lexicographic order puts start ≤ end on every axis |
| Bricks.ZMax | aoc/2023/22.py:45-47 | z_max is at least both z-coordinates and equal to one of them |
| Bricks.ZMin | aoc/2023/22.py:49-51 | z_min is at most both z-coordinates and equal to one of them |
| Bricks.MoveDown | aoc/2023/22.py:21-29 | None exactly when start.z ≤ n or end.z ≤ n; otherwise x and y are unchanged, both z drop by n, and the new z_min is at least 1, so z_max − z_min is kept |
| Bricks.Intersects | aoc/2023/22.py:31-43 | the test of `intersects`, one axis at a time; its partners are `DrawnIntersectsIffOverlap` (for drawn bricks it is overlap of the two boxes) and `IntersectsSymmetric` |
| Bricks.DrawnIntersectsIffOverlap | aoc/2023/22.py:31-43 | two drawn bricks intersect exactly when their boxes overlap on all three axes |
| Bricks.CommonFlatAxis | aoc/2023/22.py:31-43 | two drawn bricks are both constant on some common axis, so the loop over the three axes always has an axis to test |
| Bricks.IntersectsSymmetric | aoc/2023/22.py:31-43 | `a.intersects(b)` equals `b.intersects(a)` |
| Bricks.SelfIntersects | aoc/2023/22.py:31-43 | a normalized brick that is constant on some axis intersects itself |
| Bricks.LineSelfIntersects | aoc/2023/22.py:31-43 | every brick parsed from an axis-aligned segment intersects itself, which is why the brick is sliced out before the support test |
| Bricks.DrawnSelfIntersects | aoc/2023/22.py:31-43 | a brick that is an axis-aligned line with sorted endpoints intersects itself |
| Bricks.IntersectsShareLevel | aoc/2023/22.py:31-43 | intersecting bricks have overlapping z ranges |
| Bricks.AboveDoesNotIntersect | aoc/2023/22.py:31-43 | a brick entirely above another intersects it in neither direction |
| Bricks.Intersection | aoc/2023/22.py:58-61 | the result holds exactly the positions of the listed bricks that the brick intersects, and the bricks at those positions are exactly the set of listed bricks that the brick intersects, the value set the source builds |
| Bricks.IntersectionByValue | aoc/2023/22.py:58-61 | any set of positions that picks out the intersecting bricks names, by value, the set comprehension of `get_intersection` |
| Settling.ZMinLeTotal | aoc/2023/22.py:67 | ordering by z_min is a total preorder |
| Settling.SortByZMin | aoc/2023/22.py:67 | the sorted bricks are a permutation of the input, in ascending z_min, and bricks with equal z_min keep their input order |
| Settling.Top | aoc/2023/22.py:70-73 | the result is the largest z_max of the settled bricks, or 1 when there are none |
| Settling.JumpLands | aoc/2023/22.py:68-76 | the jump never gives None, and afterwards z_min is the top plus one, even when that moves the brick up |
| Settling.StableAppend | aoc/2023/22.py:77-81 | appending a brick that is above the floor, overlaps nothing and rests keeps the settled list stable |
| Settling.MoveDownTwice | aoc/2023/22.py:21-29 | moving down by m and then by n is moving down by m + n |
| Settling.ClearStart | aoc/2023/22.py:76-77 | a brick above the floor that meets no settled brick starts a run of clear levels |
| Settling.DroppedToRests | aoc/2023/22.py:77-81 | a dropped brick stays in its column, does not rise, stays above the floor, meets no settled brick, and rests on the floor or on a settled brick |
| Settling.DropStopsFirst | aoc/2023/22.py:77-80 | no run of clear levels reaches past the level where the drop stopped |
| Settling.DropUnique | aoc/2023/22.py:77-80 | a drop has exactly one possible outcome |
| Settling.SettledStep | aoc/2023/22.py:67-81 | two piles that agree on their first n bricks and settle brick n from the same input brick agree on n + 1 bricks |
| Settling.SettledUnique | aoc/2023/22.py:64-82 | two piles built round by round from the same sorted input are equal, so the settled pile is determined |
| Settling.ZMinSortStable | aoc/2023/22.py:67 | the z_min sort keeps bricks with equal z_min in input order |
| Settling.SettleOne | aoc/2023/22.py:68-81 | one round of the loop: the brick stays in its column, settles as the round prescribes, and appending it keeps the pile stable |
| Settling.SettledAppend | aoc/2023/22.py:81 | appending the brick settled in round k extends a pile built round by round |
| Settling.DropOnto | aoc/2023/22.py:77-80 | the result is the brick lowered through clear levels only, to the first level where one step lower is below the floor or meets a settled brick (`DroppedTo`); it stays in its column, above the floor and clear of the settled bricks |
| Settling.SettleBricks | aoc/2023/22.py:64-82 | one settled brick per input brick; brick k is the k-th z-sorted input brick, jumped to one above the top of the bricks before it and then dropped as the inner loop drops it (`Settles`); the result is stable |
| Support.Supporters | aoc/2023/22.py:89-93 | the supporters are positions of other bricks, and only a brick above the floor has any |
| Support.SoleSupportersStep | aoc/2023/22.py:94-95 | after brick k the set of sole supporters gains brick k's supporter when brick k has exactly one, and nothing else |
| Support.CriticalExactlyWhenSoleSupported | aoc/2023/22.py:88-95 | some brick is critical exactly when some brick has exactly one supporter |
| Support.CountDisintegrable | aoc/2023/22.py:85-96 | the count is the number of bricks minus the critical ones, it lies between 0 and the number of bricks, and it is below that number exactly when some brick has a single supporter |
| Support.SupporterIsBelow | aoc/2023/22.py:89-93 | in a stable pile of normalized bricks, each supporter lies entirely below the brick it supports |
| Support.SettledDistinct | aoc/2023/22.py:88-93 | in a stable pile of drawn bricks no two bricks are equal values |
| Support.AtIndicesSize | aoc/2023/22.py:87-96 | when no brick occurs twice, a set of positions and the set of bricks at those positions have the same size |
| Support.SupportingBricks | aoc/2023/22.py:91-93 | the value set `get_intersection(down_brick, settled_bricks[:index] + settled_bricks[index + 1:])`, empty for a brick on the floor; `SupportersByValue` proves it is the set of bricks at the supporter positions |
| Support.SupportersByValue | aoc/2023/22.py:89-93 | when no brick occurs twice, the source's set of supporting brick values is the set of bricks at the supporter positions |
| Resettling.SettleIdempotent | aoc/2023/22.py:64-82 | settling a stable pile of drawn bricks again gives the same bricks sorted by z_min, so a reordering of the pile: every brick stays where it is |
| Resettling.SettlesInPlace | aoc/2023/22.py:67-81 | in z_min order, each brick of a stable pile jumps to one above the bricks before it and drops back exactly to where it was |
| Resettling.SupportInStack | aoc/2023/22.py:77-81 | in a stable pile of drawn bricks, a brick above the floor rests on an earlier brick whose top is one level below its bottom |
| Resettling.LowerMeets | aoc/2023/22.py:31-43 | when the one-lower copy of a drawn brick meets another drawn brick and the brick itself does not, the other brick ends one level below it |
| Resettling.LiftedMisses | aoc/2023/22.py:31-43 | a drawn brick that misses a drawn brick starting no higher also misses it from any height above |
| Resettling.LiftedClear | aoc/2023/22.py:76-80 | no copy of a brick of a stable pile, lifted by any height, meets a brick before it in z_min order |
| Resettling.TopBelow | aoc/2023/22.py:70-74 | in z_min order, the highest of the bricks before a brick of a stable pile is at least one level below its bottom |
| Resettling.DistinctPermutation | aoc/2023/22.py:67 | reordering a sequence of bricks with no brick twice gives one with no brick twice |
| SandSlabs.SettledDrawn | aoc/2023/22.py:21-29 | moving bricks along z keeps them axis-aligned lines with sorted endpoints |
| SandSlabs.Part1 | aoc/2023/22.py:85-96 | settles the bricks as the settling loop does; no two settled bricks are equal, each brick's supporters by value are the bricks at its supporter indices, and the count is the number of bricks minus the number of sole supporters, by index and by value; it equals the number of bricks exactly when no brick has a single supporter |
| SandSlabs.Part2 | aoc/2023/22.py:99-128 | settles the bricks as the settling loop does, all distinct; the result is the sum over all bricks of the size of their fall set, and it is at least the number of critical bricks |
| ChainReaction.NoDependentsNoFalls | aoc/2023/22.py:111-126 | a brick that supports nothing makes nothing fall, so leaving it out of `list(graph)` changes no sum |
| ChainReaction.DependentsUpToSpec | aoc/2023/22.py:102-108 | brick j's list holds exactly the bricks it supports, in increasing position and without repeats |
| ChainReaction.GraphOfSpec | aoc/2023/22.py:101-108 | the lists are valid positions, and j precedes k in the graph exactly when j supports k |
| ChainReaction.SupportGraphSpec | aoc/2023/22.py:99-108 | in the built graph, the predecessors of each brick are exactly its supporters |
| ChainReaction.SupportGraphLayered | aoc/2023/22.py:99-108 | every edge of the graph of a stable pile climbs strictly in z_min, so the graph has no cycle |
| ChainReaction.BuildGraph | aoc/2023/22.py:101-108 | the loop's graph is the support graph |
| ChainReaction.PredsBelowStep | aoc/2023/22.py:113-115 | visiting one more adjacency list raises a brick's count by one exactly when the brick is in that list |
| ChainReaction.InDegrees | aoc/2023/22.py:112-115 | the fresh count of every brick is its number of supporters |
| ChainReaction.Decrement | aoc/2023/22.py:122 | lowers one count by one and changes nothing else |
| ChainReaction.PopStep | aoc/2023/22.py:119-120 | popping the work-list starts the release of a brick that was pushed and not yet popped |
| ChainReaction.ReleaseKeeps | aoc/2023/22.py:122-123 | releasing a brick whose count stays above zero keeps the cascade invariant |
| ChainReaction.ReleaseFalls | aoc/2023/22.py:122-125 | a brick whose count reaches zero was not yet marked; marking and pushing it keeps the cascade invariant |
| ChainReaction.AddFallen | aoc/2023/22.py:123-125 | a brick whose last supporter has just been released is forced to fall, lies above the removed brick, and has count zero |
| ChainReaction.FinishNode | aoc/2023/22.py:121-125 | after all of a brick's dependents are released, the counts are those with that brick popped |
| ChainReaction.Conclude | aoc/2023/22.py:119 | when the work-list runs empty, the marked bricks are exactly the fall set, which is smaller than the whole pile |
| ChainReaction.ReleaseDependents | aoc/2023/22.py:121-125 | the inner loop keeps the cascade invariant through every dependent of the popped brick, with one increment of `n_falls` per marked brick |
| ChainReaction.CountFalls | aoc/2023/22.py:112-125 | one trial, starting from fresh counts, returns the size of the fall set of the removed brick |
| ChainReaction.SumOfFalls | aoc/2023/22.py:110-128 | the sum of the trials is the sum of the fall-set sizes over all bricks |
| ChainReaction.CriticalIffSomethingFalls | aoc/2023/22.py:88-96 | a brick is some brick's sole supporter exactly when removing it makes something fall |
| ChainReaction.FallsAtLeast | aoc/2023/22.py:110-128 | if every brick of a set makes at least one brick fall, the sum over the first m trials is at least the number of those bricks below m |
| ChainReaction.PartsAgree | aoc/2023/22.py:99-128 | part 2's total is at least the number of bricks that part 1 counts as not removable |
| Sorting.SortBy | aoc/2023/07.py:57 | the sorted sequence is a permutation of the input (ordering in `SortBySorted`, stability in `SortByStable`) |
| Sorting.SortBySorted | aoc/2023/07.py:57 | under a total preorder the result is sorted and a permutation of the input |
| Sorting.SortedIntsUnique | aoc/2023/07.py:37 | two ascending integer sequences with the same elements are equal, so the sorted count tuple depends only on the counts |
| Sorting.InsertTies | aoc/2023/07.py:57 | inserting an element adds it at the front of its own tie class and changes no other tie class |
| Sorting.SortByStable | aoc/2023/07.py:57 | the sort keeps the elements of every tie class in input order |
| Sorting.InTies | aoc/2023/07.py:57 | an element is in the tie class of x exactly when it is in the sequence and ties with x |
| Sorting.StableSortUnique | aoc/2023/07.py:57 | two sorted sequences with the same tie classes are equal, so a stable sort has one outcome |
| CamelCards.CardValue | aoc/2023/07.py:33 | a card has a value exactly when it is a key of the card map or a digit |
| CamelCards.CardMap1Ranks | aoc/2023/07.py:4-18 | under `card_map1`, the cards of `all_cards` are worth 2 to 14 in their listed order |
| CamelCards.CardMap2Ranks | aoc/2023/07.py:11-17 | under `card_map2`, J is worth 1, and every other card of `all_cards` is worth more than 1 |
| CamelCards.HandValues | aoc/2023/07.py:32-33 | defined exactly when every card has a value, as long as the hand, and holding each card's value in place |
| CamelCards.Distinct | aoc/2023/07.py:37 | the `Counter` keys: the same values as the hand, each once |
| CamelCards.CountsToType | aoc/2023/07.py:21-29 | the type, when defined, is between 0 and 6 |
| CamelCards.PartitionsOfFive | aoc/2023/07.py:21-29 | the seven keys of `counts_to_type_map` are exactly the ascending partitions of 5 |
| CamelCards.HandType | aoc/2023/07.py:36-37 | defined exactly for five values, with a type between 0 and 6 |
| CamelCards.CountsSum | aoc/2023/07.py:37 | the counts of a hand add up to its length |
| CamelCards.Profile | aoc/2023/07.py:37 | `tuple(sorted(Counter(values).values()))`; `ProfileIsPartition` proves it is an ascending partition of the hand's length, `HandTypePermutation` that it ignores the order of the values |
| CamelCards.ProfileIsPartition | aoc/2023/07.py:37 | the sorted counts are an ascending partition of the hand's length |
| CamelCards.CountsOfPermutation | aoc/2023/07.py:37 | counting the same values in another order gives the same counts, reordered |
| CamelCards.HandTypePermutation | aoc/2023/07.py:36-37 | reordering the values does not change the type |
| CamelCards.LexLeTotal | aoc/2023/07.py:42 | any two value tuples are comparable |
| CamelCards.LexLeTransitive | aoc/2023/07.py:42 | tuple comparison is transitive |
| CamelCards.LexLeAntisymmetric | aoc/2023/07.py:42 | equal-length tuples that compare both ways are equal |
| CamelCards.KeyLeTotalPreorder | aoc/2023/07.py:57 | ordering keys by (type, values) is a total preorder, so `sorted` ranks every hand |
| CamelCards.HandKey1 | aoc/2023/07.py:40-42 | defined exactly for five cards that all have values under `card_map1`, with a type between 0 and 6 |
| CamelCards.HandKey1Injective | aoc/2023/07.py:40-42 | two hands of standard cards with equivalent keys are the same hand |
| CamelCards.CardMap1Injective | aoc/2023/07.py:4-18 | different cards of `all_cards` have different values under `card_map1` |
| CamelCards.Combine | aoc/2023/07.py:48-50 | the product holds exactly one card from the choices followed by one of the rests |
| CamelCards.Substitutions | aoc/2023/07.py:48-50 | the `product` of the per-card choices; `SubstitutionsSpec` proves it lists exactly the hands that replace each J by a card of `all_cards` |
| CamelCards.SubstitutionsSpec | aoc/2023/07.py:48-50 | the product holds exactly the hands that replace each J by a card of `all_cards` and keep every other card |
| CamelCards.MaxOpt | aoc/2023/07.py:46-51 | the maximum is defined exactly when the list is nonempty and every entry is defined, it bounds every entry, and some entry attains it |
| CamelCards.JokerType | aoc/2023/07.py:47 | the type of a replacement hand under `card_map2`; `SubstitutionValid` proves it is defined exactly when the original hand is valid |
| CamelCards.SubstitutionValid | aoc/2023/07.py:47-49 | a replacement hand has a type exactly when the original hand is valid under `card_map2` |
| CamelCards.HandKey2 | aoc/2023/07.py:45-52 | the joker key: `HandKey2Defined` gives when it is defined, `HandKey2Best` that its type is the best over all replacement hands, `JokerNeverLowers` that it is never below the plain type |
| CamelCards.HandKey2Defined | aoc/2023/07.py:45-52 | the joker key is defined exactly for five cards that all have values under `card_map2` |
| CamelCards.HandKey2Best | aoc/2023/07.py:45-52 | the joker type bounds the type of every replacement hand and is attained by one, and the tiebreak is the original hand's values with J worth 1 |
| CamelCards.JokerNeverLowers | aoc/2023/07.py:45-52 | the joker type is at least the hand's own type, because J is among the replacements |
| CamelCards.NoJokerSameType | aoc/2023/07.py:45-52 | a hand without J keeps its own type |
| CamelCards.KeyAll | aoc/2023/07.py:57 | defined exactly when every hand has a key, with each hand's key and bid kept in place |
| CamelCards.Winnings | aoc/2023/07.py:58 | rank × bid summed over a ranking; `WinningsBySuffixes` gives it as a sum of suffix bid sums, `WinningsOfRanking` that every stable ranking pays the same |
| CamelCards.WinningsBySuffixes | aoc/2023/07.py:58 | rank × bid summed equals the sum, over every rank, of the bids at that rank or above |
| CamelCards.TotalWinnings | aoc/2023/07.py:57-58 | defined exactly when every hand has a key; the value is the sum of rank × bid over a ranking that is a permutation of the keyed hands, sorted by key, with tied hands in input order, and every such ranking gives that value |
| CamelCards.RankedInOrder | aoc/2023/07.py:57 | the ranking holds every hand once, weaker keys come first, and hands with equal keys keep their input order |
| CamelCards.RankingUnique | aoc/2023/07.py:57 | there is only one stable ranking of the keyed hands |
| CamelCards.WinningsOfRanking | aoc/2023/07.py:57-58 | every stable ranking pays what the sorted ranking pays |
| CamelCards.Part1 | aoc/2023/07.py:55-58 | defined exactly when every hand is five cards with values under `card_map1`; the value is rank × bid summed over the stable ranking by `hand_key1`, the same for every such ranking |
| CamelCards.Part2 | aoc/2023/07.py:61-64 | defined exactly when every hand is five cards with values under `card_map2`; the value is rank × bid summed over the stable ranking by `hand_key2`, the same for every such ranking |
| Scratchcards.Matches | aoc/2023/04.py:11-12 | the match count is at most the size of either set |
| Scratchcards.NoMatches | aoc/2023/04.py:12 | a card has no match exactly when none of its numbers is a winning number |
| Scratchcards.Points | aoc/2023/04.py:13 | the score of a card; `PointsDouble` proves one match scores 1, each further match doubles it, and only no match scores 0 |
| Scratchcards.PointsDouble | aoc/2023/04.py:13 | one match scores 1, each further match doubles the score, and only a card without matches scores 0 |
| Scratchcards.Copies | aoc/2023/04.py:8 | every card is held at least once |
| Scratchcards.InflowSettled | aoc/2023/04.py:14-15 | cards at or after t win no copies of card t |
| Scratchcards.CopiesDependOnEarlier | aoc/2023/04.py:14-15 | a card's copies depend only on the matches of the cards before it |
| Scratchcards.AtLeastOneOfEach | aoc/2023/04.py:8 | the total of copies is at least the number of cards |
| Scratchcards.Raised | aoc/2023/04.py:14-15 | the array after the inner loop, of the same length; `WinCopies` is proved to produce it in place and `ProgressStep` that it completes card i |
| Scratchcards.WinCopies | aoc/2023/04.py:14-15 | fails exactly when the run of won cards passes the end; the entries after i, up to `n_matches` of them, rise by the copies of card i, and nothing else changes |
| Scratchcards.CopiesReady | aoc/2023/04.py:9-15 | when card i comes up, its entry already holds its final count |
| Scratchcards.ProgressStep | aoc/2023/04.py:14-15 | processing card i completes card i and keeps every later entry's partial count |
| Scratchcards.SumIsTotalCopies | aoc/2023/04.py:17 | once every entry holds its final count, the sum of the entries is the total of copies |
| Scratchcards.AllCopiesCounted | aoc/2023/04.py:17 | after the last card, `sum(n_won_cards)` is the total of copies and at least the number of cards |
| Scratchcards.SolveInput | aoc/2023/04.py:5-17 | fails exactly when some card wins copies past the end of the pile; otherwise the points are the sum of the card scores, and the cards are the total of copies, which is at least the number of cards |

## Left out

- `aoc/2023/06.py`: its answer is computed with floating-point `math.sqrt`, `floor` and `ceil`.
- Parsing is not modelled: `splitlines`, `split` and `int()`. The model takes parsed integer triples, hand strings with integer bids, and sets of number tokens.
- CamelCards.CardValue accepts exactly the ASCII digits `0`–`9` where the source calls `int(card)`. Python also accepts other Unicode digits.
- The `Problem` base class and its `solve` entry point are not part of this model. The two answers that `solve_input` stores in `self.part1` and `self.part2` are returned as an `Answers` value.
- SandSlabs.Part1 requires every input brick to be drawn: an axis-aligned line with start ≤ end on every axis. `from_str` gives this for every axis-aligned segment (`LineIsNormalized`). A brick meets itself when it is normalized and constant on some axis (`SelfIntersects`). Other bricks may meet nothing, not even themselves: two copies of `0,5,1~1,0,1` can settle side by side. The source's sets of values would then merge the two copies, while the index model counts them apart. The model does not cover such input.
- SandSlabs.Part2 requires drawn bricks for the same reason. The proof that the cascade terminates also needs the normalized bricks' support graph to be acyclic.
- ChainReaction.SumOfFalls visits the bricks in increasing position, not in the key order of `list(graph)`. The sum does not depend on the order, and bricks that support nothing add 0 (`NoDependentsNoFalls`).
- CamelCards.HandKey2 takes the maximum over the replacement hands in the enumeration order of `itertools.product`. Only the maximum matters, and no ordering property of the enumeration is stated.
- Sorting.SortBy states only that it permutes its input. It takes no ordering requirement, so being sorted (`SortBySorted`) and stability (`SortByStable`) are lemmas under a total preorder.
