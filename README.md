# Daily garden puzzle: generator and validator

A model of the logic of `game.js`, a one-page daily puzzle on a 6 x 6 garden.
A seeded generator (`mulberry32`) drives the level generator. The level
generator places six carrots: one per row, one per column, no two touching,
carrot i with colour i. It then grows six colour regions, giving each cell
the colour of its nearest carrot under a small random jitter. The player
digs holes. `checkWin` accepts a board whose holes can all hide carrots:
six holes in distinct rows, columns and regions, no two touching. Every
failed check costs ten seconds.

The project has five modules:

- `Mulberry`: the generator. `Rng` is a class whose field `a` holds the
  32 bits of the captured state. `Next` advances the state and returns the
  scrambled value divided by 2^32, as an exact real in [0, 1).
- `Grid`: cell indices, rows and columns, and touching.
- `Level`: carrots, what a successful placement satisfies, and the
  nearest-carrot rule as a function (`RegionMapSpec`). Also the random-comparator
  sort, an in-place sort on an array driven by the generator.
- `Rules`: the verdict of `checkWin` as a function (`Judge`), its
  declarative counterpart (`Solved`), and `Validate`, the loop that computes
  it on the arrays.
- `Game`: the module-level state (`boardSolution`, `regionMap`,
  `playerBoard`, `penaltySeconds`, `isGameActive`) as the fields of a class
  `Game`. Its methods are `generateLevel`, `generateRegions`, `initGame`,
  `startGame`, `handleInput`, `checkWin`, `showPenalty` and `doWin`.
  The module also proves that a generated solution is judged a win.

The seeded pieces tie every method to the stream of `mulberry32(seed)`:

- the `drawn` ghost field of `Rng` records the states reached;
- `Draws(seed, n)` is what those states must be.

As a result, the contracts state that the 216 jitters behind a generated
region map are 216 consecutive values of that seed's stream. In the body
they are the values that follow the placement draws.

## Model

| member | source | states |
|---|---|---|
| Mulberry.StateAfter | game.js:20 | definition: the captured state after n calls is the seed plus n times 0x6D2B79F5, modulo 2^32 |
| Mulberry.Mix | game.js:21-23 | definition: the xor-shift and `Math.imul` scramble of the advanced state, on 32 bits, read as unsigned |
| Mulberry.Value | game.js:21-23 | the number a call returns when the state has become s, in [0, 1) |
| Mulberry.Draws | game.js:19-24 | the states reached by the first n calls of a stream, one per call, in order |
| Mulberry.Rng.constructor | game.js:19 | the closure starts at the seed, with no calls made |
| Mulberry.Rng.Next | game.js:20-24 | the state advances by 0x6D2B79F5 modulo 2^32, the call is recorded, and the returned value is the scrambled state over 2^32, in [0, 1) |
| Mulberry.Rng.Advance | game.js:20 | `a += 0x6D2B79F5`: the state grows by the increment modulo 2^32 and the new state is recorded |
| Mulberry.Unit | game.js:23 | an unsigned 32-bit integer divided by 2^32 lies in [0, 1) |
| Mulberry.DrawsAt | game.js:19-20 | the i-th call of a stream reaches a state fixed by the seed and i alone |
| Mulberry.DrawsPrefix | game.js:19-24 | a shorter run of a stream is a prefix of any longer run |
| Mulberry.SameSeedSameDraws | game.js:19-24 | two generators made from the same seed reach the same state on every call both have made |
| Grid.Abs | game.js:54 | definition: `Math.abs` on integers |
| Grid.Index | game.js:62 | definition: the cell index `r*6 + c` |
| Grid.Row | game.js:173 | definition: `Math.floor(h / 6)` |
| Grid.Col | game.js:174 | definition: `h % 6` |
| Grid.Touch | game.js:54 | definition: at most one apart in both directions, the same position included |
| Grid.Adjacent | game.js:193 | definition: two cell indices whose positions touch |
| Grid.IndexCoordinates | game.js:173-174 | `r*6+c` of an in-range position is a cell index, and the floor division and remainder by 6 recover r and c |
| Grid.ApartIsFar | game.js:54 | positions that do not touch are at Manhattan distance two or more |
| Level.RandomSort | game.js:42-43 | sorting with the comparator `rng() - 0.5` rearranges the list (same multiset) and only makes further calls of the generator |
| Level.SwapAdjacent | game.js:42-43 | one exchange of the sort swaps two neighbours and keeps the multiset |
| Level.ShuffledRange | game.js:39-43 | the shuffled `[0,1,2,3,4,5]` is a permutation of 0..5: six values in range, no two equal |
| Level.PermutationOfRange | game.js:39-43 | a list with the multiset of 0..5 has six in-range, pairwise distinct entries |
| Level.SingleCountsDistinct | game.js:39-43 | a list in which no value occurs twice has pairwise distinct entries |
| Level.CellOf | game.js:62 | definition: the cell `r*6 + c` a carrot stands on |
| Level.Distance | game.js:80-81 | definition: the Manhattan distance from a carrot to the cell plus 0.4 times the value drawn |
| Level.Closest | game.js:77-86 | definition: `minDst` and `closestRegion` after the `forEach` has seen a prefix of the carrots |
| Level.CellRegion | game.js:76-87 | definition: the colour the `forEach` keeps for a cell under that cell's six values |
| Level.RegionMapSpec | game.js:72-90 | the region map of 216 values has 36 cells, each the colour kept for it |
| Level.ClosestStep | game.js:79-85 | one more carrot in the `forEach` either improves the best distance strictly, taking that carrot's colour, or leaves the best unchanged |
| Level.FirstMinimum | game.js:79-85 | the reference choice: the first carrot in placement order whose jittered distance is a minimum (strictly below all earlier ones, at most all later ones) |
| Level.ClosestIsFirstMinimum | game.js:77-86 | the `forEach`, starting from `minDst = 100`, keeps exactly the first carrot with the minimum jittered distance |
| Level.RegionIsFirstNearest | game.js:73-87 | each of the 36 cells of a generated region map gets the colour of its first nearest carrot, a value in 0..5 |
| Level.DistanceBelowHundred | game.js:77-81 | on the board, every jittered distance is below the initial `minDst` of 100 |
| Level.CarrotKeepsColour | game.js:79-84 | each carrot's own cell gets that carrot's colour, since jitter stays below 0.4 and other carrots are at distance two or more |
| Level.ValuesOf | game.js:81 | one value in [0, 1) per recorded call |
| Level.ValuesOfAppend | game.js:81 | one more call adds its value at the end |
| Level.SameSeedSameValues | game.js:19-24 | two generators made from the same seed return the same value on every call both have made |
| Level.ValuesOfSlice | game.js:81 | the values of a run of calls are the matching slice of the values |
| Rules.RegionAt | game.js:175 | definition: `regionMap[h]`, undefined outside the map |
| Rules.Holes | game.js:155-158 | definition: the indices of the dug cells, in the order the `forEach` visits them |
| Rules.RowsOf | game.js:167 | definition: the Set `rows` once the first j holes have passed, their rows |
| Rules.ColsOf | game.js:168 | definition: the Set `cols` once the first j holes have passed, their columns |
| Rules.RegionsOf | game.js:169 | definition: the Set `regions` once the first j holes have passed, their regions, undefined included |
| Rules.GrowSets | game.js:182-184 | the three `add` calls: after hole j each Set is the one before it plus hole j's row, column or region |
| Rules.HoleFault | game.js:178-196 | definition: the first check a hole fails, in the order row, column, region, touching |
| Rules.Scan | game.js:172-201 | definition: the verdict of the loop over holes from hole j on |
| Rules.Judge | game.js:160-201 | definition: the count check, then the loop over holes |
| Rules.HolesAreMarks | game.js:155-158 | the collected holes are exactly the dug cells, each once, ascending |
| Rules.ScanWinIff | game.js:172-201 | the per-hole loop reaches `doWin` iff no hole fails a check, and never reports a wrong count |
| Rules.FaultFreeIffCompatible | game.js:172-198 | passing the interleaved per-hole checks is the same as the holes being pairwise in distinct rows, columns and regions and not touching |
| Rules.JudgeWinIffSolved | game.js:151-202 | `checkWin` reaches `doWin` iff there are six holes that are pairwise compatible |
| Rules.JudgeWrongCountIff | game.js:160-164 | the count failure is reported iff the number of holes is not six |
| Rules.TouchingReportedFirst | game.js:172-196 | if the first two holes touch, touching is reported before any uniqueness check of a later hole |
| Rules.RowConflictReportedFirst | game.js:172-196 | if the first hole touches nothing and the second shares its row, a row conflict is reported |
| Rules.Validate | game.js:151-202 | the verdict computed on the arrays is `Judge` of the board and the region map |
| Rules.CollectHoles | game.js:154-158 | the `forEach` collects the indices of the holes in ascending order |
| Rules.ScanHoles | game.js:167-201 | the loop over holes, with growing row, column and region sets, computes the per-hole scan |
| Rules.TouchesOther | game.js:186-196 | the inner loop finds a touch iff some other hole is adjacent |
| Game.SeedOf | game.js:100 | definition: the sum of the character codes of the date text |
| Game.DaySeed | game.js:100 | definition: the low 32 bits of the day's seed, which is all `mulberry32` reads |
| Game.SeedOfPermutation | game.js:99-100 | the day's seed depends only on which characters the date has: rearranged dates share a seed, and so the stream the level is drawn from |
| Game.SeedOfAppend | game.js:100 | the character-code sum of two texts joined is the sum of their sums |
| Game.CellsDistinct | game.js:48-62 | the six carrots of a successful placement stand on six different cells |
| Game.HolesAreCells | game.js:36-62 | the holes of a generated solution board are exactly the carrot cells |
| Game.SolutionHasSixHoles | game.js:36-62 | a generated `boardSolution` has exactly six true entries, at the carrots' `r*6+c` |
| Game.CarrotsCompatible | game.js:48-61 | two generated carrots differ in row, column and region and do not touch |
| Game.GeneratedSolutionWins | game.js:151-202 | dug out exactly, a generated solution is judged a win |
| Game.PlacementWellPlaced | game.js:48-61 | six untouching carrots placed from two permutations form a successful placement |
| Game.UpcomingDrawn | game.js:19-24 | once the generator has made the calls up to j, the values of calls i to j are the expected stream values i to j |
| Game.DueValues | game.js:79-81 | the six calls for a cell return the six stream values due for that cell |
| Game.DueRegion | game.js:76-87 | the colour the `forEach` picks for a cell is that cell's entry of the region map of the stream's values |
| Game.RegionsDone | game.js:73-89 | with every cell coloured, the map is the region map of the 216 values drawn |
| Game.Game.constructor | game.js:3-9 | the initial state followed by `initGame()`: a fresh empty player board, no penalty, an inactive game; on success the 216 jitters are consecutive values of the stream of the day's seed, and otherwise the region map is still empty |
| Game.Game.InitGame | game.js:93-103 | a fresh empty player board, no penalty, an inactive game; on success the 216 jitters are the values of the stream of the day's seed from call `start` on, and otherwise the region map is unchanged |
| Game.Game.GenerateLevel | game.js:28-70 | at most 1000 attempts; on success the solution board, the carrots and the region map satisfy the class invariant, and the jitters are 216 consecutive values of the seed's stream; after 1000 failures the region map is untouched |
| Game.Game.PlaceLevel | game.js:30-64 | between 1 and 1000 attempts, all 1000 when none succeeded; a success yields a well-placed level whose board holds exactly its carrots |
| Game.Game.Attempt | game.js:35-63 | one attempt on a fresh board: the shuffled rows and columns are permutations of 0..5, carrot k goes to (rows[k], cols[k]) with colour k, no two placed carrots touch, the attempt fails exactly when a carrot touches an earlier one, and a success is well placed |
| Game.Tried | game.js:38-63 | definition: what one attempt did with its shuffled lists, including that it fails only at a carrot touching an earlier one |
| Game.Game.PlaceCarrots | game.js:48-63 | carrot i goes to `(rows[i], cols[i])` with colour i; the attempt fails exactly when a carrot touches an earlier one; the board marks exactly the placed carrots |
| Game.Game.TouchesPlaced | game.js:53-58 | the scan of placed carrots finds a touch iff some placed carrot touches the position |
| Game.Game.GenerateRegions | game.js:72-90 | exactly 216 calls, and a fresh 36-cell map equal to the region map of their values in row-major and then carrot order |
| Game.Game.FillCell | game.js:76-87 | one cell gets the colour due for it, and no other cell changes |
| Game.Game.ClosestCarrot | game.js:77-86 | one call per carrot, in placement order, and the colour of the `forEach` recurrence under the values returned |
| Game.Game.StartGame | game.js:123-126 | the game becomes active |
| Game.Game.HandleInput | game.js:138-141 | an inactive game ignores the click; an active one flips that cell and no other |
| Game.HandleInputTwice | game.js:138-141 | two clicks on the same cell leave the board as it was |
| Game.LoadStartClick | game.js:123-141 | after loading, starting and one click, the game is active, without penalty, with exactly that cell dug |
| Game.Game.ShowPenalty | game.js:205-206 | ten seconds more on the clock |
| Game.Game.DoWin | game.js:227-228 | the game ends |
| Game.Game.CheckWin | game.js:151-202 | an inactive game does nothing; otherwise the verdict is `Judge`; a win ends the game with no penalty, any other verdict adds 10 s; a dug-out generated solution wins |

## Left out

- Rendering, overlays, button animations and text restores are not modelled. This covers `renderBoard`, the `classList` and `innerHTML` edits, and the `setTimeout` of `showPenalty`. They are presentation only.
- The wall-clock timer is not modelled: `setInterval`, `Date.now`, `clearInterval` and the `mm:ss` text. It depends on the clock.
- `new Date()` is not modelled because it is the environment. `initGame` takes the date text as a parameter, and its seed is the character-code sum over that text.
- `shareScore` is not modelled. It only calls the clipboard and `alert`.
- Game.SeedOf sums Dafny characters, which are Unicode scalar values; `charCodeAt` reads UTF-16 code units. The two differ only outside the Basic Multilingual Plane, and a `toISOString` date is ASCII.
- Game.Game.PlaceLevel: its contract cannot say which attempts failed, since any permutation is a valid shuffle and so no output tells the attempts apart. Stopping at the first success is the loop guard `!success` in the body.
- Game.Game.GenerateLevel: the contract says the jitters are some 216 consecutive values of the seed's stream, not at which call they start; the start is the number of calls the placement made, which depends on the engine's sort.
- IEEE doubles are not modelled. `rng()` is the exact real k / 2^32, and the jittered distances are exact reals.
- The JavaScript Number `a` of `mulberry32` is kept as its low 32 bits. Every operator that reads it sees only those bits, and the Number stays exact: its value stays below 2^53 for any number of calls far below the about 4.9 million (2^53 / 0x6D2B79F5) it would take to reach it; one level makes at most a few tens of thousands.
- Level.RandomSort: the order the engine's sort produces under an inconsistent comparator is engine-defined. The model sorts by insertion, one call per comparison. It states only that the result is a permutation and that the calls extend the generator's history. The exact permutation and the number of draws are not claimed.
- Game.Game.GenerateLevel: after 1000 failed attempts the content of the last, partial board is not stated, only its size. Game.Game.PlaceCarrots does state the content for one attempt.
- Game.Game.GenerateLevel reorders some writes to the state; the final state is the same as the script's, with no reads in between:
  - `boardSolution` and `regionMap` are written once, after the attempts loop, instead of inside it;
  - `generateRegions` is called after the loop rather than as the last step of the successful attempt.
- Game.Game.GenerateRegions: it demands exactly six carrots. Its only caller passes six.
- `generateLevel` makes at most 1000 attempts and never reseeds. When all of them fail it leaves the last attempt's partial `boardSolution` and the previous `regionMap`. The board size and the carrot count are fixed at 6.
