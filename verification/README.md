# Firewall placement puzzle engine, in Dafny

`script.js` is a browser puzzle in which the player protects a network by
placing firewalls on an n-by-n grid. No two firewalls may share a row, a column
or a diagonal (the N-queens rule). The grid is split into n coloured regions,
and the game is won when every region holds exactly one firewall. Buttons
start a new game, reset the board, ask for a hint, change the size, or let a
backtracking solver fill the board.

This project models the engine inside that class and proves what it does:

- `cells.dfy` (`Cells`): the `Cell` pair, `Option`, `Abs`, and "every firewall
  lies on the board".
- `placement.dfy` (`Placement`): the placement rule `canPlaceFirewall`, the
  "no two firewalls attack each other" invariant, the filter used by
  `removeFirewall`, and the set of cells shown as protected.
- `regions.dfy` (`Regions`): the 4, 6 and 8 templates and the
  `(row + col) % n` fallback of `generateRegions`.
- `coverage.dfy` (`Coverage`): the counts per region, the properly covered
  regions, the rounded percentage, the score, the status line and the win
  condition.
- `hints.dfy` (`Hints`): the search of `showHint` as specification functions.
- `solver.dfy` (`Solver`):
  - a reference depth-first search `Search`/`TryFrom`;
  - the proof that this search finds the lexicographically first solution, or
    none when there is no solution;
  - the imperative `solveNQueens` (a `Solver` class with its boolean board and
    its `result` stack), proved equal to `Search`.
- `known_solutions.dfy` (`KnownSolutions`): the solver's output on the 4, 6 and
  8 boards.
- `outcomes.dfy` (`Outcomes`): what that output scores on each template board.
- `engine.dfy` (`Engine`): the game object as a `Game` class. It holds the
  `firewalls` list, the 0/1 `board` grid, the `regions` grid, the completion
  flag, the score and the status line. Each state-changing method of the
  source is a method whose contract states the new state.
- `scenarios.dfy` (`Scenarios`): concrete sessions on the 4-board and on the
  default 8-board.

The class invariant `Game.Valid` says six things:

- the size n is at least 1;
- both grids are n by n;
- the two grids are distinct arrays;
- every firewall on the list lies on the board;
- `regions[r, c]` is the region `generateRegions` assigns;
- `board[r, c]` is 1 exactly when `(r, c)` is on the `firewalls` list.

"No two firewalls attack each other" is stated separately, as `NonAttacking`.
`placeFirewall` itself does not check it. Every path that places a firewall
keeps it: a click, and auto-solve. A legal board never holds more than n
firewalls, because no two of them share a row.

Two behaviours of the code are kept as they are:

- a click on a cell that holds a firewall removes it (script.js:151-152); such
  a click is never refused;
- `showHint` gives no suggestion when the lowest empty region has no placeable
  cell, even if a higher region is empty (script.js:406-427).

## Model

| member | source | states |
|---|---|---|
| Placement.CanPlace | script.js:169-182 | the cell is accepted exactly when no firewall on the list shares its row, its column or a diagonal (equal absolute row and column distances); always accepted on an empty list |
| Placement.PlaceKeepsNonAttacking | script.js:155-156 | appending a cell that `canPlaceFirewall` accepts keeps every pair of firewalls non-attacking, and the cell was not already on the list |
| Placement.NonAttackingHasNoDuplicates | script.js:169-182 | a list built under the placement rule never holds the same cell twice |
| Placement.NonAttackingAtMostN | script.js:169-182 | a list built under the placement rule on an n-board holds at most n firewalls |
| Placement.Without | script.js:190 | the filter of `removeFirewall` drops every copy of the cell and keeps every other entry with its multiplicity |
| Placement.WithoutAppend | script.js:190 | the filter distributes over concatenation, so the kept entries stay in their original order |
| Placement.WithoutAbsent | script.js:190 | removing a cell that holds no firewall leaves the list unchanged |
| Placement.WithoutIdempotent | script.js:190 | removing twice gives the same list as removing once |
| Placement.WithoutMembers | script.js:190 | after the filter a cell is listed exactly when it was listed before and is not the removed cell; every firewall stays on the board |
| Placement.WithoutKeepsNonAttacking | script.js:189-192 | removing a firewall keeps the list non-attacking and on the board |
| Placement.Covers | script.js:234-271 | one firewall protects exactly the other board cells that share its row, its column or a diagonal, that is, the cells it attacks |
| Placement.IsProtected | script.js:234-271 | a protected cell lies on the board, holds no firewall, and is refused by `canPlaceFirewall` |
| Placement.ProtectedIffRejected | script.js:231-284 | an empty cell is shown as protected (on the row, column or a diagonal ray of some firewall) exactly when `canPlaceFirewall` refuses it; the vulnerable cells are exactly the accepted ones |
| Regions.RegionOf | script.js:29-41 | every cell of an n-board gets a region id in [0, n) |
| Regions.EveryRegionUsed | script.js:43-100 | every id in [0, n) is used by some cell, for the three templates and for the fallback |
| Regions.FallbackIsLatin | script.js:94-100 | with `(row + col) % n`, each id appears exactly once in every row and exactly once in every column |
| Coverage.RegionCounts | script.js:337-341 | the `regionCoverage` array has one entry per region of the n-board |
| Coverage.CountIn | script.js:338-341 | the count of a region never exceeds the number of firewalls, and is 0 for an id outside [0, n) |
| Coverage.CoverageSumsToTotal | script.js:338-341 | the region counts add up to the number of firewalls |
| Coverage.RegionCountsAppend | script.js:338-341 | one more firewall raises the count of its own region by one and leaves the other counts alone |
| Coverage.ProperlyCovered | script.js:343 | the number of regions with count exactly 1 is at most n, and equals n exactly when every count is 1 |
| Coverage.Won | script.js:376-379 | a won board has n firewalls and exactly one in every region, so all n regions are properly covered |
| Coverage.WonIffAllProperlyCovered | script.js:376-379 | when every region holds exactly one firewall there are n firewalls; the game is won exactly when all n regions are properly covered |
| Coverage.Percent | script.js:344 | the coverage percentage is the integer nearest to 100p/n, with halves rounded up |
| Coverage.PercentBounds | script.js:344 | the percentage lies in [0, 100]; it is 0 with no region covered and 100 with all covered |
| Coverage.Score | script.js:348 | `Math.max(0, …)`: the score is never negative, never below 10 × coverage + 5 × properly covered − 2 × firewalls, and is either 0 or exactly that value |
| Coverage.BoardScore | script.js:343-348 | the score of a board of size n lies in [0, 1000 + 5n] |
| Coverage.BoardScoreRange | script.js:348 | the score is never negative and at most 1000 + 5n; a won board scores exactly 1000 + 3n |
| Coverage.EmptyBoardScore | script.js:343-348 | an empty board scores 0 and is not won |
| Hints.LowestUncovered | script.js:406 | `findIndex`: -1 exactly when no region has count 0; otherwise a region with count 0 such that every lower region has a nonzero count |
| Hints.IsHint | script.js:409-411 | a hint lies on the board in the empty region, is accepted by `canPlaceFirewall`, and no earlier row holds a placeable cell of that region |
| Hints.HintIsUnique | script.js:409-411 | the first placeable cell of a region in row-major order is a single cell |
| Hints.FollowingHint | script.js:406-411 | placing the suggested cell keeps the board non-attacking, gives the empty region exactly one firewall, and adds one to the properly covered regions |
| Solver.Search | script.js:473-489 | `solve(row)` as a function: any result it returns has n columns and begins with the rows already placed |
| Solver.TryFrom | script.js:476-488 | the column loop of `solve(row)`: any result it returns has n columns and begins with the rows already placed |
| Solver.FoundAtColumn | script.js:476-481 | when the recursive call for a safe column succeeds, no solution that keeps the rows placed and continues with that column or a later one precedes what it found |
| Solver.TryFromCorrect | script.js:475-488 | the column loop of `solve(row)` from column c finds a solution exactly when one extends the rows placed with a column of at least c, and it finds the lexicographically first |
| Solver.SearchCorrect | script.js:473-489 | `solve(row)` finds a solution exactly when one extends the rows placed, and it finds the lexicographically first |
| Solver.SolutionIsNonAttacking | script.js:457-471 | a solution puts row i in a column of the board, its columns are pairwise distinct and no two of its cells share a diagonal |
| Solver.NonAttackingIsSolution | script.js:457-471 | n firewalls, one per row, on the board and none attacking another under the placement rule, form a solution the search accepts |
| Solver.SolutionIffNonAttacking | script.js:457-471 | a solution is exactly a non-attacking placement of one firewall per row on the board |
| Solver.SearchFromEmpty | script.js:491 | the search from row 0 succeeds exactly when the n-board has a solution, and then returns a solution no solution precedes in lexicographic order |
| Solver.SmallSizes | script.js:453-492 | size 1 gives the single firewall at (0, 0); sizes 2 and 3 have no solution |
| Solver.Solver.constructor | script.js:454-455 | the `result` stack is empty and the boolean board is all false |
| Solver.Solver.IsValid | script.js:457-471 | the three upward scans accept a column exactly when no row above uses it or either of its diagonals |
| Solver.Solver.Push | script.js:478-479 | marks the cell and pushes it; the stack and the board stay in step |
| Solver.Solver.Pop | script.js:483-484 | unmarks the cell and pops it, undoing `Push` |
| Solver.Solver.SolveRow | script.js:473-489 | `solve(row)` succeeds exactly when the reference search does; on success the stack holds that search's solution; on failure the stack is as it was |
| Solver.SolveNQueens | script.js:453-492 | null exactly when there is no solution, that is, exactly when no n firewalls, one per row, fit on the board without attacking each other; otherwise n cells, row i on row i, non-attacking, on the board, and the lexicographically first solution |
| KnownSolutions.FirstSolutionOfFour | script.js:453-492 | on the 4-board the solver returns columns 1, 3, 0, 2 |
| KnownSolutions.FirstSolutionOfSix | script.js:453-492 | on the 6-board the solver returns columns 1, 3, 5, 0, 2, 4 |
| KnownSolutions.FirstSolutionOfEight | script.js:453-492 | on the 8-board the solver returns columns 0, 4, 7, 5, 2, 6, 1, 3 |
| Outcomes.AutoSolveWinsOnFour | script.js:430-451 | the solver's placement wins the 4-board, with score 1012 |
| Outcomes.AutoSolveMissesOnSix | script.js:430-451 | the solver's placement does not win the 6-board: region 4 holds two firewalls |
| Outcomes.AutoSolveMissesOnEight | script.js:430-451 | the solver's placement does not win the 8-board: region 2 holds two firewalls, and the score is 244 |
| Engine.Game.constructor | script.js:2-15 | the game starts on the 8-board with no firewall, not complete, score 0, status Planning |
| Engine.Game.InitializeGame | script.js:17-27 | fresh all-zero board, empty list, not complete, the regions of the size, score 0, status Planning |
| Engine.Game.GenerateRegions | script.js:29-41 | a fresh grid holding the template of sizes 4, 6 and 8, and `(row + col) % n` for any other size |
| Engine.Game.CreateTemplateRegions | script.js:43-92 | the nested loops copy the pattern into the grid cell by cell |
| Engine.Game.CreateCustomBoardRegions | script.js:94-100 | the nested loops fill every cell with `(row + col) % n` |
| Engine.Game.ChangeBoardSize | script.js:508-512 | the new size with a fresh game: empty list, the regions of that size, status Planning |
| Engine.Game.NewGame | script.js:494-497 | a fresh game on the same size; the regions come out exactly as before |
| Engine.Game.PlaceFirewall | script.js:184-187 | appends the cell and marks it 1, and no other cell changes; the board stays non-attacking when the placement rule accepted the cell |
| Engine.Game.RemoveFirewall | script.js:189-192 | the list becomes the filtered list and the cell is 0, and no other cell changes; the list is unchanged when the cell held no firewall |
| Engine.Game.ResetBoard | script.js:499-506 | empty list, fresh all-zero board, not complete, score 0, status Planning; size and regions unchanged |
| Engine.Game.RegionCoverage | script.js:337-341 | the counting loop yields, for every region, the number of firewalls in it |
| Coverage.StatusOf | script.js:352-361 | Secured exactly when complete; Planning exactly when not complete and no firewall is placed; Deploying exactly when not complete and some firewall is placed |
| Engine.Game.UpdateDisplay | script.js:334-362 | the score is the score formula over the counts, in [0, 1000 + 5n], 1000 + 3n on a won board, and 0 on an empty one; the status is Secured if complete, else Deploying if any firewall is placed, else Planning |
| Engine.Game.CheckGameComplete | script.js:368-388 | the flag is set exactly when every region holds one firewall and there are n of them; it is never cleared here |
| Engine.Game.ShowHint | script.js:390-428 | "already secured" exactly when complete; otherwise the suggestion is the first placeable cell, in row-major order, of the lowest empty region; no suggestion when there is no empty region or that region has no placeable cell |
| Engine.Game.ApplyClick | script.js:151-164 | a click on a firewall removes it; a click on an empty cell places a firewall when the rule accepts the cell and is refused otherwise; the board stays non-attacking |
| Engine.Game.HandleCellClick | script.js:146-167 | nothing changes once the game is complete; otherwise the click is applied and the board stays non-attacking, with at most n firewalls; the completion flag then says whether the board is won; the status shown is Deploying or Planning, never Secured, even after the winning click |
| Engine.Game.HandleCellClickCheckingFirst | script.js:165-166 | with the win test before the panel refresh, the status reads Secured exactly when the click completed the game |
| Engine.Game.AutoSolve | script.js:430-451 | after a reset the board holds the solver's first solution, when there is one, and the empty list otherwise; the board is non-attacking; it is complete exactly when that solution wins; the status is never Secured |
| Engine.Game.ReplaySolution | script.js:434-445 | placing the cells in order leaves exactly those firewalls; the win test after the last one completes the game exactly when they win |
| Engine.Game.ReplayStep | script.js:436-439 | one replay step appends the cell and leaves the score of the new board |
| Scenarios.ScoreOfTwoOnFour | script.js:343-348 | firewalls at (0, 0) and (2, 1) of the 4-board cover two regions: coverage 50%, score 506 |
| Scenarios.FourBoardWalkthrough | script.js:146-167 | on the 4-board, (0, 0) is accepted, (1, 1) and (0, 3) are refused, and (2, 1) is accepted, leaving score 506 |
| Scenarios.WinningClickOnFour | script.js:165-166 | the click at (3, 2) after (0, 1), (1, 3) and (2, 0) wins the 4-board with score 1012, yet the status shown is Deploying |
| Scenarios.WinningClickOnFourCheckingFirst | script.js:165-166 | the same clicks with the win test first show Secured |
| Scenarios.AutoSolveOnEight | script.js:430-451 | auto-solve on the default 8-board finds a solution but does not complete the game; the score is 244 |

## Left out

- Presentation is not modelled. This covers:
  - `createBoard`;
  - the class and style changes of `updateBoard`, `markProtectedZones` and `checkRegionCoverage`;
  - `highlightConflicts`, `getCell`, `updateTargetFirewalls`, `showMessage` and `setupEventListeners`;
  - the keyboard shortcuts;
  - the colour palette and the message texts.

  The protected set of `markProtectedZones` is kept, as the predicate `IsProtected`. The branch taken by a click and by a hint is returned as the `Click` and `Hint` values instead of a message.
- Timers are not modelled. `autoSolve` is modelled as a reset followed by the replay run synchronously. The animation timeouts are left out too.
- The staged placements of `autoSolve` (script.js:435-444) are never cancelled, and any interleaving with them is outside the model:
  - a click, a reset, a resize or a second auto-solve made while they are pending still receives the remaining steps;
  - those steps can push a cell that is already listed;
  - after the board shrinks, a step whose cell is off the new board is still pushed. While that entry stays on the list (until a reset, a new game or a resize empties it), every panel refresh throws in `markProtectedZones` (script.js:266-267), before `updateDisplay` runs;
  - a step whose row is off the board also throws in `placeFirewall` at script.js:186, and `showHint` then throws in its count at script.js:402.
- `Math.round` on a floating-point quotient is modelled as exact integer rounding, half up: `(200p + n) / (2n)`. Floating-point error is not modelled.
- `handleCellClick` tests the DOM cell's `firewall` class. The model reads `board[row][col]` instead. `updateBoard` keeps the two in step after every change.
- Engine.Game.ChangeBoardSize: requires a size of at least 1. Size 0 gives a NaN percentage and score in the source, and a negative size throws. The size selector offers no such value.
- Engine.Game.HandleCellClick: requires the row and column to be on the board. Clicks only come from the grid's own cells.
- Engine.Game.PlaceFirewall: requires the cell to be on the board. The source writes `board[row][col]` without a check, and its callers only pass cells of the board.
- `createSmallBoardRegions`, `createMediumBoardRegions` and `createLargeBoardRegions` run the same nested copy loop over three literal patterns. They are modelled as one method, `CreateTemplateRegions`, that takes the pattern as a parameter.
- `solveNQueens` keeps its `result` stack and boolean `board` in closure variables. They are modelled as the fields of a `Solver` object, with the inner `isValid` and `solve` as its methods.
- Engine.Game.AutoSolve: states the final board only. The intermediate boards of the staged replay are stated per step by `ReplayStep`.
- Solver: the exact output is proved for sizes 1, 2, 3, 4, 6 and 8. For other sizes only the general properties are proved: a solution, the lexicographically first one, or none when none exists.

## Findings

| source | as written | input that shows it | evidently intended | confidence | as-written member | corrected member |
|---|---|---|---|---|---|---|
| script.js:165-166 | `handleCellClick` calls `updateDisplay()` before `checkGameComplete()`, and `autoSolve` does the same at script.js:439-442. `initializeGame` and `resetBoard` clear the flag before refreshing. So in synchronous play the "Network Secured!" branch of `updateDisplay` (script.js:352) is never shown. It can appear only when a pending step of the staged auto-solve replay lands after something else has completed the game: a click, or the last step of an overlapping auto-solve. | 4-board, firewalls at (0, 1), (1, 3), (2, 0), then a click at (3, 2): the game is complete but the status reads "Deploying..." | the status line reads "Network Secured!" once the game is complete | not executed; high (each synchronous path that sets the flag refreshes the panel before it) | Scenarios.WinningClickOnFour | Engine.Game.HandleCellClickCheckingFirst |
