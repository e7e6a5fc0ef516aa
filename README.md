# Eclipse puzzle engine in Dafny

This project models the puzzle engine of the `EclipseGame` web component (`js/eclipse-game.js`). It is a sun/moon grid puzzle: the player fills an n x n grid with suns and moons. Every row and column must be free of three equal symbols in a row and must hold as many suns as moons. Clues between neighbouring cells say that two cells hold the same symbol ('=') or different ones ('x').

What the model covers:
- **Puzzle generation.** A backtracking search fills a solution grid. floor(1.5 n) shuffled cells are fixed to their solution values. Clues are read off the solution for right and lower neighbours, skipping pairs whose two cells are both fixed.
- **The click cycle.** A click rotates a non-fixed cell empty -> sun -> moon -> empty. The per-move validation then raises or lowers `invalid` flags around the cell, and the win check runs.
- **Bulk validation** (`validateAll`) and the accessors the component uses.

The modules follow the component's structure:
- `Cells`: the three cell states, rotation, counting and the filled-cell filter.
- `LineRules`: the run and balance rules. It has the two line checkers of the component: one for the player's grid, one for the solution grid.
- `Geometry`: row-major indexing, `getCell`, rows and columns.
- `ClueRules`: clues and the per-cell clue check `validateClues`.
- `BoardRules`: the win test, `isCellInvalid`, the bulk validation, and the flags each highlight routine leaves behind, as functions of the grid, the clues and the previous flags.
- `Generation`: facts used by the generator.
- `Game`: class `EclipseGame`. Its fields are:
  - the player's grid `cells` and the `solution` (arrays of `Cell`),
  - the `fixed` and `invalid` class flags (arrays of `bool`),
  - the `clues` list.

  Each method is proved against the functions above: its `ensures` gives the new flags or grid as a function of the old state.

Two behaviours of the component are reproduced on purpose:
- `validateAll` checks the filled cells of a line as one line of their own. This joins symbols across gaps (`BoardRules.ValidateAllJoinsAcrossGaps`).
- The per-cell test `isInvalidCell` consulted by `checkRules` always answers "valid". So on a full board every `invalid` flag is lowered, even when the board loses (`Game.EclipseGame.CheckRules`, `BoardRules.FullLosingBoardHasInvalidCell`).

A third behaviour is also reproduced: the clue part of `highlightInvalidCells` flags both ends of a failing clue without asking that both are filled (`BoardRules.HighlightFlagsEmptyClueEnd`).

Randomness becomes a free choice. The order in which the search tries the two symbols and whether a clue is kept are written as `:| true`. The Fisher-Yates swap partner is written as `:| 0 <= j <= i`. The properties proved therefore hold for every outcome of the random draws.

## Model

| member | source | states |
|---|---|---|
| Cells.Rotate | js/eclipse-game.js:53-67 | the next state differs from the current one; the next state is empty exactly after a moon and a moon exactly after a sun |
| Cells.RotateCycle | js/eclipse-game.js:57-67 | three clicks return a cell to its state, passing through all three states |
| Cells.Filled | js/eclipse-game.js:145 | the filled cells of a line drop exactly the empties and keep every sun and moon |
| Cells.CountTotal | js/eclipse-game.js:145-150 | suns, moons and empties of a line add up to its length |
| Cells.FilledOfFull | js/eclipse-game.js:564 | filtering a full line gives the line back |
| LineRules.FullLineBalance | js/eclipse-game.js:151-156 | on a full line the balance rule means exactly as many suns as moons |
| LineRules.UserBalance | js/eclipse-game.js:144-156 | the player's balance test decides the balance rule: with empties the imbalance may not exceed them; on a full line the counts are equal |
| LineRules.SolutionBalance | js/eclipse-game.js:316-329 | the solution's balance test decides the same balance rule |
| LineRules.ValidateUserSequence | js/eclipse-game.js:121-157 | the player's line check passes exactly when no three equal symbols are adjacent (an empty cell breaks a run) and the line is balanced |
| LineRules.ValidateSolutionSequence | js/eclipse-game.js:302-314 | the solution's run check passes exactly when no three equal non-null entries are adjacent |
| LineRules.EmptyBreaksRun | js/eclipse-game.js:129-133 | sun, sun, empty, sun keeps the run rule |
| LineRules.EmptyLineOk | js/eclipse-game.js:259 | an all-empty line keeps both rules |
| Geometry.GetCell | js/eclipse-game.js:513-518 | a coordinate yields a cell exactly when it lies on the grid, and that cell's column and row are the coordinates |
| Geometry.GetCellOfCoords | js/eclipse-game.js:44-45 | each index is the cell found at its own coordinates (index % n, index / n) |
| Geometry.Row | js/eclipse-game.js:520-522 | row y has n entries; entry k is the cell at column k, row y |
| Geometry.RowIsRowFilter | js/eclipse-game.js:247-249 | the row equals the filter of the grid by `floor(index / n) == y`: each such cell sits at the position of its column |
| Geometry.ColIsColFilter | js/eclipse-game.js:251-253 | the column equals the filter of the grid by `index % n == x`: each such cell sits at the position of its row |
| Geometry.UpdateOtherRow | js/eclipse-game.js:274 | writing one cell leaves every other row unchanged |
| Geometry.UpdateOtherCol | js/eclipse-game.js:274 | writing one cell leaves every other column unchanged |
| ClueRules.FindClue | js/eclipse-game.js:170-173 | finds nothing exactly when no clue joins the two cells; otherwise the first clue in the list that joins them, in either orientation |
| ClueRules.RelationOf | js/eclipse-game.js:353 | '=' exactly when the two solution values are equal |
| ClueRules.MismatchIff | js/eclipse-game.js:181-182 | a clue fails on two symbols exactly when its relation is not theirs, symmetrically |
| ClueRules.ClueForward | js/eclipse-game.js:333-343 | a clue to a right or lower neighbour goes forward in the grid and ends on it |
| ClueRules.NeighbourOfClue | js/eclipse-game.js:159-168 | the other end of a clue touching a cell is one of that cell's four neighbours |
| ClueRules.UniquePair | js/eclipse-game.js:338-362 | in a generated clue list no two clues join the same pair of cells |
| ClueRules.OrderedAppend | js/eclipse-game.js:357-361 | appending a clue that comes after all others keeps the list ordered |
| ClueRules.ValidateCluesIff | js/eclipse-game.js:159-188 | for a generated clue list the per-cell clue check passes exactly when no clue touching the cell fails on two filled cells |
| BoardRules.IsCellInvalidIff | js/eclipse-game.js:648-668 | a cell is invalid exactly when its row or column breaks a rule or a clue touching it is violated |
| BoardRules.WinIffNoInvalidCell | js/eclipse-game.js:389-431 | with a generated clue list a full grid wins exactly when no cell is invalid |
| BoardRules.FullLosingBoardHasInvalidCell | js/eclipse-game.js:433-443 | with a generated clue list, a full board that does not win has at least one invalid cell |
| BoardRules.HighlightFlagsEmptyClueEnd | js/eclipse-game.js:225-234 | the highlight flags an empty clue end on a concrete board where that cell is not invalid |
| BoardRules.ValidateAllNeedsExactBalance | js/eclipse-game.js:564-566 | a line the bulk validation accepts holds exactly as many suns as moons |
| BoardRules.ValidateAllOnFullGrid | js/eclipse-game.js:555-607 | on a full grid the bulk validation passes exactly when the board wins |
| BoardRules.ValidateAllJoinsAcrossGaps | js/eclipse-game.js:562-573 | sun, sun, empty, sun, empty, empty keeps both rules yet is flagged by the bulk validation |
| BoardRules.HighlightedFlags | js/eclipse-game.js:190-239 | flags outside the zone around the cell are unchanged |
| BoardRules.ClearedFlags | js/eclipse-game.js:609-646 | the clean-up only lowers flags, never raises one |
| BoardRules.HighlightStages | js/eclipse-game.js:194-238 | the reset, row, column and clue stages, run one after the other, leave exactly the highlighted flags |
| BoardRules.ClearStages | js/eclipse-game.js:614-645 | the cell, column, row and neighbour stages of the clean-up, run one after the other, leave exactly the cleared flags |
| BoardRules.RawMarkInZone | js/eclipse-game.js:217-237 | the clue marking only reaches the cell and its neighbours |
| BoardRules.ValidatedCellFlag | js/eclipse-game.js:94-109 | after the per-move validation the clicked cell is flagged exactly when it is invalid |
| BoardRules.ClearingKeepsInvalidFlags | js/eclipse-game.js:103-108 | around a valid cell the validation raises no flag and lowers none on another still invalid cell |
| BoardRules.SomeFlaggedStep | js/eclipse-game.js:562-589 | a row or column error was found among the first m+1 lines exactly when one among the first m was or line m is flagged |
| BoardRules.MarksStart | js/eclipse-game.js:557 | cleared flags are the state before any row pass |
| BoardRules.RowStep | js/eclipse-game.js:562-574 | one row pass keeps the flags equal to the filled cells of the flagged rows so far |
| BoardRules.RowsToCols | js/eclipse-game.js:574-577 | after all rows the flags are the row marks, the state before any column pass |
| BoardRules.ColStep | js/eclipse-game.js:577-589 | one column pass adds the filled cells of that column when it is flagged |
| BoardRules.ColsToClues | js/eclipse-game.js:589-592 | after all columns the flags are the row and column marks, the state before any clue |
| BoardRules.ClueStep | js/eclipse-game.js:592-604 | one clue pass adds both ends of that clue when it is violated, and tracks whether a violated clue was seen |
| Generation.EmptyGridLinesOk | js/eclipse-game.js:259 | the all-null grid the search starts from keeps every line rule |
| Generation.WriteKeepsLines | js/eclipse-game.js:274-276 | writing one cell whose row and column still pass keeps every line valid |
| Generation.SolvedLinesBalanced | js/eclipse-game.js:255-262 | a finished solution has no three in a row and exactly as many suns as moons in every row and column |
| Generation.FixedCount | js/eclipse-game.js:370 | the count is floor(1.5 n) and never exceeds the number of cells |
| Generation.SwapKeepsDistinct | js/eclipse-game.js:376 | a swap keeps the list's members and keeps it free of repetitions |
| Generation.DistinctCard | js/eclipse-game.js:379-386 | a repetition-free list has as many members as entries |
| Generation.FlagSetCard | js/eclipse-game.js:379-386 | flagging exactly the cells of a repetition-free list flags as many cells as it has entries |
| Generation.OddGridUnsolvable | js/eclipse-game.js:316-324 | on a grid of odd side no full grid keeps every line rule, since a full line of odd length cannot hold equally many suns and moons |
| Generation.SolutionSatisfiesClues | js/eclipse-game.js:349-361 | clues read off a grid never fail on it |
| Game.EclipseGame.constructor | js/eclipse-game.js:2-10 | a fresh component: all cells empty, no fixed or invalid cell, no clue |
| Game.EclipseGame.ClickCell | js/eclipse-game.js:50-76 | a fixed cell is unchanged; otherwise the clicked cell rotates and no other cell changes |
| Game.EclipseGame.ValidateUserRow | js/eclipse-game.js:111-114 | passes exactly when row y keeps both rules |
| Game.EclipseGame.ValidateUserCol | js/eclipse-game.js:116-119 | passes exactly when column x keeps both rules |
| Game.EclipseGame.ValidateSolutionCell | js/eclipse-game.js:285-300 | passes exactly when the solution's row y and column x keep both rules |
| Game.EclipseGame.FillSolution | js/eclipse-game.js:264-283 | earlier cells never change; on success every later cell is filled and valid lines stay valid; on failure the grid is restored |
| Game.EclipseGame.GenerateSolution | js/eclipse-game.js:255-262 | one attempt: on success the solution is full and keeps every line rule; on failure it is all null; on a grid of odd side it always fails |
| Game.EclipseGame.GenerateFixedCellsFromSolution | js/eclipse-game.js:369-387 | the shuffled list is a permutation of all indices; exactly its first floor(1.5 n) cells become fixed and take their solution values; the rest are unchanged |
| Game.EclipseGame.GenerateCluesFromSolution | js/eclipse-game.js:331-367 | every clue joins a cell to its right or lower neighbour, never two fixed cells, and its kind is the solution's relation; the list is strictly ordered |
| Game.EclipseGame.ValidateCellClues | js/eclipse-game.js:159-188 | passes exactly when, in each direction, the first clue joining the cell to its neighbour holds or an end is empty |
| Game.EclipseGame.IsCellInvalidAt | js/eclipse-game.js:648-668 | true exactly when the cell's row, column or clue check fails |
| Game.EclipseGame.AllCellsFilled | js/eclipse-game.js:391 | true exactly when no cell is empty |
| Game.EclipseGame.RulesHold | js/eclipse-game.js:395-424 | true exactly when every row and column keeps both rules and no clue fails on two filled cells |
| Game.EclipseGame.CheckRules | js/eclipse-game.js:389-444 | reports the win exactly when the board wins; on a full board every flag is lowered, otherwise none changes |
| Game.EclipseGame.ClearHighlights | js/eclipse-game.js:241-245 | every flag is lowered |
| Game.EclipseGame.ValidateAll | js/eclipse-game.js:555-607 | passes exactly when no row or column is flagged and no clue is violated; afterwards a cell is flagged exactly when it is a filled cell of a flagged line or an end of a violated clue |
| Game.EclipseGame.FlagRows | js/eclipse-game.js:562-574 | flags the filled cells of every flagged row; reports whether a row is flagged |
| Game.EclipseGame.FlagColumns | js/eclipse-game.js:577-589 | adds the filled cells of every flagged column; reports whether a column is flagged |
| Game.EclipseGame.FlagClues | js/eclipse-game.js:592-604 | adds both ends of every violated clue; reports whether one is violated |
| Game.EclipseGame.MarkFilledRowCells | js/eclipse-game.js:567-571 | raises exactly the filled cells of the row |
| Game.EclipseGame.MarkFilledColCells | js/eclipse-game.js:582-586 | raises exactly the filled cells of the column |
| Game.EclipseGame.ResetCellAndNeighborHighlights | js/eclipse-game.js:670-699 | the flags become the reset flags around the cell |
| Game.EclipseGame.HighlightInvalidCells | js/eclipse-game.js:190-239 | the flags become the highlighted flags around the cell at (x, y) |
| Game.EclipseGame.RaiseRowFlags | js/eclipse-game.js:197-201 | raises exactly row y |
| Game.EclipseGame.RaiseColFlags | js/eclipse-game.js:204-208 | raises exactly column x |
| Game.EclipseGame.FlagFailedClues | js/eclipse-game.js:211-238 | raises exactly the ends of the failing clues around the cell |
| Game.EclipseGame.ClearCellAndNeighborHighlights | js/eclipse-game.js:609-646 | the flags become the cleared flags around the cell |
| Game.EclipseGame.LowerValidColFlags | js/eclipse-game.js:617-623 | lowers exactly the column's cells that are not invalid |
| Game.EclipseGame.LowerValidRowFlags | js/eclipse-game.js:626-632 | lowers exactly the row's cells that are not invalid |
| Game.EclipseGame.LowerValidNeighbourFlags | js/eclipse-game.js:635-645 | lowers exactly the neighbours that are not invalid |
| Game.EclipseGame.ValidateCellAndNeighbors | js/eclipse-game.js:94-109 | highlights around an invalid cell and clears around a valid one; the clicked cell ends up flagged exactly when it is invalid |
| Game.EclipseGame.ClickAndCheck | js/eclipse-game.js:50-92 | a fixed cell changes nothing; otherwise the cell rotates, the win is reported exactly when the board wins, and the flags follow the validation, or are all lowered on a full board |
| Game.EclipseGame.NewPuzzle | js/eclipse-game.js:12-18 | on success the solution wins the generated puzzle: it is full, keeps every line rule and every clue; floor(1.5 n) distinct cells are fixed to their solution values and all others are empty |

## Left out

- Rendering is not modelled: `render`, the emoji text, `displayClue`, `toggleSolution`, `launchConfetti` and `getFixedCells` only touch the page. `setupGame` is modelled only as the index-to-coordinates mapping (`Geometry.GetCellOfCoords`).
- The 500 ms debounce and the 100 ms win timer are left out. `Game.EclipseGame.ClickAndCheck` runs the debounced callback once, right after the click, and reports whether the win handler would be scheduled. Clicks that arrive faster than the debounce, and so only validate once, are not modelled.
- Game.EclipseGame.GenerateSolution: models one pass of the retry loop of `generateSolution` and reports failure instead of retrying. Whether a pass succeeds does not depend on the random draws. The search tries both symbols at every cell and resets the cell to `null` when both fail, so it explores every assignment. Its pruning tests hold on every prefix of a finished grid. For an even side a pass therefore always succeeds, and the failure branch of `Game.EclipseGame.NewPuzzle` never happens in the component. For an odd side no full grid keeps the balance rule (`Generation.OddGridUnsolvable`), so every pass fails and the component's loop never ends. The model proves the odd case but does not prove that the search is complete for an even side.
- `handleWin` is not modelled. Besides the message and the confetti, it sets `pointerEvents = 'none'` on every cell, so no click reaches the board after a win. `Game.EclipseGame.ClickAndCheck` keeps accepting moves after a win.
- Game.EclipseGame.FillSolution: proves that the search is sound (what it fills keeps every rule), not that it finds a solution whenever one exists.
- Random draws are modelled as free choices, so the probabilities are not modelled: 50% for the symbol order, a uniform swap partner, a 20% chance per clue.
- The grid size is a constructor parameter rather than the fixed 6. Every property is proved for every size.
- `isInvalidCell` (always false) is not a member of its own. Its answer is built into `Game.EclipseGame.CheckRules`, which lowers every flag on a full board.
- Cells are identified by index instead of by DOM element. Clues hold two indices where the component holds two element references.
- The row, column, clue and clean-up passes of the highlight routines and of `validateAll` are split into helper methods (`RaiseRowFlags`, `FlagRows`, `LowerValidColFlags`, ...). Their composition is proved equal to the whole routine.
- `scripts.js` is not part of this model.
