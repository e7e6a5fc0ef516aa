/**
 * The puzzle component's state and the routines that change it: the
 * player's grid, the solution grid, the fixed and invalid flags of each
 * cell, and the clue list.
 */
module Game {
  import opened Wrappers
  import opened Cells
  import opened LineRules
  import opened Geometry
  import opened ClueRules
  import opened BoardRules
  import opened Generation

  class EclipseGame {
    /** The side of the grid. */
    const n: nat
    /** The player's grid: each cell's `data-type`, row-major. */
    const cells: array<Cell>
    /** The solution grid, row-major; Empty stands for `null`. */
    const solution: array<Cell>
    /** The `fixed` class of each cell. */
    const fixed: array<bool>
    /** The `invalid` class of each cell. */
    const invalid: array<bool>
    /** The clues, in the order they were added. */
    var clues: seq<Clue>

    ghost predicate Valid()
      reads this
    {
      && cells.Length == n * n && solution.Length == n * n
      && fixed.Length == n * n && invalid.Length == n * n
      && cells != solution && fixed != invalid
      && forall c :: c in clues ==> c.cell1 < n * n && c.cell2 < n * n
    }

    /** A fresh component with every cell empty, nothing fixed or flagged, no clue. */
    constructor (size: nat)
      ensures Valid() && n == size && clues == []
      ensures fresh(cells) && fresh(solution) && fresh(fixed) && fresh(invalid)
      ensures forall k :: 0 <= k < n * n ==> cells[k] == Empty && solution[k] == Empty
      ensures forall k :: 0 <= k < n * n ==> !fixed[k] && !invalid[k]
    {
      n := size;
      cells := new Cell[size * size](_ => Empty);
      solution := new Cell[size * size](_ => Empty);
      fixed := new bool[size * size](_ => false);
      invalid := new bool[size * size](_ => false);
      clues := [];
    }

    /**
     * A click on cell i: a fixed cell ignores it; any other cell turns
     * empty -> sun -> moon -> empty, and no other cell changes.
     */
    method ClickCell(i: nat)
      requires Valid() && i < n * n
      modifies cells
      ensures cells[..] == if fixed[i] then old(cells[..]) else old(cells[..])[i := Rotate(old(cells[i]))]
    {
      if fixed[i] {
        return;
      }
      cells[i] := Rotate(cells[i]);
    }

    /** Row y of the player's grid keeps both rules. */
    method ValidateUserRow(y: nat) returns (ok: bool)
      requires Valid() && y < n
      ensures ok == LineOk(Row(cells[..], n, y))
    {
      ok := ValidateUserSequence(Row(cells[..], n, y));
    }

    /** Column x of the player's grid keeps both rules. */
    method ValidateUserCol(x: nat) returns (ok: bool)
      requires Valid() && x < n
      ensures ok == LineOk(Col(cells[..], n, x))
    {
      ok := ValidateUserSequence(Col(cells[..], n, x));
    }

    /** The solution's row y and column x keep the run rule and the balance rule. */
    method ValidateSolutionCell(x: nat, y: nat) returns (ok: bool)
      requires Valid() && x < n && y < n
      ensures ok == (LineOk(Row(solution[..], n, y)) && LineOk(Col(solution[..], n, x)))
    {
      var row := Row(solution[..], n, y);
      var rowRuns := ValidateSolutionSequence(row);
      if !rowRuns {
        return false;
      }
      var col := Col(solution[..], n, x);
      var colRuns := ValidateSolutionSequence(col);
      if !colRuns {
        return false;
      }
      if !SolutionBalance(row) || !SolutionBalance(col) {
        return false;
      }
      return true;
    }

    /**
     * The backtracking search from cell `index` on, every later cell still
     * `null`: each of the two symbols is tried in a chosen order, kept if the
     * cell's row and column still pass and the rest can be filled; when both
     * fail the cell is reset to `null`. Cells before `index` never change;
     * on success every later cell is filled and, if every line passed
     * before, every line passes after; on failure the grid is as it was.
     */
    method FillSolution(index: nat) returns (ok: bool)
      requires Valid() && index <= n * n
      requires forall k :: index <= k < n * n ==> solution[k] == Empty
      modifies solution
      decreases n * n - index
      ensures forall k :: 0 <= k < index ==> solution[k] == old(solution[k])
      ensures ok ==> forall k :: index <= k < n * n ==> solution[k] != Empty
      ensures !ok ==> solution[..] == old(solution[..])
      ensures ok && old(LinesOk(solution[..], n)) ==> LinesOk(solution[..], n)
    {
      if index >= solution.Length {
        return true;
      }
      CoordsOfIndex(n, index);
      var x, y := index % n, index / n;
      var sunFirst: bool :| true;
      var types := if sunFirst then [Sun, Moon] else [Moon, Sun];
      ghost var entry := solution[..];
      var t := 0;
      while t < 2
        invariant 0 <= t <= 2
        invariant forall k :: 0 <= k < n * n && k != index ==> solution[k] == entry[k]
      {
        solution[index] := types[t];
        ghost var tried := solution[..];
        assert tried == entry[index := types[t]];
        var cellOk := ValidateSolutionCell(x, y);
        if cellOk {
          if LinesOk(entry, n) {
            WriteKeepsLines(entry, n, index, types[t]);
          }
          var rest := FillSolution(index + 1);
          if rest {
            return true;
          }
        }
        t := t + 1;
      }
      solution[index] := Empty;
      assert solution[..] == entry;
      return false;
    }

    /**
     * One pass of the solution generator: all entries back to `null`, then
     * the search from cell 0. On success the solution is full and every row
     * and column passes; on failure it is all `null` again. A grid of odd
     * side has no solution, so there the pass always fails.
     */
    method GenerateSolution() returns (ok: bool)
      requires Valid()
      modifies solution
      ensures ok ==> AllFilled(solution[..]) && LinesOk(solution[..], n)
      ensures !ok ==> forall k :: 0 <= k < n * n ==> solution[k] == Empty
      ensures n % 2 == 1 ==> !ok
    {
      forall k | 0 <= k < solution.Length {
        solution[k] := Empty;
      }
      EmptyGridLinesOk(solution[..], n);
      ok := FillSolution(0);
      if ok && n % 2 == 1 {
        OddGridUnsolvable(solution[..], n);
        assert false;
      }
    }

    /**
     * Shuffles the list of all cell indices (Fisher-Yates, the swap partner
     * chosen freely), then fixes the first floor(1.5 n) cells of the list:
     * each gets its solution value on the player's grid and the `fixed`
     * flag. The shuffled list is returned; the other cells do not change.
     */
    method GenerateFixedCellsFromSolution() returns (order: seq<nat>)
      requires Valid()
      modifies cells, fixed
      ensures multiset(order) == multiset(Range(n * n))
      ensures |order| == n * n && Distinct(order)
      ensures forall k :: k in order ==> k < n * n
      ensures forall k :: 0 <= k < n * n ==>
        && fixed[k] == (old(fixed[k]) || k in order[..FixedCount(n)])
        && cells[k] == if k in order[..FixedCount(n)] then solution[k] else old(cells[k])
    {
      var fixedCount := FixedCount(n);
      var indices := new nat[n * n](k => k);
      assert indices[..] == Range(n * n);
      var i := indices.Length - 1;
      while i > 0
        modifies indices
        invariant -1 <= i < indices.Length
        invariant multiset(indices[..]) == multiset(Range(n * n))
        invariant Distinct(indices[..])
        invariant forall k :: 0 <= k < indices.Length ==> indices[k] < n * n
      {
        var j :| 0 <= j <= i;
        SwapKeepsDistinct(indices[..], i, j);
        indices[i], indices[j] := indices[j], indices[i];
        i := i - 1;
      }
      order := indices[..];
      var t := 0;
      while t < fixedCount
        invariant 0 <= t <= fixedCount
        invariant forall k :: 0 <= k < n * n ==>
          && fixed[k] == (old(fixed[k]) || k in order[..t])
          && cells[k] == if k in order[..t] then solution[k] else old(cells[k])
      {
        var index := order[t];
        assert order[..t + 1] == order[..t] + [index];
        cells[index] := solution[index];
        fixed[index] := true;
        t := t + 1;
      }
    }

    /**
     * Reads clues off the solution: every cell is paired with its right and
     * its lower neighbour on the grid, pairs whose two cells are both fixed
     * are skipped, and each other pair may or may not get a clue ('=' when
     * the solution has the same symbol on both, 'x' otherwise). The clue
     * list is replaced by the chosen clues, in the order visited.
     */
    method GenerateCluesFromSolution()
      requires Valid()
      modifies this
      ensures Valid()
      ensures WellFormed(n, clues)
      ensures forall c :: c in clues ==> !(fixed[c.cell1] && fixed[c.cell2])
      ensures forall c :: c in clues ==> c.kind == RelationOf(solution[c.cell1], solution[c.cell2])
    {
      clues := [];
      var directions := [(1, 0), (0, 1)];
      var y := 0;
      while y < n
        invariant 0 <= y <= n && Valid() && Ordered(clues)
        invariant forall c :: c in clues ==> ReadOff(n, fixed[..], solution[..], c) && c.cell1 < Index(n, 0, y)
      {
        var x := 0;
        while x < n
          invariant 0 <= x <= n && Valid() && Ordered(clues)
          invariant forall c :: c in clues ==> ReadOff(n, fixed[..], solution[..], c) && c.cell1 < Index(n, x, y)
        {
          IndexCoords(n, x, y);
          IndexBound(n, x, y);
          var cell := Index(n, x, y);
          var d := 0;
          while d < 2
            invariant 0 <= d <= 2 && Valid() && Ordered(clues)
            invariant forall c :: c in clues ==>
              && ReadOff(n, fixed[..], solution[..], c)
              && (c.cell1 < cell || (c.cell1 == cell && d >= 1 && (d == 1 ==> c.cell2 == cell + 1)))
          {
            var neighbour := GetCell(n, x + directions[d].0, y + directions[d].1);
            if neighbour.Some? {
              var other := neighbour.value;
              if fixed[cell] && fixed[other] {
                d := d + 1;
                continue;
              }
              var kind := if solution[cell] == solution[other] then Same else Opposite;
              var keep: bool :| true;
              if keep {
                var clue := Clue(cell, other, kind);
                IndexBelow(n, x, y);
                assert other == if d == 0 then cell + 1 else cell + n;
                assert ReadOff(n, fixed[..], solution[..], clue);
                OrderedAppend(clues, clue);
                clues := clues + [clue];
              }
            }
            d := d + 1;
          }
          x := x + 1;
        }
        IndexBelow(n, 0, y);
        y := y + 1;
      }
    }

    /**
     * The clue check of cell i: for each of the four directions that has a
     * neighbour and a clue joining the two cells (the first such clue in
     * the list), fails when both cells are filled and the clue does not
     * hold.
     */
    method ValidateCellClues(i: nat) returns (ok: bool)
      requires Valid() && i < n * n
      ensures ok == ValidateClues(cells[..], n, clues, i)
    {
      var d := 0;
      while d < 4
        invariant 0 <= d <= 4
        invariant forall e :: 0 <= e < d ==> ClueHoldsToward(cells[..], n, clues, i, e)
      {
        var neighbour := Neighbour(n, i, d);
        if neighbour.Some? {
          var found := FindClue(clues, i, neighbour.value);
          if found.Some? {
            var type1, type2 := cells[i], cells[neighbour.value];
            if type1 != Empty && type2 != Empty {
              if found.value.kind == Same && type1 != type2 {
                assert !ClueHoldsToward(cells[..], n, clues, i, d);
                return false;
              }
              if found.value.kind == Opposite && type1 == type2 {
                assert !ClueHoldsToward(cells[..], n, clues, i, d);
                return false;
              }
            }
          }
        }
        assert ClueHoldsToward(cells[..], n, clues, i, d);
        d := d + 1;
      }
      return true;
    }

    /** Cell i is invalid: its row, its column or its clue check fails. */
    method IsCellInvalidAt(i: nat) returns (bad: bool)
      requires Valid() && i < n * n
      ensures bad == IsCellInvalid(cells[..], n, clues, i)
    {
      CoordsOfIndex(n, i);
      var rowOk := ValidateUserRow(i / n);
      if !rowOk {
        return true;
      }
      var colOk := ValidateUserCol(i % n);
      if !colOk {
        return true;
      }
      var cluesOk := ValidateCellClues(i);
      return !cluesOk;
    }

    /** Every cell of the player's grid is filled (`cells.every`). */
    method AllCellsFilled() returns (full: bool)
      requires Valid()
      ensures full == AllFilled(cells[..])
    {
      var k := 0;
      while k < cells.Length
        invariant 0 <= k <= cells.Length
        invariant forall m :: 0 <= m < k ==> cells[m] != Empty
      {
        if cells[k] == Empty {
          return false;
        }
        k := k + 1;
      }
      return true;
    }

    /**
     * The rule part of the win test: row i and column i pass the move check
     * for every i, and then no clue fails on two filled cells.
     */
    method RulesHold() returns (valid: bool)
      requires Valid()
      ensures valid == (LinesOk(cells[..], n) && NoClueViolated(cells[..], clues))
    {
      var i := 0;
      while i < n
        invariant 0 <= i <= n
        invariant forall m :: 0 <= m < i ==> LineOk(Row(cells[..], n, m)) && LineOk(Col(cells[..], n, m))
      {
        var rowOk := ValidateUserSequence(Row(cells[..], n, i));
        var colOk := ValidateUserSequence(Col(cells[..], n, i));
        if !rowOk || !colOk {
          assert !LinesOk(cells[..], n);
          return false;
        }
        i := i + 1;
      }
      var m := 0;
      while m < |clues|
        invariant 0 <= m <= |clues|
        invariant forall c :: c in clues[..m] ==> !Violated(cells[..], c)
      {
        var clue := clues[m];
        assert clues[..m + 1] == clues[..m] + [clue];
        var type1, type2 := cells[clue.cell1], cells[clue.cell2];
        if type1 == Empty || type2 == Empty {
          m := m + 1;
          continue;
        }
        if (clue.kind == Same && type1 != type2) || (clue.kind == Opposite && type1 == type2) {
          assert clue in clues && Violated(cells[..], clue);
          return false;
        }
        m := m + 1;
      }
      assert clues[..m] == clues;
      return true;
    }

    /**
     * The check after each move. With an empty cell left it does nothing.
     * On a full grid it reports whether the board is won and then lowers
     * every `invalid` flag, since the per-cell test it consults
     * (`isInvalidCell`) answers "valid" for every cell.
     */
    method CheckRules() returns (win: bool)
      requires Valid()
      modifies invalid
      ensures win == IsWin(cells[..], n, clues)
      ensures AllFilled(cells[..]) ==> forall k :: 0 <= k < n * n ==> !invalid[k]
      ensures !AllFilled(cells[..]) ==> invalid[..] == old(invalid[..])
    {
      var full := AllCellsFilled();
      if !full {
        assert !IsWin(cells[..], n, clues);
        return false;
      }
      win := RulesHold();
      ghost var board := cells[..];
      assert win == IsWin(board, n, clues);
      forall k | 0 <= k < invalid.Length && invalid[k] {
        invalid[k] := false;
      }
      assert cells[..] == board;
    }

    /** Lowers every `invalid` flag. */
    method ClearHighlights()
      requires Valid()
      modifies invalid
      ensures forall k :: 0 <= k < n * n ==> !invalid[k]
    {
      forall k | 0 <= k < invalid.Length {
        invalid[k] := false;
      }
    }

    /**
     * The bulk validation: clears every flag, then flags the filled cells of
     * each row and each column whose filled cells, read as one line, break a
     * rule, and both cells of each clue that fails on two filled cells. It
     * passes when nothing was flagged.
     */
    method ValidateAll() returns (ok: bool)
      requires Valid()
      modifies invalid
      ensures ok == AllValid(cells[..], n, clues)
      ensures forall k :: 0 <= k < n * n ==> invalid[k] == FlaggedByValidateAll(cells[..], n, clues, k)
    {
      ClearHighlights();
      MarksStart(cells[..], n, invalid[..]);
      var rowErrors := FlagRows();
      RowsToCols(cells[..], n, invalid[..]);
      var colErrors := FlagColumns();
      ColsToClues(cells[..], n, clues, invalid[..]);
      var clueErrors := FlagClues();
      assert clues[..|clues|] == clues;
      ok := !(rowErrors || colErrors || clueErrors);
    }

    /** The row pass of the bulk validation. */
    method FlagRows() returns (hasErrors: bool)
      requires Valid() && RowsMarked(cells[..], n, invalid[..], 0)
      modifies invalid
      ensures RowsMarked(cells[..], n, invalid[..], n)
      ensures hasErrors == SomeRowFlagged(cells[..], n, n)
    {
      ghost var g := cells[..];
      hasErrors := false;
      var y := 0;
      while y < n
        invariant 0 <= y <= n && cells[..] == g
        invariant hasErrors == SomeRowFlagged(g, n, y)
        invariant RowsMarked(g, n, invalid[..], y)
      {
        ghost var before := invalid[..];
        var filled := Filled(Row(cells[..], n, y));
        if |filled| > 0 {
          var lineOk := ValidateUserSequence(filled);
          if !lineOk {
            MarkFilledRowCells(y);
            hasErrors := true;
          }
        }
        RowStep(g, n, before, invalid[..], y);
        SomeFlaggedStep(g, n, y);
        y := y + 1;
      }
    }

    /** The column pass of the bulk validation. */
    method FlagColumns() returns (hasErrors: bool)
      requires Valid() && ColsMarked(cells[..], n, invalid[..], 0)
      modifies invalid
      ensures ColsMarked(cells[..], n, invalid[..], n)
      ensures hasErrors == SomeColFlagged(cells[..], n, n)
    {
      ghost var g := cells[..];
      hasErrors := false;
      var x := 0;
      while x < n
        invariant 0 <= x <= n && cells[..] == g
        invariant hasErrors == SomeColFlagged(g, n, x)
        invariant ColsMarked(g, n, invalid[..], x)
      {
        ghost var before := invalid[..];
        var filled := Filled(Col(cells[..], n, x));
        if |filled| > 0 {
          var lineOk := ValidateUserSequence(filled);
          if !lineOk {
            MarkFilledColCells(x);
            hasErrors := true;
          }
        }
        ColStep(g, n, before, invalid[..], x);
        SomeFlaggedStep(g, n, x);
        x := x + 1;
      }
    }

    /** Flags every filled cell of row y. */
    method MarkFilledRowCells(y: nat)
      requires Valid() && y < n
      modifies invalid
      ensures invalid[..] == MarkFilledRow(cells[..], n, old(invalid[..]), y)
    {
      forall k | 0 <= k < invalid.Length && k / n == y && cells[k] != Empty {
        invalid[k] := true;
      }
    }

    /** Flags every filled cell of column x. */
    method MarkFilledColCells(x: nat)
      requires Valid() && x < n
      modifies invalid
      ensures invalid[..] == MarkFilledCol(cells[..], n, old(invalid[..]), x)
    {
      forall k | 0 <= k < invalid.Length && k % n == x && cells[k] != Empty {
        invalid[k] := true;
      }
    }

    /** The clue pass of the bulk validation. */
    method FlagClues() returns (hasErrors: bool)
      requires Valid() && CluesMarked(cells[..], n, clues, invalid[..], 0)
      modifies invalid
      ensures CluesMarked(cells[..], n, clues, invalid[..], |clues|)
      ensures hasErrors == !NoClueViolated(cells[..], clues)
    {
      ghost var g := cells[..];
      hasErrors := false;
      var m := 0;
      while m < |clues|
        invariant 0 <= m <= |clues| && cells[..] == g
        invariant hasErrors == !NoClueViolated(g, clues[..m])
        invariant CluesMarked(g, n, clues, invalid[..], m)
      {
        ghost var before := invalid[..];
        var clue := clues[m];
        assert clues[..m + 1] == clues[..m] + [clue];
        var type1, type2 := cells[clue.cell1], cells[clue.cell2];
        if type1 != Empty && type2 != Empty {
          if (clue.kind == Same && type1 != type2) || (clue.kind == Opposite && type1 == type2) {
            invalid[clue.cell1] := true;
            invalid[clue.cell2] := true;
            hasErrors := true;
          }
        }
        ClueStep(g, n, clues, before, invalid[..], m);
        m := m + 1;
      }
      assert clues[..m] == clues;
    }

    /** Lowers the flags of cell i, its row, its column and its neighbours. */
    method ResetCellAndNeighborHighlights(i: nat)
      requires Valid() && i < n * n
      modifies invalid
      ensures invalid[..] == ResetFlags(n, old(invalid[..]), i)
    {
      CoordsOfIndex(n, i);
      var x, y := i % n, i / n;
      invalid[i] := false;
      forall k | 0 <= k < invalid.Length && k / n == y {
        invalid[k] := false;
      }
      forall k | 0 <= k < invalid.Length && k % n == x {
        invalid[k] := false;
      }
      var d := 0;
      while d < 4
        invariant 0 <= d <= 4
        invariant forall k :: 0 <= k < n * n ==>
          invalid[k] == (old(invalid[k]) && !(k == i || k / n == y || k % n == x || NeighbourWithin(n, i, k, d)))
      {
        var neighbour := Neighbour(n, i, d);
        if neighbour.Some? {
          invalid[neighbour.value] := false;
        }
        d := d + 1;
      }
    }

    /**
     * The highlight after a failed move at column x, row y: the zone around
     * the cell is reset, then its whole row is flagged if the row fails, its
     * whole column if the column fails, and, if its clue check fails, both
     * ends of each of its clues whose relation does not hold on the current
     * values, filled or not.
     */
    method HighlightInvalidCells(y: nat, x: nat)
      requires Valid() && y < n && x < n
      modifies invalid
      ensures invalid[..] == HighlightedFlags(cells[..], n, clues, old(invalid[..]), GetCell(n, x, y).value)
    {
      var cell := GetCell(n, x, y).value;
      ghost var g, flags := cells[..], invalid[..];
      ResetCellAndNeighborHighlights(cell);
      ghost var reset := invalid[..];
      var rowOk := ValidateUserRow(y);
      assert cells[..] == g && rowOk == RowValid(g, n, cell);
      if !rowOk {
        RaiseRowFlags(y);
      }
      ghost var rows := invalid[..];
      var colOk := ValidateUserCol(x);
      assert cells[..] == g && colOk == ColValid(g, n, cell);
      if !colOk {
        RaiseColFlags(x);
      }
      ghost var lines := invalid[..];
      var cluesOk := ValidateCellClues(cell);
      if !cluesOk {
        FlagFailedClues(cell);
      }
      assert invalid[..] == HighlightByStages(g, n, clues, flags, cell);
      HighlightStages(g, n, clues, flags, cell);
    }

    /** Flags every cell of row y. */
    method RaiseRowFlags(y: nat)
      requires Valid() && y < n
      modifies invalid
      ensures invalid[..] == RaiseRow(n, old(invalid[..]), y)
    {
      forall k | 0 <= k < invalid.Length && k / n == y {
        invalid[k] := true;
      }
    }

    /** Flags every cell of column x. */
    method RaiseColFlags(x: nat)
      requires Valid() && x < n
      modifies invalid
      ensures invalid[..] == RaiseCol(n, old(invalid[..]), x)
    {
      forall k | 0 <= k < invalid.Length && k % n == x {
        invalid[k] := true;
      }
    }

    /**
     * The clue part of the highlight around `cell`: for each neighbour
     * joined to it by a clue (the first in the list), both cells are flagged
     * when the clue's relation fails on their current values, filled or not.
     */
    method FlagFailedClues(cell: nat)
      requires Valid() && cell < n * n
      modifies invalid
      ensures invalid[..] == RaiseClueEnds(cells[..], n, clues, old(invalid[..]), cell)
    {
      ghost var g := cells[..];
      var d := 0;
      while d < 4
        invariant 0 <= d <= 4 && cells[..] == g
        invariant forall k :: 0 <= k < n * n ==>
          invalid[k] == (old(invalid[k]) || RawMarkWithin(g, n, clues, cell, k, d))
      {
        var neighbour := Neighbour(n, cell, d);
        if neighbour.Some? {
          var found := FindClue(clues, cell, neighbour.value);
          if found.Some? {
            var type1, type2 := cells[cell], cells[neighbour.value];
            if (found.value.kind == Same && type1 != type2) || (found.value.kind == Opposite && type1 == type2) {
              invalid[cell] := true;
              invalid[neighbour.value] := true;
            }
          }
        }
        d := d + 1;
      }
    }

    /**
     * The clean-up after a valid move at cell i: its own flag is lowered,
     * and so is the flag of every cell of its column (if the column passes),
     * of its row (if the row passes) and of each neighbour, when that cell
     * is not invalid itself.
     */
    method ClearCellAndNeighborHighlights(i: nat)
      requires Valid() && i < n * n
      modifies invalid
      ensures invalid[..] == ClearedFlags(cells[..], n, clues, old(invalid[..]), i)
    {
      CoordsOfIndex(n, i);
      DivNonneg(i, n);
      var x, y := i % n, i / n;
      ghost var g, flags := cells[..], invalid[..];
      invalid[i] := false;
      var colOk := ValidateUserCol(x);
      assert cells[..] == g && colOk == ColValid(g, n, i);
      if colOk {
        LowerValidColFlags(x);
      }
      var rowOk := ValidateUserRow(y);
      assert cells[..] == g && rowOk == RowValid(g, n, i);
      if rowOk {
        LowerValidRowFlags(y);
      }
      LowerValidNeighbourFlags(i);
      assert invalid[..] == ClearByStages(g, n, clues, flags, i);
      ClearStages(g, n, clues, flags, i);
    }

    /** Lowers the flag of each neighbour of cell i that is not invalid itself. */
    method LowerValidNeighbourFlags(i: nat)
      requires Valid() && i < n * n
      modifies invalid
      ensures invalid[..] == LowerValidNeighbours(cells[..], n, clues, old(invalid[..]), i)
    {
      ghost var g := cells[..];
      var d := 0;
      while d < 4
        invariant 0 <= d <= 4 && cells[..] == g
        invariant forall k :: 0 <= k < n * n ==>
          invalid[k] == (old(invalid[k]) && !(NeighbourWithin(n, i, k, d) && !IsCellInvalid(g, n, clues, k)))
      {
        var neighbour := Neighbour(n, i, d);
        if neighbour.Some? {
          var bad := IsCellInvalidAt(neighbour.value);
          if !bad {
            invalid[neighbour.value] := false;
          }
        }
        d := d + 1;
      }
    }

    /** Lowers the flag of every cell of column x that is not invalid itself. */
    method LowerValidColFlags(x: nat)
      requires Valid()
      modifies invalid
      ensures invalid[..] == LowerValidCol(cells[..], n, clues, old(invalid[..]), x)
    {
      ghost var g, flags := cells[..], invalid[..];
      forall k | 0 <= k < invalid.Length && k % n == x && !IsCellInvalid(cells[..], n, clues, k) {
        invalid[k] := false;
      }
      assert cells[..] == g;
      ghost var lowered := LowerValidCol(g, n, clues, flags, x);
      forall k | 0 <= k < n * n ensures invalid[k] == lowered[k] {
      }
    }

    /** Lowers the flag of every cell of row y that is not invalid itself. */
    method LowerValidRowFlags(y: nat)
      requires Valid()
      modifies invalid
      ensures invalid[..] == LowerValidRow(cells[..], n, clues, old(invalid[..]), y)
    {
      ghost var g, flags := cells[..], invalid[..];
      forall k | 0 <= k < invalid.Length && k / n == y && !IsCellInvalid(cells[..], n, clues, k) {
        invalid[k] := false;
      }
      assert cells[..] == g;
      ghost var lowered := LowerValidRow(g, n, clues, flags, y);
      forall k | 0 <= k < n * n ensures invalid[k] == lowered[k] {
      }
    }

    /**
     * The per-move validation of cell i: when its row, its column or its
     * clue check fails, highlight around it; otherwise clean up around it.
     * Either way the cell's own flag ends up telling whether it is invalid.
     */
    method ValidateCellAndNeighbors(i: nat)
      requires Valid() && i < n * n
      modifies invalid
      ensures invalid[..] == ValidatedFlags(cells[..], n, clues, old(invalid[..]), i)
      ensures invalid[i] == IsCellInvalid(cells[..], n, clues, i)
    {
      CoordsOfIndex(n, i);
      var x, y := i % n, i / n;
      var rowOk := ValidateUserRow(y);
      var colOk := ValidateUserCol(x);
      var cluesOk := ValidateCellClues(i);
      if !rowOk || !colOk || !cluesOk {
        HighlightInvalidCells(y, x);
      } else {
        ClearCellAndNeighborHighlights(i);
      }
      ValidatedCellFlag(cells[..], n, clues, old(invalid[..]), i);
    }

    /**
     * A click on cell i followed by the delayed check it schedules: a fixed
     * cell ignores the click and schedules nothing; otherwise the cell
     * rotates, the per-move validation runs around it, then the win check.
     * `win` tells whether the win handler is scheduled.
     */
    method ClickAndCheck(i: nat) returns (win: bool)
      requires Valid() && i < n * n
      modifies cells, invalid
      ensures fixed[i] ==> cells[..] == old(cells[..]) && invalid[..] == old(invalid[..]) && !win
      ensures !fixed[i] ==> cells[..] == old(cells[..])[i := Rotate(old(cells[i]))]
      ensures !fixed[i] ==> win == IsWin(cells[..], n, clues)
      ensures !fixed[i] && AllFilled(cells[..]) ==> forall k :: 0 <= k < n * n ==> !invalid[k]
      ensures !fixed[i] && !AllFilled(cells[..]) ==>
        invalid[..] == ValidatedFlags(cells[..], n, clues, old(invalid[..]), i)
    {
      if fixed[i] {
        return false;
      }
      ClickCell(i);
      ValidateCellAndNeighbors(i);
      win := CheckRules();
    }

    /**
     * Start-up (`connectedCallback`) on a fresh component: one pass of the
     * solution search, then the fixed cells, then the clues. When the
     * search succeeds, the solution wins the puzzle it produced: it is
     * full, keeps every line rule and every clue, agrees with every fixed
     * cell, and floor(1.5 n) distinct cells are fixed while all others are
     * empty.
     */
    method NewPuzzle() returns (ok: bool)
      requires Valid()
      requires forall k :: 0 <= k < n * n ==> cells[k] == Empty && !fixed[k]
      modifies this, cells, solution, fixed
      ensures Valid()
      ensures ok ==> IsWin(solution[..], n, clues) && WellFormed(n, clues)
      ensures ok ==> |FlagSet(fixed[..])| == FixedCount(n)
      ensures ok ==> forall k :: 0 <= k < n * n ==> if fixed[k] then cells[k] == solution[k] else cells[k] == Empty
    {
      ok := GenerateSolution();
      if !ok {
        return;
      }
      var order := GenerateFixedCellsFromSolution();
      GenerateCluesFromSolution();
      SolutionSatisfiesClues(solution[..], clues);
      ghost var chosen := order[..FixedCount(n)];
      assert forall k :: k in chosen ==> k in order;
      FlagSetCard(fixed[..], chosen);
    }
  }
}
