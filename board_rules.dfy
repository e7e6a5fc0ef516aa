/**
 * Whole-board rules over the player's grid: the win test, the per-cell
 * invalidity test, the bulk validation, and the `invalid` flags each
 * highlight routine leaves behind, as functions of the grid, the clues and
 * the flags before the call.
 */
module BoardRules {
  import opened Wrappers
  import opened Cells
  import opened LineRules
  import opened Geometry
  import opened ClueRules

  /** Every row and every column keeps both line rules. */
  predicate LinesOk(g: seq<Cell>, n: nat)
    requires |g| == n * n
  {
    && (forall y :: 0 <= y < n ==> LineOk(Row(g, n, y)))
    && (forall x :: 0 <= x < n ==> LineOk(Col(g, n, x)))
  }

  predicate AllFilled(g: seq<Cell>)
  {
    forall k :: 0 <= k < |g| ==> g[k] != Empty
  }

  predicate NoClueViolated(g: seq<Cell>, clues: seq<Clue>)
  {
    forall c :: c in clues ==> !Violated(g, c)
  }

  /** The win test: a full grid, every line valid, no clue violated. */
  predicate IsWin(g: seq<Cell>, n: nat, clues: seq<Clue>)
    requires |g| == n * n
  {
    AllFilled(g) && LinesOk(g, n) && NoClueViolated(g, clues)
  }

  /** The row through cell i keeps both line rules. */
  predicate RowValid(g: seq<Cell>, n: nat, i: nat)
    requires |g| == n * n && i < n * n
  {
    CoordsOfIndex(n, i);
    LineOk(Row(g, n, i / n))
  }

  /** The column through cell i keeps both line rules. */
  predicate ColValid(g: seq<Cell>, n: nat, i: nat)
    requires |g| == n * n && i < n * n
  {
    CoordsOfIndex(n, i);
    LineOk(Col(g, n, i % n))
  }

  /** A cell is invalid when its row, its column or one of its clues fails. */
  predicate IsCellInvalid(g: seq<Cell>, n: nat, clues: seq<Clue>, i: nat)
    requires |g| == n * n && i < n * n
  {
    !RowValid(g, n, i) || !ColValid(g, n, i) || !ValidateClues(g, n, clues, i)
  }

  /**
   * For a well-formed clue list a cell is invalid exactly when its row or
   * column breaks a rule or a clue touching it is violated.
   */
  lemma IsCellInvalidIff(g: seq<Cell>, n: nat, clues: seq<Clue>, i: nat)
    requires |g| == n * n && i < n * n && WellFormed(n, clues)
    ensures n > 0 && i / n < n && i % n < n
    ensures IsCellInvalid(g, n, clues, i) <==>
      || !LineOk(Row(g, n, i / n)) || !LineOk(Col(g, n, i % n))
      || exists c :: c in clues && Touches(c, i) && Violated(g, c)
  {
    CoordsOfIndex(n, i);
    ValidateCluesIff(g, n, clues, i);
  }

  /**
   * No double standard between the red cells and the win: with a well-formed
   * clue list a full grid wins exactly when no cell is invalid.
   */
  lemma {:induction false} WinIffNoInvalidCell(g: seq<Cell>, n: nat, clues: seq<Clue>)
    requires |g| == n * n && WellFormed(n, clues) && AllFilled(g)
    ensures IsWin(g, n, clues) <==> forall i :: 0 <= i < n * n ==> !IsCellInvalid(g, n, clues, i)
  {
    if IsWin(g, n, clues) {
      NoInvalidCellOfWin(g, n, clues);
    } else if forall i :: 0 <= i < n * n ==> !IsCellInvalid(g, n, clues, i) {
      RowsOkWithoutInvalidCell(g, n, clues);
      ColsOkWithoutInvalidCell(g, n, clues);
      CluesHoldWithoutInvalidCell(g, n, clues);
      assert false;
    }
  }

  /** On a won board no cell is invalid. */
  lemma NoInvalidCellOfWin(g: seq<Cell>, n: nat, clues: seq<Clue>)
    requires |g| == n * n && WellFormed(n, clues) && IsWin(g, n, clues)
    ensures forall i :: 0 <= i < n * n ==> !IsCellInvalid(g, n, clues, i)
  {
    forall i | 0 <= i < n * n ensures !IsCellInvalid(g, n, clues, i) {
      IsCellInvalidIff(g, n, clues, i);
    }
  }

  /** When no cell is invalid, every row keeps both rules (its first cell says so). */
  lemma RowsOkWithoutInvalidCell(g: seq<Cell>, n: nat, clues: seq<Clue>)
    requires |g| == n * n
    requires forall i :: 0 <= i < n * n ==> !IsCellInvalid(g, n, clues, i)
    ensures forall y :: 0 <= y < n ==> LineOk(Row(g, n, y))
  {
    forall y | 0 <= y < n ensures LineOk(Row(g, n, y)) {
      IndexBound(n, 0, y);
      IndexCoords(n, 0, y);
      assert !IsCellInvalid(g, n, clues, Index(n, 0, y));
    }
  }

  /** When no cell is invalid, every column keeps both rules (its first cell says so). */
  lemma ColsOkWithoutInvalidCell(g: seq<Cell>, n: nat, clues: seq<Clue>)
    requires |g| == n * n
    requires forall i :: 0 <= i < n * n ==> !IsCellInvalid(g, n, clues, i)
    ensures forall x :: 0 <= x < n ==> LineOk(Col(g, n, x))
  {
    forall x | 0 <= x < n ensures LineOk(Col(g, n, x)) {
      IndexBound(n, x, 0);
      IndexCoords(n, x, 0);
      assert !IsCellInvalid(g, n, clues, Index(n, x, 0));
    }
  }

  /** When no cell is invalid, no clue of a well-formed list is violated. */
  lemma CluesHoldWithoutInvalidCell(g: seq<Cell>, n: nat, clues: seq<Clue>)
    requires |g| == n * n && WellFormed(n, clues)
    requires forall i :: 0 <= i < n * n ==> !IsCellInvalid(g, n, clues, i)
    ensures NoClueViolated(g, clues)
  {
    forall c | c in clues ensures !Violated(g, c) {
      ClueForward(n, c);
      assert !IsCellInvalid(g, n, clues, c.cell1);
      IsCellInvalidIff(g, n, clues, c.cell1);
    }
  }

  /**
   * The bulk validation judges a line by its filled cells only: it is
   * flagged when it has one and those cells, taken as a line of their own,
   * break a rule.
   */
  predicate LineFlagged(s: seq<Cell>)
  {
    |Filled(s)| > 0 && !LineOk(Filled(s))
  }

  /** The bulk validation passes: no flagged row or column and no violated clue. */
  predicate AllValid(g: seq<Cell>, n: nat, clues: seq<Clue>)
    requires |g| == n * n
  {
    && (forall y :: 0 <= y < n ==> !LineFlagged(Row(g, n, y)))
    && (forall x :: 0 <= x < n ==> !LineFlagged(Col(g, n, x)))
    && NoClueViolated(g, clues)
  }

  /**
   * The cells the bulk validation marks: filled cells of a flagged row or
   * column, and both cells of every violated clue.
   */
  predicate FlaggedByValidateAll(g: seq<Cell>, n: nat, clues: seq<Clue>, k: nat)
    requires |g| == n * n && k < n * n
  {
    RowFlaggedAt(g, n, k) || ColFlaggedAt(g, n, k) || ClueFlaggedAt(g, clues, k)
  }

  /** Cell k is filled and its row is flagged by the bulk validation. */
  predicate RowFlaggedAt(g: seq<Cell>, n: nat, k: nat)
    requires |g| == n * n && k < n * n
  {
    CoordsOfIndex(n, k);
    g[k] != Empty && LineFlagged(Row(g, n, k / n))
  }

  /** Cell k is filled and its column is flagged by the bulk validation. */
  predicate ColFlaggedAt(g: seq<Cell>, n: nat, k: nat)
    requires |g| == n * n && k < n * n
  {
    CoordsOfIndex(n, k);
    g[k] != Empty && LineFlagged(Col(g, n, k % n))
  }

  /** Cell k is an end of a violated clue. */
  predicate ClueFlaggedAt(g: seq<Cell>, clues: seq<Clue>, k: nat)
  {
    exists c :: c in clues && Touches(c, k) && Violated(g, c)
  }

  // The flags the bulk validation has raised after its first y rows, after
  // all rows and its first x columns, and after all lines and its first m
  // clues; each step lemma advances one of them by one line or one clue.

  predicate RowsMarked(g: seq<Cell>, n: nat, flags: seq<bool>, y: nat)
    requires |g| == n * n && |flags| == n * n
  {
    forall k :: 0 <= k < n * n ==> flags[k] == (k / n < y && RowFlaggedAt(g, n, k))
  }

  predicate ColsMarked(g: seq<Cell>, n: nat, flags: seq<bool>, x: nat)
    requires |g| == n * n && |flags| == n * n
  {
    forall k :: 0 <= k < n * n ==> flags[k] == (RowFlaggedAt(g, n, k) || (k % n < x && ColFlaggedAt(g, n, k)))
  }

  predicate CluesMarked(g: seq<Cell>, n: nat, clues: seq<Clue>, flags: seq<bool>, m: nat)
    requires |g| == n * n && |flags| == n * n && m <= |clues|
  {
    forall k :: 0 <= k < n * n ==>
      flags[k] == (RowFlaggedAt(g, n, k) || ColFlaggedAt(g, n, k) || ClueFlaggedAt(g, clues[..m], k))
  }

  /** One of the first y rows is flagged by the bulk validation. */
  predicate SomeRowFlagged(g: seq<Cell>, n: nat, y: nat)
    requires |g| == n * n && y <= n
  {
    exists m :: 0 <= m < y && LineFlagged(Row(g, n, m))
  }

  /** One of the first x columns is flagged by the bulk validation. */
  predicate SomeColFlagged(g: seq<Cell>, n: nat, x: nat)
    requires |g| == n * n && x <= n
  {
    exists m :: 0 <= m < x && LineFlagged(Col(g, n, m))
  }

  lemma SomeFlaggedStep(g: seq<Cell>, n: nat, m: nat)
    requires |g| == n * n && m < n
    ensures SomeRowFlagged(g, n, m + 1) == (SomeRowFlagged(g, n, m) || LineFlagged(Row(g, n, m)))
    ensures SomeColFlagged(g, n, m + 1) == (SomeColFlagged(g, n, m) || LineFlagged(Col(g, n, m)))
  {
  }

  lemma MarksStart(g: seq<Cell>, n: nat, flags: seq<bool>)
    requires |g| == n * n && |flags| == n * n
    requires forall k :: 0 <= k < n * n ==> !flags[k]
    ensures RowsMarked(g, n, flags, 0)
  {
    forall k | 0 <= k < n * n ensures flags[k] == (k / n < 0 && RowFlaggedAt(g, n, k)) {
      CoordsOfIndex(n, k);
      DivNonneg(k, n);
    }
  }

  lemma RowsToCols(g: seq<Cell>, n: nat, flags: seq<bool>)
    requires |g| == n * n && |flags| == n * n
    requires RowsMarked(g, n, flags, n)
    ensures ColsMarked(g, n, flags, 0)
  {
    forall k | 0 <= k < n * n ensures flags[k] == RowFlaggedAt(g, n, k) {
      CoordsOfIndex(n, k);
    }
  }

  lemma ColsToClues(g: seq<Cell>, n: nat, clues: seq<Clue>, flags: seq<bool>)
    requires |g| == n * n && |flags| == n * n
    requires ColsMarked(g, n, flags, n)
    ensures CluesMarked(g, n, clues, flags, 0)
  {
    forall k | 0 <= k < n * n ensures flags[k] == (RowFlaggedAt(g, n, k) || ColFlaggedAt(g, n, k)) {
      CoordsOfIndex(n, k);
    }
  }

  /** The flags with every filled cell of row y raised. */
  function MarkFilledRow(g: seq<Cell>, n: nat, flags: seq<bool>, y: nat): (r: seq<bool>)
    requires |g| == n * n && |flags| == n * n && n > 0
    ensures |r| == |flags|
    ensures forall k :: 0 <= k < |r| ==> (r[k] <==> flags[k] || (k / n == y && g[k] != Empty))
  {
    seq(|flags|, k requires 0 <= k < |flags| => flags[k] || (k / n == y && g[k] != Empty))
  }

  /** The flags with every filled cell of column x raised. */
  function MarkFilledCol(g: seq<Cell>, n: nat, flags: seq<bool>, x: nat): (r: seq<bool>)
    requires |g| == n * n && |flags| == n * n && n > 0
    ensures |r| == |flags|
    ensures forall k :: 0 <= k < |r| ==> (r[k] <==> flags[k] || (k % n == x && g[k] != Empty))
  {
    seq(|flags|, k requires 0 <= k < |flags| => flags[k] || (k % n == x && g[k] != Empty))
  }

  lemma RowStep(g: seq<Cell>, n: nat, before: seq<bool>, after: seq<bool>, y: nat)
    requires |g| == n * n && |before| == n * n && |after| == n * n && y < n
    requires RowsMarked(g, n, before, y)
    requires after == if LineFlagged(Row(g, n, y)) then MarkFilledRow(g, n, before, y) else before
    ensures RowsMarked(g, n, after, y + 1)
  {
    forall k | 0 <= k < n * n ensures after[k] == (k / n < y + 1 && RowFlaggedAt(g, n, k)) {
      CoordsOfIndex(n, k);
    }
  }

  lemma ColStep(g: seq<Cell>, n: nat, before: seq<bool>, after: seq<bool>, x: nat)
    requires |g| == n * n && |before| == n * n && |after| == n * n && x < n
    requires ColsMarked(g, n, before, x)
    requires after == if LineFlagged(Col(g, n, x)) then MarkFilledCol(g, n, before, x) else before
    ensures ColsMarked(g, n, after, x + 1)
  {
    forall k | 0 <= k < n * n
      ensures after[k] == (RowFlaggedAt(g, n, k) || (k % n < x + 1 && ColFlaggedAt(g, n, k)))
    {
      CoordsOfIndex(n, k);
    }
  }

  lemma ClueStep(g: seq<Cell>, n: nat, clues: seq<Clue>, before: seq<bool>, after: seq<bool>, m: nat)
    requires |g| == n * n && |before| == n * n && |after| == n * n && m < |clues|
    requires CluesMarked(g, n, clues, before, m)
    requires forall k :: 0 <= k < n * n ==>
      after[k] == (before[k] || (Violated(g, clues[m]) && Touches(clues[m], k)))
    ensures CluesMarked(g, n, clues, after, m + 1)
    ensures NoClueViolated(g, clues[..m + 1]) == (NoClueViolated(g, clues[..m]) && !Violated(g, clues[m]))
  {
    assert clues[..m + 1] == clues[..m] + [clues[m]];
  }

  /**
   * A full board that does not win always has an invalid cell, yet the win
   * check lowers every flag on a full board: the errors go unmarked.
   */
  lemma FullLosingBoardHasInvalidCell(g: seq<Cell>, n: nat, clues: seq<Clue>)
    requires |g| == n * n && WellFormed(n, clues) && AllFilled(g) && !IsWin(g, n, clues)
    ensures exists i :: 0 <= i < n * n && IsCellInvalid(g, n, clues, i)
  {
    WinIffNoInvalidCell(g, n, clues);
  }

  /**
   * The highlight marks both ends of a clue whose relation fails on the
   * current values even when one end is empty: on the 2 x 2 board
   * sun, empty / moon, empty with '=' between cells 0 and 1 and between
   * cells 0 and 2, the highlight around cell 0 flags cell 1, which is empty
   * and not invalid.
   */
  lemma HighlightFlagsEmptyClueEnd()
    ensures
      var g, clues := [Sun, Empty, Moon, Empty], [Clue(0, 1, Same), Clue(0, 2, Same)];
      && HighlightedFlags(g, 2, clues, [false, false, false, false], 0)[1]
      && !IsCellInvalid(g, 2, clues, 1)
  {
    var g, clues := [Sun, Empty, Moon, Empty], [Clue(0, 1, Same), Clue(0, 2, Same)];
    assert Neighbour(2, 0, 3) == Some(2);
    assert !ClueHoldsToward(g, 2, clues, 0, 3);
    assert Neighbour(2, 0, 1) == Some(1);
    assert RawMarkToward(g, 2, clues, 0, 1, 1);
    RawMarkWithinMonotone(g, 2, clues, 0, 1, 2, 4);
    assert IsNeighbourOf(2, 0, 1) by {
      assert NeighbourWithin(2, 0, 1, 2);
    }
    EmptyEndValid();
  }

  lemma EmptyEndValid()
    ensures !IsCellInvalid([Sun, Empty, Moon, Empty], 2, [Clue(0, 1, Same), Clue(0, 2, Same)], 1)
  {
    EmptyEndRowOk();
    EmptyEndColOk();
    EmptyEndCluesHold();
  }

  /** On that board the row through cell 1, sun then empty, keeps both rules. */
  lemma EmptyEndRowOk()
    ensures RowValid([Sun, Empty, Moon, Empty], 2, 1)
  {
    var g := [Sun, Empty, Moon, Empty];
    assert 1 / 2 == 0;
    assert Row(g, 2, 0) == [Sun, Empty];
    assert Count([Sun, Empty], Sun) == 1 && Count([Sun, Empty], Moon) == 0;
  }

  /** On that board the column through cell 1 is empty and keeps both rules. */
  lemma EmptyEndColOk()
    ensures ColValid([Sun, Empty, Moon, Empty], 2, 1)
  {
    var g := [Sun, Empty, Moon, Empty];
    assert 1 % 2 == 1;
    assert Col(g, 2, 1) == [Empty, Empty];
    EmptyLineOk([Empty, Empty]);
  }

  /** On that board the clue check of cell 1 passes: its only clue has an empty end. */
  lemma EmptyEndCluesHold()
    ensures ValidateClues([Sun, Empty, Moon, Empty], 2, [Clue(0, 1, Same), Clue(0, 2, Same)], 1)
  {
    var g, clues := [Sun, Empty, Moon, Empty], [Clue(0, 1, Same), Clue(0, 2, Same)];
    assert Neighbour(2, 1, 0) == Some(0);
    assert Neighbour(2, 1, 1) == None;
    assert Neighbour(2, 1, 2) == None;
    assert Neighbour(2, 1, 3) == Some(3);
    assert FindClue(clues, 1, 3) == None;
    forall d | 0 <= d < 4 ensures ClueHoldsToward(g, 2, clues, 1, d) {
      assert d == 0 || d == 1 || d == 2 || d == 3;
    }
  }

  /** Whatever the bulk validation accepts, it accepts only exactly balanced lines. */
  lemma ValidateAllNeedsExactBalance(s: seq<Cell>)
    requires !LineFlagged(s)
    ensures Count(s, Sun) == Count(s, Moon)
  {
    var f := Filled(s);
    if |f| > 0 {
      NoEmptyIff(f);
      FullLineBalance(f);
    } else {
      CountTotal(f);
    }
  }

  /** On a full grid the bulk validation and the win test agree. */
  lemma ValidateAllOnFullGrid(g: seq<Cell>, n: nat, clues: seq<Clue>)
    requires |g| == n * n && AllFilled(g)
    ensures AllValid(g, n, clues) <==> IsWin(g, n, clues)
  {
    forall y | 0 <= y < n ensures LineFlagged(Row(g, n, y)) <==> !LineOk(Row(g, n, y)) {
      NoEmptyIff(Row(g, n, y));
      FilledOfFull(Row(g, n, y));
    }
    forall x | 0 <= x < n ensures LineFlagged(Col(g, n, x)) <==> !LineOk(Col(g, n, x)) {
      NoEmptyIff(Col(g, n, x));
      FilledOfFull(Col(g, n, x));
    }
  }

  /**
   * On a partial line the bulk validation is stricter than the move check:
   * sun, sun, empty, sun, empty, empty keeps both rules, but its filled cells
   * are three suns in a row.
   */
  lemma ValidateAllJoinsAcrossGaps()
    ensures LineOk([Sun, Sun, Empty, Sun, Empty, Empty])
    ensures LineFlagged([Sun, Sun, Empty, Sun, Empty, Empty])
  {
    var s := [Sun, Sun, Empty, Sun, Empty, Empty];
    forall j: nat | j + 2 < |s| ensures !TripleAt(s, j) {
      assert j <= 3;
    }
    assert Filled(s) == [Sun, Sun, Sun];
    assert TripleAt(Filled(s), 0);
  }

  // ---- The `invalid` flags ----

  /** k is the neighbour of i in one of the first d directions. */
  predicate NeighbourWithin(n: nat, i: nat, k: nat, d: nat)
    requires i < n * n && d <= 4
  {
    d > 0 && (NeighbourWithin(n, i, k, d - 1) || Neighbour(n, i, d - 1) == Some(k))
  }

  predicate IsNeighbourOf(n: nat, i: nat, k: nat)
    requires i < n * n
  {
    NeighbourWithin(n, i, k, 4)
  }

  /** The cells the routines reset around cell i: itself, its row, its column, its neighbours. */
  predicate InZone(n: nat, i: nat, k: nat)
    requires i < n * n
  {
    CoordsOfIndex(n, i);
    k == i || k / n == i / n || k % n == i % n || IsNeighbourOf(n, i, k)
  }

  /** The flags after clearing the zone around i. */
  function ResetFlags(n: nat, flags: seq<bool>, i: nat): (r: seq<bool>)
    requires i < n * n
    ensures |r| == |flags|
    ensures forall k :: 0 <= k < |r| ==> (r[k] <==> flags[k] && !InZone(n, i, k))
  {
    seq(|flags|, k requires 0 <= k < |flags| => flags[k] && !InZone(n, i, k))
  }

  /**
   * The clue marking toward direction d as the highlight routine writes it:
   * the first clue joining i and its neighbour j fails on their current
   * values, WITHOUT asking that both are filled, and k is i or j.
   */
  predicate RawMarkToward(g: seq<Cell>, n: nat, clues: seq<Clue>, i: nat, d: nat, k: nat)
    requires |g| == n * n && i < n * n && d < 4
  {
    match Neighbour(n, i, d)
    case None => false
    case Some(j) =>
      match FindClue(clues, i, j)
      case None => false
      case Some(c) => Mismatch(c.kind, g[i], g[j]) && (k == i || k == j)
  }

  predicate RawMarkWithin(g: seq<Cell>, n: nat, clues: seq<Clue>, i: nat, k: nat, d: nat)
    requires |g| == n * n && i < n * n && d <= 4
  {
    d > 0 && (RawMarkWithin(g, n, clues, i, k, d - 1) || RawMarkToward(g, n, clues, i, d - 1, k))
  }

  /**
   * Whether the highlight routine for cell i marks cell k: k lies in i's
   * failing row or failing column, or i's clue check fails and k is an end
   * of one of i's clues that its values do not satisfy.
   */
  predicate HighlightMark(g: seq<Cell>, n: nat, clues: seq<Clue>, i: nat, k: nat)
    requires |g| == n * n && i < n * n
  {
    || (!RowValid(g, n, i) && k / n == i / n)
    || (!ColValid(g, n, i) && k % n == i % n)
    || (!ValidateClues(g, n, clues, i) && RawMarkWithin(g, n, clues, i, k, 4))
  }

  /** The flags after highlighting around i: the zone is reset, then marked. */
  function HighlightedFlags(g: seq<Cell>, n: nat, clues: seq<Clue>, flags: seq<bool>, i: nat): (r: seq<bool>)
    requires |g| == n * n && i < n * n
    ensures |r| == |flags|
    ensures forall k :: 0 <= k < |r| && !InZone(n, i, k) ==> r[k] == flags[k]
  {
    seq(|flags|, k requires 0 <= k < |flags| =>
      if InZone(n, i, k) then HighlightMark(g, n, clues, i, k) else flags[k])
  }

  /**
   * Whether the clearing routine for cell i lowers the flag of cell k: k is
   * i itself, or k lies in i's valid column or valid row, or is a neighbour
   * of i, and is not invalid on its own account.
   */
  predicate ClearedAt(g: seq<Cell>, n: nat, clues: seq<Clue>, i: nat, k: nat)
    requires |g| == n * n && i < n * n && k < n * n
  {
    var stillInvalid := IsCellInvalid(g, n, clues, k);
    || k == i
    || (ColValid(g, n, i) && k % n == i % n && !stillInvalid)
    || (RowValid(g, n, i) && k / n == i / n && !stillInvalid)
    || (IsNeighbourOf(n, i, k) && !stillInvalid)
  }

  /** The flags after clearing around i: only lowered, never raised. */
  function ClearedFlags(g: seq<Cell>, n: nat, clues: seq<Clue>, flags: seq<bool>, i: nat): (r: seq<bool>)
    requires |g| == n * n && i < n * n && |flags| == n * n
    ensures |r| == |flags|
    ensures forall k :: 0 <= k < |r| && r[k] ==> flags[k]
  {
    seq(|flags|, k requires 0 <= k < |flags| => flags[k] && !ClearedAt(g, n, clues, i, k))
  }

  /**
   * The flags after the per-move validation of cell i: highlight when its
   * row, column or clues fail, clear around it otherwise.
   */
  function ValidatedFlags(g: seq<Cell>, n: nat, clues: seq<Clue>, flags: seq<bool>, i: nat): (r: seq<bool>)
    requires |g| == n * n && i < n * n && |flags| == n * n
    ensures |r| == |flags|
  {
    if IsCellInvalid(g, n, clues, i) then HighlightedFlags(g, n, clues, flags, i)
    else ClearedFlags(g, n, clues, flags, i)
  }

  // The highlight's stages as functions of the flags: raise a whole row,
  // raise a whole column, raise the ends of the failing clues around i.

  function RaiseRow(n: nat, flags: seq<bool>, y: nat): (r: seq<bool>)
    requires n > 0
    ensures |r| == |flags|
    ensures forall k :: 0 <= k < |r| ==> (r[k] <==> flags[k] || k / n == y)
  {
    seq(|flags|, k requires 0 <= k < |flags| => flags[k] || k / n == y)
  }

  function RaiseCol(n: nat, flags: seq<bool>, x: nat): (r: seq<bool>)
    requires n > 0
    ensures |r| == |flags|
    ensures forall k :: 0 <= k < |r| ==> (r[k] <==> flags[k] || k % n == x)
  {
    seq(|flags|, k requires 0 <= k < |flags| => flags[k] || k % n == x)
  }

  function RaiseClueEnds(g: seq<Cell>, n: nat, clues: seq<Clue>, flags: seq<bool>, i: nat): (r: seq<bool>)
    requires |g| == n * n && i < n * n
    ensures |r| == |flags|
    ensures forall k :: 0 <= k < |r| ==> (r[k] <==> flags[k] || RawMarkWithin(g, n, clues, i, k, 4))
  {
    seq(|flags|, k requires 0 <= k < |flags| => flags[k] || RawMarkWithin(g, n, clues, i, k, 4))
  }

  /** The flags the highlight routine's stages produce, composed. */
  function HighlightByStages(g: seq<Cell>, n: nat, clues: seq<Clue>, flags: seq<bool>, i: nat): (r: seq<bool>)
    requires |g| == n * n && i < n * n
    ensures |r| == |flags|
  {
    CoordsOfIndex(n, i);
    DivNonneg(i, n);
    var reset := ResetFlags(n, flags, i);
    var rows := if RowValid(g, n, i) then reset else RaiseRow(n, reset, i / n);
    var lines := if ColValid(g, n, i) then rows else RaiseCol(n, rows, i % n);
    if ValidateClues(g, n, clues, i) then lines else RaiseClueEnds(g, n, clues, lines, i)
  }

  lemma HighlightStagesAt(g: seq<Cell>, n: nat, clues: seq<Clue>, flags: seq<bool>, i: nat, k: nat)
    requires |g| == n * n && i < n * n && |flags| == n * n && k < n * n
    ensures HighlightByStages(g, n, clues, flags, i)[k] == HighlightedFlags(g, n, clues, flags, i)[k]
  {
    if RawMarkWithin(g, n, clues, i, k, 4) {
      RawMarkInZone(g, n, clues, i, k, 4);
    }
  }

  /** The highlight routine's stages, composed, give the highlighted flags. */
  lemma HighlightStages(g: seq<Cell>, n: nat, clues: seq<Clue>, flags: seq<bool>, i: nat)
    requires |g| == n * n && i < n * n && |flags| == n * n
    ensures HighlightByStages(g, n, clues, flags, i) == HighlightedFlags(g, n, clues, flags, i)
  {
    forall k | 0 <= k < n * n
      ensures HighlightByStages(g, n, clues, flags, i)[k] == HighlightedFlags(g, n, clues, flags, i)[k]
    {
      HighlightStagesAt(g, n, clues, flags, i, k);
    }
  }

  // The clean-up's stages as functions of the flags: lower the cells of a
  // column, of a row, or among the neighbours of i that are not invalid.

  function LowerValidCol(g: seq<Cell>, n: nat, clues: seq<Clue>, flags: seq<bool>, x: nat): (r: seq<bool>)
    requires |g| == n * n && |flags| == n * n
    ensures |r| == |flags|
    ensures forall k :: 0 <= k < |r| ==> (r[k] <==> flags[k] && !(k % n == x && !IsCellInvalid(g, n, clues, k)))
  {
    seq(|flags|, k requires 0 <= k < |flags| => flags[k] && !(k % n == x && !IsCellInvalid(g, n, clues, k)))
  }

  function LowerValidRow(g: seq<Cell>, n: nat, clues: seq<Clue>, flags: seq<bool>, y: nat): (r: seq<bool>)
    requires |g| == n * n && |flags| == n * n
    ensures |r| == |flags|
    ensures forall k :: 0 <= k < |r| ==> (r[k] <==> flags[k] && !(k / n == y && !IsCellInvalid(g, n, clues, k)))
  {
    seq(|flags|, k requires 0 <= k < |flags| => flags[k] && !(k / n == y && !IsCellInvalid(g, n, clues, k)))
  }

  /** The flags the clean-up routine's stages produce, composed. */
  function ClearByStages(g: seq<Cell>, n: nat, clues: seq<Clue>, flags: seq<bool>, i: nat): (r: seq<bool>)
    requires |g| == n * n && i < n * n && |flags| == n * n
    ensures |r| == |flags|
  {
    CoordsOfIndex(n, i);
    DivNonneg(i, n);
    var own := flags[i := false];
    var cols := if ColValid(g, n, i) then LowerValidCol(g, n, clues, own, i % n) else own;
    var rows := if RowValid(g, n, i) then LowerValidRow(g, n, clues, cols, i / n) else cols;
    LowerValidNeighbours(g, n, clues, rows, i)
  }

  function LowerValidNeighbours(g: seq<Cell>, n: nat, clues: seq<Clue>, flags: seq<bool>, i: nat): (r: seq<bool>)
    requires |g| == n * n && i < n * n && |flags| == n * n
    ensures |r| == |flags|
    ensures forall k :: 0 <= k < |r| ==> (r[k] <==> flags[k] && !(IsNeighbourOf(n, i, k) && !IsCellInvalid(g, n, clues, k)))
  {
    seq(|flags|, k requires 0 <= k < |flags| => flags[k] && !(IsNeighbourOf(n, i, k) && !IsCellInvalid(g, n, clues, k)))
  }

  /** The clean-up routine's stages, composed, give the cleared flags. */
  lemma ClearStages(g: seq<Cell>, n: nat, clues: seq<Clue>, flags: seq<bool>, i: nat)
    requires |g| == n * n && i < n * n && |flags| == n * n
    ensures ClearByStages(g, n, clues, flags, i) == ClearedFlags(g, n, clues, flags, i)
  {
  }

  /** After the per-move validation, the clicked cell is red exactly when it is invalid. */
  lemma ValidatedCellFlag(g: seq<Cell>, n: nat, clues: seq<Clue>, flags: seq<bool>, i: nat)
    requires |g| == n * n && i < n * n && |flags| == n * n
    ensures ValidatedFlags(g, n, clues, flags, i)[i] == IsCellInvalid(g, n, clues, i)
  {
    if IsCellInvalid(g, n, clues, i) && RowValid(g, n, i) && ColValid(g, n, i) {
      var d :| 0 <= d < 4 && !ClueHoldsToward(g, n, clues, i, d);
      assert RawMarkToward(g, n, clues, i, d, i);
      RawMarkWithinMonotone(g, n, clues, i, i, d + 1, 4);
    }
  }

  /** The clue marking only ever reaches the cell itself and its neighbours. */
  lemma {:induction false} RawMarkInZone(g: seq<Cell>, n: nat, clues: seq<Clue>, i: nat, k: nat, d: nat)
    requires |g| == n * n && i < n * n && d <= 4
    requires RawMarkWithin(g, n, clues, i, k, d)
    ensures k == i || NeighbourWithin(n, i, k, d)
  {
    if !RawMarkToward(g, n, clues, i, d - 1, k) {
      RawMarkInZone(g, n, clues, i, k, d - 1);
    }
  }

  lemma {:induction false} RawMarkWithinMonotone(g: seq<Cell>, n: nat, clues: seq<Clue>, i: nat, k: nat, d: nat, e: nat)
    requires |g| == n * n && i < n * n && d <= e <= 4
    requires RawMarkWithin(g, n, clues, i, k, d)
    ensures RawMarkWithin(g, n, clues, i, k, e)
  {
    if d < e {
      RawMarkWithinMonotone(g, n, clues, i, k, d, e - 1);
    }
  }

  /**
   * When the clicked cell is valid, the clearing lowers no flag of another
   * cell that is still invalid, and raises none.
   */
  lemma ClearingKeepsInvalidFlags(g: seq<Cell>, n: nat, clues: seq<Clue>, flags: seq<bool>, i: nat, k: nat)
    requires |g| == n * n && i < n * n && |flags| == n * n && k < n * n
    requires !IsCellInvalid(g, n, clues, i)
    ensures ValidatedFlags(g, n, clues, flags, i)[k] ==> flags[k]
    ensures k != i && flags[k] && IsCellInvalid(g, n, clues, k) ==> ValidatedFlags(g, n, clues, flags, i)[k]
  {
  }
}
