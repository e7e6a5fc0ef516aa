/**
 * Facts about the generated puzzle: the backtracking search only ever
 * writes one cell at a time, the fixed cells are the first floor(1.5 n)
 * entries of a shuffled list of all cells, and clues are read off the
 * solution.
 */
module Generation {
  import opened Cells
  import opened LineRules
  import opened Geometry
  import opened ClueRules
  import opened BoardRules

  /** The grid the search starts from (every entry `null`) keeps every line rule. */
  lemma EmptyGridLinesOk(g: seq<Cell>, n: nat)
    requires |g| == n * n && forall k :: 0 <= k < |g| ==> g[k] == Empty
    ensures LinesOk(g, n)
  {
    forall y | 0 <= y < n ensures LineOk(Row(g, n, y)) {
      EmptyLineOk(Row(g, n, y));
    }
    forall x | 0 <= x < n ensures LineOk(Col(g, n, x)) {
      EmptyLineOk(Col(g, n, x));
    }
  }

  /**
   * Writing one cell keeps every line valid as long as the row and the
   * column through that cell still are: the other lines do not change.
   */
  lemma WriteKeepsLines(g: seq<Cell>, n: nat, i: nat, v: Cell)
    requires |g| == n * n && i < n * n && LinesOk(g, n)
    requires RowValid(g[i := v], n, i) && ColValid(g[i := v], n, i)
    ensures LinesOk(g[i := v], n)
  {
    CoordsOfIndex(n, i);
    var h := g[i := v];
    forall y | 0 <= y < n ensures LineOk(Row(h, n, y)) {
      if y != i / n {
        UpdateOtherRow(g, n, i, v, y);
      }
    }
    forall x | 0 <= x < n ensures LineOk(Col(h, n, x)) {
      if x != i % n {
        UpdateOtherCol(g, n, i, v, x);
      }
    }
  }

  /**
   * A finished solution: every row and column is free of three in a row and
   * holds exactly as many suns as moons.
   */
  lemma SolvedLinesBalanced(g: seq<Cell>, n: nat)
    requires |g| == n * n && AllFilled(g) && LinesOk(g, n)
    ensures forall y :: 0 <= y < n ==> NoTriple(Row(g, n, y)) && Count(Row(g, n, y), Sun) == Count(Row(g, n, y), Moon)
    ensures forall x :: 0 <= x < n ==> NoTriple(Col(g, n, x)) && Count(Col(g, n, x), Sun) == Count(Col(g, n, x), Moon)
  {
    forall y | 0 <= y < n ensures Count(Row(g, n, y), Sun) == Count(Row(g, n, y), Moon) {
      FullLineBalance(Row(g, n, y));
    }
    forall x | 0 <= x < n ensures Count(Col(g, n, x), Sun) == Count(Col(g, n, x), Moon) {
      FullLineBalance(Col(g, n, x));
    }
  }

  /**
   * On a grid of odd side no full grid keeps every line rule: a full row of
   * odd length cannot hold as many suns as moons. The solution search
   * therefore never succeeds for an odd side.
   */
  lemma OddGridUnsolvable(g: seq<Cell>, n: nat)
    requires |g| == n * n && n % 2 == 1 && AllFilled(g)
    ensures !LinesOk(g, n)
  {
    var row := Row(g, n, 0);
    forall k | 0 <= k < |row| ensures row[k] != Empty {
      IndexBound(n, k, 0);
    }
    FullLineBalance(row);
    NoEmptyIff(row);
    CountTotal(row);
  }

  /** The number of fixed cells, `Math.floor(gridSize * 1.5)`. */
  function FixedCount(n: nat): (r: nat)
    ensures r <= n * n
    ensures 2 * r <= 3 * n < 2 * r + 2
  {
    if n >= 2 then
      assert n * n >= 2 * n by { MulAtLeast(n - 1, n); MulSub(n, 1, n); }
      (3 * n) / 2
    else (3 * n) / 2
  }

  /** 0, 1, ..., m - 1: the list of all cell indices before the shuffle. */
  function Range(m: nat): (r: seq<nat>)
    ensures |r| == m && forall k :: 0 <= k < m ==> r[k] == k
  {
    seq(m, k => k)
  }

  predicate Distinct(s: seq<nat>)
  {
    forall p, q :: 0 <= p < q < |s| ==> s[p] != s[q]
  }

  /** Exchanging two entries keeps a list free of repetitions and keeps its members. */
  lemma SwapKeepsDistinct(s: seq<nat>, i: nat, j: nat)
    requires Distinct(s) && i < |s| && j < |s|
    ensures Distinct(s[i := s[j]][j := s[i]])
    ensures multiset(s[i := s[j]][j := s[i]]) == multiset(s)
  {
  }

  /** The cells whose flag is raised. */
  function FlagSet(flags: seq<bool>): set<nat>
  {
    set k | 0 <= k < |flags| && flags[k]
  }

  /** The indices a list mentions. */
  function Members(s: seq<nat>): set<nat>
  {
    set k | k in s
  }

  /** A list without repetitions has as many distinct members as entries. */
  lemma {:induction false} DistinctCard(s: seq<nat>)
    requires Distinct(s)
    ensures |Members(s)| == |s|
  {
    if s == [] {
      assert Members(s) == {};
    } else {
      var rest := s[..|s| - 1];
      var last := s[|s| - 1];
      assert s == rest + [last];
      assert Distinct(rest);
      DistinctCard(rest);
      assert Members(s) == Members(rest) + {last};
      assert last !in Members(rest);
    }
  }

  /**
   * When exactly the cells of a repetition-free list are flagged, as many
   * cells are flagged as the list is long.
   */
  lemma FlagSetCard(flags: seq<bool>, chosen: seq<nat>)
    requires Distinct(chosen)
    requires forall k :: k in chosen ==> k < |flags|
    requires forall k :: 0 <= k < |flags| ==> (flags[k] <==> k in chosen)
    ensures |FlagSet(flags)| == |chosen|
  {
    assert FlagSet(flags) == Members(chosen);
    DistinctCard(chosen);
  }

  /**
   * A clue as the generator makes it: it joins a cell to its right or lower
   * neighbour, the two are not both fixed, and its kind is the relation of
   * their solution values.
   */
  predicate ReadOff(n: nat, fixed: seq<bool>, solution: seq<Cell>, c: Clue)
    requires |fixed| == n * n && |solution| == n * n
  {
    && RightOrDown(n, c) && c.cell2 < n * n
    && !(fixed[c.cell1] && fixed[c.cell2])
    && c.kind == RelationOf(solution[c.cell1], solution[c.cell2])
  }

  /** A clue read off the solution never fails on the solution. */
  lemma SolutionSatisfiesClues(g: seq<Cell>, clues: seq<Clue>)
    requires forall c :: c in clues ==> c.cell1 < |g| && c.cell2 < |g| && c.kind == RelationOf(g[c.cell1], g[c.cell2])
    ensures NoClueViolated(g, clues)
  {
    forall c | c in clues ensures !Violated(g, c) {
      MismatchIff(c.kind, g[c.cell1], g[c.cell2]);
    }
  }
}
