/**
 * Clues: a relation ('=' or 'x') between two neighbouring cells. A clue is
 * violated only when both of its cells are filled and the relation fails.
 */
module ClueRules {
  import opened Wrappers
  import opened Cells
  import opened Geometry

  /** '=': the two cells hold the same symbol; 'x': they hold different ones. */
  datatype Relation = Same | Opposite

  /** A clue between the cells at two indices of the grid. */
  datatype Clue = Clue(cell1: nat, cell2: nat, kind: Relation)

  /** The clue joins p and q, in either orientation. */
  predicate Links(c: Clue, p: nat, q: nat)
  {
    (c.cell1 == p && c.cell2 == q) || (c.cell1 == q && c.cell2 == p)
  }

  /** One of the clue's two cells is i. */
  predicate Touches(c: Clue, i: nat)
  {
    c.cell1 == i || c.cell2 == i
  }

  /**
   * The first clue joining p and q, or none (`this.clues.find(...)`).
   */
  function FindClue(clues: seq<Clue>, p: nat, q: nat): (r: Option<Clue>)
    ensures r.None? <==> forall k :: 0 <= k < |clues| ==> !Links(clues[k], p, q)
    ensures r.Some? ==> exists k :: 0 <= k < |clues| && clues[k] == r.value && Links(r.value, p, q)
                                   && forall j :: 0 <= j < k ==> !Links(clues[j], p, q)
  {
    if clues == [] then None
    else if Links(clues[0], p, q) then Some(clues[0])
    else
      var r := FindClue(clues[1..], p, q);
      assert forall k :: 1 <= k < |clues| ==> clues[k] == clues[1..][k - 1];
      r
  }

  /** The relation the solution values of two cells stand in ('=' or 'x'). */
  function RelationOf(t1: Cell, t2: Cell): (r: Relation)
    ensures r == Same <==> t1 == t2
  {
    if t1 == t2 then Same else Opposite
  }

  /** The symbols t1 and t2 do not stand in the relation `kind`. */
  predicate Mismatch(kind: Relation, t1: Cell, t2: Cell)
  {
    (kind == Same && t1 != t2) || (kind == Opposite && t1 == t2)
  }

  /** A relation fails on two symbols exactly when they stand in the other one. */
  lemma MismatchIff(kind: Relation, t1: Cell, t2: Cell)
    ensures Mismatch(kind, t1, t2) <==> kind != RelationOf(t1, t2)
    ensures Mismatch(kind, t1, t2) == Mismatch(kind, t2, t1)
  {
  }

  /** Both cells of the clue are filled and its relation fails on the grid g. */
  predicate Violated(g: seq<Cell>, c: Clue)
  {
    && c.cell1 < |g| && c.cell2 < |g|
    && g[c.cell1] != Empty && g[c.cell2] != Empty
    && Mismatch(c.kind, g[c.cell1], g[c.cell2])
  }

  /** The four neighbour offsets, in the order left, right, up, down. */
  const Directions: seq<(int, int)> := [(-1, 0), (1, 0), (0, -1), (0, 1)]

  /** The neighbour of cell i in direction d, if it lies on the grid. */
  function Neighbour(n: nat, i: nat, d: nat): Option<nat>
    requires i < n * n && d < 4
  {
    CoordsOfIndex(n, i);
    GetCell(n, i % n + Directions[d].0, i / n + Directions[d].1)
  }

  /**
   * The check for one direction: if the neighbour exists and the first clue
   * joining the two cells is found, it does not fail while both are filled.
   */
  predicate ClueHoldsToward(g: seq<Cell>, n: nat, clues: seq<Clue>, i: nat, d: nat)
    requires |g| == n * n && i < n * n && d < 4
  {
    match Neighbour(n, i, d)
    case None => true
    case Some(j) =>
      match FindClue(clues, i, j)
      case None => true
      case Some(c) => !(g[i] != Empty && g[j] != Empty && Mismatch(c.kind, g[i], g[j]))
  }

  /** The clue check of one cell over its four neighbours (`validateClues`). */
  predicate ValidateClues(g: seq<Cell>, n: nat, clues: seq<Clue>, i: nat)
    requires |g| == n * n && i < n * n
  {
    forall d :: 0 <= d < 4 ==> ClueHoldsToward(g, n, clues, i, d)
  }

  /** The clue joins a cell to its right or its lower neighbour on the grid. */
  predicate RightOrDown(n: nat, c: Clue)
  {
    && c.cell1 < n * n
    && (|| GetCell(n, c.cell1 % n + 1, c.cell1 / n) == Some(c.cell2)
        || GetCell(n, c.cell1 % n, c.cell1 / n + 1) == Some(c.cell2))
  }

  /** Clue a comes before clue b in the order of (first cell, second cell). */
  predicate Precedes(a: Clue, b: Clue)
  {
    a.cell1 < b.cell1 || (a.cell1 == b.cell1 && a.cell2 < b.cell2)
  }

  predicate Ordered(clues: seq<Clue>)
  {
    forall p, q :: 0 <= p < q < |clues| ==> Precedes(clues[p], clues[q])
  }

  /** Appending a clue that comes after every clue of an ordered list keeps it ordered. */
  lemma OrderedAppend(clues: seq<Clue>, c: Clue)
    requires Ordered(clues)
    requires forall p :: 0 <= p < |clues| ==> Precedes(clues[p], c)
    ensures Ordered(clues + [c])
  {
  }

  /** Clue lists built from a solution: right/down neighbours, strictly ordered. */
  predicate WellFormed(n: nat, clues: seq<Clue>)
  {
    (forall c :: c in clues ==> RightOrDown(n, c)) && Ordered(clues)
  }

  /** A right/down clue goes forward in the grid and ends on the grid. */
  lemma ClueForward(n: nat, c: Clue)
    requires RightOrDown(n, c)
    ensures c.cell1 < c.cell2 < n * n
  {
    CoordsOfIndex(n, c.cell1);
    var x, y := c.cell1 % n, c.cell1 / n;
    if GetCell(n, x + 1, y) == Some(c.cell2) {
      assert c.cell2 == Index(n, x + 1, y);
    } else {
      assert GetCell(n, x, y + 1) == Some(c.cell2);
      IndexBelow(n, x, y);
    }
  }

  /** The cell that a clue touching i joins i to. */
  function Other(c: Clue, i: nat): nat
  {
    if c.cell1 == i then c.cell2 else c.cell1
  }

  /** The other cell of a right/down clue touching i is one of i's four neighbours. */
  lemma NeighbourOfClue(n: nat, c: Clue, i: nat) returns (d: nat)
    requires RightOrDown(n, c) && Touches(c, i)
    ensures i < n * n && d < 4 && Neighbour(n, i, d) == Some(Other(c, i))
  {
    ClueForward(n, c);
    CoordsOfIndex(n, c.cell1);
    CoordsOfIndex(n, c.cell2);
    var x, y := c.cell1 % n, c.cell1 / n;
    var right := GetCell(n, x + 1, y) == Some(c.cell2);
    if c.cell1 == i {
      d := if right then 1 else 3;
    } else {
      d := if right then 0 else 2;
    }
  }

  /** In a well-formed list two clues never join the same pair of cells. */
  lemma UniquePair(n: nat, clues: seq<Clue>, p: nat, q: nat, a: nat, b: nat)
    requires WellFormed(n, clues) && p < |clues| && q < |clues|
    requires Links(clues[p], a, b) && Links(clues[q], a, b)
    ensures p == q
  {
    ClueForward(n, clues[p]);
    ClueForward(n, clues[q]);
  }

  /**
   * For a well-formed clue list the per-cell check passes exactly when no
   * clue touching the cell is violated: the first clue found is the only one.
   */
  lemma {:induction false} ValidateCluesIff(g: seq<Cell>, n: nat, clues: seq<Clue>, i: nat)
    requires |g| == n * n && i < n * n && WellFormed(n, clues)
    ensures ValidateClues(g, n, clues, i) <==> forall c :: c in clues && Touches(c, i) ==> !Violated(g, c)
  {
    if ValidateClues(g, n, clues, i) {
      forall c | c in clues && Touches(c, i) ensures !Violated(g, c) {
        var d := NeighbourOfClue(n, c, i);
        var j := Other(c, i);
        assert ClueHoldsToward(g, n, clues, i, d);
        var m :| 0 <= m < |clues| && clues[m] == c;
        assert Links(c, i, j);
        var found := FindClue(clues, i, j);
        var k :| 0 <= k < |clues| && clues[k] == found.value && Links(found.value, i, j);
        UniquePair(n, clues, m, k, i, j);
      }
    } else {
      var d :| 0 <= d < 4 && !ClueHoldsToward(g, n, clues, i, d);
      var j := Neighbour(n, i, d).value;
      var c := FindClue(clues, i, j).value;
      assert c in clues && Touches(c, i) && Violated(g, c);
    }
  }
}
