/**
 * The square grid of side n stored as a flat row-major sequence: the cell at
 * column x and row y sits at index y*n + x, and index i has column i % n and
 * row i / n. Rows, columns and the bounds-checked cell lookup are read
 * through these.
 */
module Geometry {
  import opened Wrappers

  function Index(n: nat, x: nat, y: nat): nat
  {
    y * n + x
  }

  lemma MulAtLeast(a: int, n: nat)
    requires a >= 1
    ensures a * n >= n
  {
  }

  lemma MulSub(a: int, b: int, n: int)
    ensures a * n - b * n == (a - b) * n
  {
  }

  lemma DivModUnique(i: int, n: nat, q: int, r: int)
    requires n > 0 && 0 <= r < n && i == q * n + r
    ensures i / n == q && i % n == r
  {
    var q', r' := i / n, i % n;
    assert i == q' * n + r';
    MulSub(q, q', n);
    MulSub(q', q, n);
    if q' < q {
      MulAtLeast(q - q', n);
    } else if q' > q {
      MulAtLeast(q' - q, n);
    }
  }

  lemma DivNonneg(k: nat, n: nat)
    requires n > 0
    ensures k / n >= 0
  {
  }

  /** The coordinates of the cell at (x, y) are x and y again. */
  lemma IndexCoords(n: nat, x: nat, y: nat)
    requires x < n
    ensures Index(n, x, y) % n == x && Index(n, x, y) / n == y
  {
    DivModUnique(y * n + x, n, y, x);
  }

  /** One row down is n cells further on. */
  lemma IndexBelow(n: nat, x: nat, y: nat)
    ensures Index(n, x, y + 1) == Index(n, x, y) + n
  {
    MulSub(y + 1, y, n);
  }

  /** A cell inside the grid has an index inside the flat array. */
  lemma IndexBound(n: nat, x: nat, y: nat)
    requires x < n && y < n
    ensures Index(n, x, y) < n * n
  {
    MulSub(n, y, n);
    MulAtLeast(n - y, n);
  }

  /**
   * Index i of the flat array has coordinates (i % n, i / n) inside the grid,
   * and they lead back to i.
   */
  lemma CoordsOfIndex(n: nat, i: nat)
    requires i < n * n
    ensures n > 0 && i % n < n && i / n < n
    ensures Index(n, i % n, i / n) == i
  {
    assert n > 0;
  }

  /**
   * The bounds-checked cell lookup: no cell for a coordinate off the grid,
   * otherwise the cell whose coordinates are exactly (x, y).
   */
  function GetCell(n: nat, x: int, y: int): (r: Option<nat>)
    ensures r.Some? <==> 0 <= x < n && 0 <= y < n
    ensures r.Some? ==> r.value < n * n && r.value % n == x && r.value / n == y
    ensures r.Some? ==> r.value == Index(n, x, y)
  {
    if 0 <= x < n && 0 <= y < n then
      IndexBound(n, x, y);
      IndexCoords(n, x, y);
      Some(Index(n, x, y))
    else None
  }

  /** Every index of the grid is what the lookup gives for its own coordinates. */
  lemma GetCellOfCoords(n: nat, i: nat)
    requires i < n * n
    ensures GetCell(n, i % n, i / n) == Some(i)
  {
    CoordsOfIndex(n, i);
  }

  /**
   * Row y: the k-th entry is the cell at column k; these are the n cells
   * whose index has row y, in index order.
   */
  function Row<T>(g: seq<T>, n: nat, y: nat): (r: seq<T>)
    requires |g| == n * n && y < n
    ensures |r| == n
    ensures forall k :: 0 <= k < n ==> Index(n, k, y) < |g| && r[k] == g[Index(n, k, y)]
  {
    IndexBound(n, 0, y);
    IndexBound(n, n - 1, y);
    g[y * n .. y * n + n]
  }

  /**
   * Column x: the k-th entry is the cell at row k; these are the n cells
   * whose index has column x, in index order.
   */
  function Col<T>(g: seq<T>, n: nat, x: nat): (r: seq<T>)
    requires |g| == n * n && x < n
    ensures |r| == n
    ensures forall k :: 0 <= k < n ==> Index(n, x, k) < |g| && r[k] == g[Index(n, x, k)]
  {
    ColumnBound(n, x);
    seq(n, k requires 0 <= k < n => g[Index(n, x, k)])
  }

  lemma ColumnBound(n: nat, x: nat)
    requires x < n
    ensures forall k :: 0 <= k < n ==> Index(n, x, k) < n * n
  {
    forall k | 0 <= k < n ensures Index(n, x, k) < n * n {
      IndexBound(n, x, k);
    }
  }

  /**
   * The row is the filter of the grid by row number: each cell whose index
   * lies in row y appears in it at the position of its column, and each
   * position k of it comes from an index lying in row y.
   */
  lemma RowIsRowFilter<T>(g: seq<T>, n: nat, y: nat)
    requires |g| == n * n && y < n
    ensures forall i :: 0 <= i < |g| && i / n == y ==> Row(g, n, y)[i % n] == g[i]
    ensures forall k :: 0 <= k < n ==> Index(n, k, y) / n == y && Index(n, k, y) % n == k
  {
    forall i | 0 <= i < |g| && i / n == y ensures Row(g, n, y)[i % n] == g[i] {
      CoordsOfIndex(n, i);
    }
    forall k | 0 <= k < n ensures Index(n, k, y) / n == y && Index(n, k, y) % n == k {
      IndexCoords(n, k, y);
    }
  }

  /**
   * The column is the filter of the grid by column number: each cell whose
   * index lies in column x appears in it at the position of its row, and each
   * position k of it comes from an index lying in column x.
   */
  lemma ColIsColFilter<T>(g: seq<T>, n: nat, x: nat)
    requires |g| == n * n && x < n
    ensures forall i :: 0 <= i < |g| && i % n == x ==> Col(g, n, x)[i / n] == g[i]
    ensures forall k :: 0 <= k < n ==> Index(n, x, k) % n == x && Index(n, x, k) / n == k
  {
    forall i | 0 <= i < |g| && i % n == x ensures Col(g, n, x)[i / n] == g[i] {
      CoordsOfIndex(n, i);
      DivNonneg(i, n);
      var row: nat := i / n;
      assert Index(n, x, row) == i;
      assert Col(g, n, x)[row] == g[Index(n, x, row)];
    }
    forall k | 0 <= k < n ensures Index(n, x, k) % n == x && Index(n, x, k) / n == k {
      IndexCoords(n, x, k);
    }
  }

  /** Writing one cell leaves every other row as it was. */
  lemma UpdateOtherRow<T>(g: seq<T>, n: nat, i: nat, v: T, y: nat)
    requires |g| == n * n && i < |g| && y < n && i / n != y
    ensures Row(g[i := v], n, y) == Row(g, n, y)
  {
    forall k | 0 <= k < n ensures Row(g[i := v], n, y)[k] == Row(g, n, y)[k] {
      IndexCoords(n, k, y);
    }
  }

  /** Writing one cell leaves every other column as it was. */
  lemma UpdateOtherCol<T>(g: seq<T>, n: nat, i: nat, v: T, x: nat)
    requires |g| == n * n && i < |g| && x < n && i % n != x
    ensures Col(g[i := v], n, x) == Col(g, n, x)
  {
    forall k | 0 <= k < n ensures Col(g[i := v], n, x)[k] == Col(g, n, x)[k] {
      IndexCoords(n, x, k);
    }
  }
}
