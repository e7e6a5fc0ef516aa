/**
 * The three states of a cell of the sun/moon puzzle, shared by the player's
 * grid and the solution grid, and the counting functions the line rules use.
 */
module Cells {

  /**
   * A cell's state. In the web component the player's cell has no
   * `data-type` attribute (Empty) or `data-type` "sun"/"moon"; a solution
   * entry is `null` (Empty), 'sun' or 'moon'.
   */
  datatype Cell = Empty | Sun | Moon

  /** What one click turns a cell into: empty -> sun -> moon -> empty. */
  function Rotate(c: Cell): (r: Cell)
    ensures r != c
    ensures r == Empty <==> c == Moon
    ensures r == Moon <==> c == Sun
  {
    match c
    case Empty => Sun
    case Sun => Moon
    case Moon => Empty
  }

  /** Three clicks bring a cell back to where it started, through every state. */
  lemma RotateCycle(c: Cell)
    ensures Rotate(Rotate(Rotate(c))) == c
    ensures {c, Rotate(c), Rotate(Rotate(c))} == {Empty, Sun, Moon}
  {
  }

  /** The number of entries of `s` equal to `c` (a `filter(...).length`). */
  function Count(s: seq<Cell>, c: Cell): (r: nat)
    ensures r <= |s|
  {
    if s == [] then 0 else (if s[0] == c then 1 else 0) + Count(s[1..], c)
  }

  lemma {:induction false} CountAppend(s: seq<Cell>, t: seq<Cell>, c: Cell)
    ensures Count(s + t, c) == Count(s, c) + Count(t, c)
  {
    if s == [] {
      assert s + t == t;
    } else {
      assert (s + t)[1..] == s[1..] + t;
      CountAppend(s[1..], t, c);
    }
  }

  /** Every entry is one of the three states, so the three counts add up to the length. */
  lemma {:induction false} CountTotal(s: seq<Cell>)
    ensures Count(s, Empty) + Count(s, Sun) + Count(s, Moon) == |s|
  {
    if s != [] {
      CountTotal(s[1..]);
    }
  }

  /** A line has no empty entry exactly when its count of empties is zero. */
  lemma {:induction false} NoEmptyIff(s: seq<Cell>)
    ensures Count(s, Empty) == 0 <==> forall k :: 0 <= k < |s| ==> s[k] != Empty
  {
    if s != [] {
      NoEmptyIff(s[1..]);
      if Count(s, Empty) == 0 {
        forall k | 0 <= k < |s| ensures s[k] != Empty {
          if k > 0 { assert s[k] == s[1..][k - 1]; }
        }
      } else if s[0] != Empty {
        var k :| 0 <= k < |s[1..]| && s[1..][k] == Empty;
        assert s[k + 1] == Empty;
      }
    }
  }

  /**
   * The filled entries of a line, in order (`cells.filter(cell =>
   * cell.getAttribute('data-type'))`): it drops exactly the empties and
   * keeps every sun and moon.
   */
  function Filled(s: seq<Cell>): (r: seq<Cell>)
    ensures |r| + Count(s, Empty) == |s|
    ensures Count(r, Empty) == 0
    ensures Count(r, Sun) == Count(s, Sun) && Count(r, Moon) == Count(s, Moon)
  {
    if s == [] then []
    else
      var rest := Filled(s[1..]);
      if s[0] == Empty then rest
      else
        assert ([s[0]] + rest)[1..] == rest;
        [s[0]] + rest
  }

  /** Filtering a line with no empty entry gives the line back. */
  lemma {:induction false} FilledOfFull(s: seq<Cell>)
    requires Count(s, Empty) == 0
    ensures Filled(s) == s
  {
    if s != [] {
      FilledOfFull(s[1..]);
    }
  }
}
