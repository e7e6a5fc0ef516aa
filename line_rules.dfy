/**
 * The two rules every row and column obeys: no three equal symbols next to
 * each other (an empty cell breaks a run) and balance (the difference
 * between suns and moons can still be made up by the empty cells, so a full
 * line holds as many suns as moons). The player's grid and the solution grid
 * each have their own checker in the component; both are proved to decide
 * the same rules.
 */
module LineRules {
  import opened Cells

  /** Positions j, j+1 and j+2 hold the same symbol. */
  predicate TripleAt(s: seq<Cell>, j: nat)
    requires j + 2 < |s|
  {
    s[j] != Empty && s[j] == s[j + 1] && s[j + 1] == s[j + 2]
  }

  /** The run rule: no three equal symbols in a row. */
  predicate NoTriple(s: seq<Cell>)
  {
    forall j: nat :: j + 2 < |s| ==> !TripleAt(s, j)
  }

  function Abs(v: int): nat
  {
    if v < 0 then -v else v
  }

  /** The balance rule: the empties could still even out suns and moons. */
  predicate Balanced(s: seq<Cell>)
  {
    Abs(Count(s, Sun) - Count(s, Moon)) <= Count(s, Empty)
  }

  /** A line the player may keep: both rules hold. */
  predicate LineOk(s: seq<Cell>)
  {
    NoTriple(s) && Balanced(s)
  }

  /** On a full line the balance rule asks for exactly as many suns as moons. */
  lemma FullLineBalance(s: seq<Cell>)
    requires forall k :: 0 <= k < |s| ==> s[k] != Empty
    ensures Balanced(s) <==> Count(s, Sun) == Count(s, Moon)
  {
    NoEmptyIff(s);
  }

  /**
   * The balance half of the player's line check: counts taken over the
   * filled cells; with an empty cell left the imbalance may not exceed the
   * number of empties, otherwise the counts must be equal.
   */
  function UserBalance(s: seq<Cell>): (ok: bool)
    ensures ok == Balanced(s)
  {
    var filled := Filled(s);
    var suns := Count(filled, Sun);
    var moons := Count(filled, Moon);
    var empties := |s| - |filled|;
    if empties > 0 then Abs(suns - moons) <= empties else suns == moons
  }

  /**
   * The solution grid's balance check: a line with no `null` entry must
   * hold equal counts, otherwise the imbalance may not exceed the nulls.
   */
  function SolutionBalance(s: seq<Cell>): (ok: bool)
    ensures ok == Balanced(s)
  {
    NoEmptyIff(s);
    var suns := Count(s, Sun);
    var moons := Count(s, Moon);
    if forall k :: 0 <= k < |s| ==> s[k] != Empty then suns == moons
    else Abs(suns - moons) <= Count(s, Empty)
  }

  /**
   * The player's line check: a single pass counting the current run of one
   * symbol (an empty cell resets it), stopping at a third equal symbol,
   * followed by the balance test.
   */
  method ValidateUserSequence(s: seq<Cell>) returns (ok: bool)
    ensures ok == LineOk(s)
  {
    var count := 1;
    var prev := Empty;
    var i := 0;
    while i < |s|
      invariant 0 <= i <= |s|
      invariant prev == if i == 0 then Empty else s[i - 1]
      invariant count == if i >= 2 && prev != Empty && s[i - 2] == prev then 2 else 1
      invariant forall j: nat :: j + 2 < i ==> !TripleAt(s, j)
    {
      var current := s[i];
      if current == Empty {
        count := 1;
        prev := Empty;
        i := i + 1;
        continue;
      }
      if prev != Empty && prev == current {
        count := count + 1;
        if count >= 3 {
          assert TripleAt(s, i - 2);
          return false;
        }
      } else {
        count := 1;
      }
      prev := current;
      i := i + 1;
    }
    ok := UserBalance(s);
  }

  /**
   * The solution grid's run check: compares each entry with the one before,
   * counting equal non-null neighbours and failing when a run passes two.
   */
  method ValidateSolutionSequence(s: seq<Cell>) returns (ok: bool)
    ensures ok == NoTriple(s)
  {
    var count := 1;
    var i := 1;
    while i < |s|
      invariant 1 <= i <= |s| || (s == [] && i == 1)
      invariant count == if i >= 2 && s[i - 1] != Empty && s[i - 2] == s[i - 1] then 2 else 1
      invariant forall j: nat :: j + 2 < i ==> !TripleAt(s, j)
    {
      if s[i - 1] != Empty && s[i] != Empty && s[i - 1] == s[i] {
        count := count + 1;
        if count > 2 {
          assert TripleAt(s, i - 2);
          return false;
        }
      } else {
        count := 1;
      }
      i := i + 1;
    }
    return true;
  }

  /** An empty cell breaks a run: sun, sun, empty, sun keeps the run rule. */
  lemma EmptyBreaksRun()
    ensures NoTriple([Sun, Sun, Empty, Sun])
  {
    var s := [Sun, Sun, Empty, Sun];
    forall j: nat | j + 2 < |s| ensures !TripleAt(s, j) {
      assert j == 0 || j == 1;
    }
  }

  /** A line of empty cells keeps both rules. */
  lemma {:induction false} EmptyLineOk(s: seq<Cell>)
    requires forall k :: 0 <= k < |s| ==> s[k] == Empty
    ensures LineOk(s)
  {
    if s != [] {
      EmptyLineOk(s[1..]);
      assert Count(s, Sun) == Count(s[1..], Sun);
      assert Count(s, Moon) == Count(s[1..], Moon);
    }
  }
}
