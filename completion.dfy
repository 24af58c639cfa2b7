/**
 * What it means to solve a board: a completion keeps every field of every
 * cell, keeps every digit already placed, fills every empty cell and leaves
 * no duplicate digit in any house. The solver and the uniqueness oracle are
 * specified in these terms.
 */
module Completions {
  import opened Wrappers
  import opened Digits
  import opened CandidateSets
  import opened Coords
  import opened Board

  /** Every cell holds a digit. */
  predicate Complete(s: Board)
  {
    forall i :: 0 <= i < |s| ==> s[i].digit.Some?
  }

  /** `s` only adds digits to the empty cells of `b`; all other fields are kept. */
  predicate Extends(b: Board, s: Board)
  {
    |s| == |b| &&
    forall i :: 0 <= i < |b| ==>
      s[i].coord == b[i].coord && s[i].candidates == b[i].candidates && s[i].isGiven == b[i].isGiven &&
      (b[i].digit.Some? ==> s[i].digit == b[i].digit)
  }

  /** A solution of `b`. */
  predicate IsCompletion(b: Board, s: Board)
  {
    |b| == 81 && Extends(b, s) && Complete(s) && NoDuplicateDigits(s)
  }

  ghost predicate HasCompletion(b: Board)
  {
    exists s :: IsCompletion(b, s)
  }

  /** `b` has exactly one solution. */
  ghost predicate UniqueCompletion(b: Board)
  {
    HasCompletion(b) && forall s, t :: IsCompletion(b, s) && IsCompletion(b, t) ==> s == t
  }

  lemma IsFilledComplete(s: Board)
    ensures IsFilled(s) <==> Complete(s)
  {
    CountFilledBounds(s);
  }

  lemma ExtendsTransitive(a: Board, b: Board, c: Board)
    requires Extends(a, b) && Extends(b, c)
    ensures Extends(a, c)
  {
  }

  /** Two boards that agree on every field of every cell are equal. */
  lemma BoardsEqual(s: Board, t: Board)
    requires |s| == |t|
    requires forall i :: 0 <= i < |s| ==>
      s[i].coord == t[i].coord && s[i].digit == t[i].digit &&
      s[i].candidates == t[i].candidates && s[i].isGiven == t[i].isGiven
    ensures s == t
  {
    assert forall i :: 0 <= i < |s| ==> s[i] == t[i];
  }

  /** A complete board without duplicates is a completion of itself. */
  lemma SolvedIsOwnCompletion(b: Board)
    requires |b| == 81 && Complete(b) && NoDuplicateDigits(b)
    ensures IsCompletion(b, b)
  {
  }

  /** A complete board without duplicates is its own one and only completion. */
  lemma SolvedIsUnique(b: Board)
    requires |b| == 81 && Complete(b) && NoDuplicateDigits(b)
    ensures IsCompletion(b, b)
    ensures forall t :: IsCompletion(b, t) ==> t == b
    ensures UniqueCompletion(b)
  {
    forall t | IsCompletion(b, t)
      ensures t == b
    {
      BoardsEqual(t, b);
    }
    assert IsCompletion(b, b);
  }

  /** Only a board without duplicate digits can have a completion. */
  lemma CompletionNeedsNoDuplicates(b: Board, s: Board)
    requires IsCompletion(b, s)
    ensures NoDuplicateDigits(b)
  {
    forall i, j | 0 <= i < 81 && 0 <= j < 81 && i != j && SameHouse(i, j) && b[i].digit.Some?
      ensures b[i].digit != b[j].digit
    {
      assert s[i].digit != s[j].digit;
    }
  }

  /** In any completion, the digit that fills an empty cell is one of that cell's candidates. */
  lemma CompletionDigitIsCandidate(b: Board, s: Board, i: nat)
    requires IsCompletion(b, s) && i < 81 && b[i].digit.None?
    ensures CandidatesOf(b, Flat(i)).Contains(s[i].digit.value)
  {
    var d := s[i].digit.value;
    CandidatesOfContains(b, i, d);
    forall j | 0 <= j < 81 && SameHouse(i, j)
      ensures b[j].digit != Some(d)
    {
      if j != i {
        assert s[i].digit != s[j].digit;
      }
    }
  }

  /** A completion that fills cell `i` with `d` is a completion of the board with `d` placed there. */
  lemma CompletionOfPlaced(b: Board, s: Board, i: nat)
    requires IsCompletion(b, s) && i < 81 && b[i].digit.None?
    ensures IsCompletion(WithDigit(b, i, s[i].digit), s)
  {
  }

  /** Conversely, a completion of the board with an empty cell filled is a completion of the board. */
  lemma PlacedCompletion(b: Board, s: Board, i: nat, d: Digit)
    requires |b| == 81 && i < 81 && b[i].digit.None?
    requires IsCompletion(WithDigit(b, i, Some(d)), s)
    ensures IsCompletion(b, s)
  {
  }

  /** Placing a candidate digit into a board without duplicates creates none. */
  lemma PlaceCandidateKeepsNoDuplicates(b: Board, i: nat, d: Digit)
    requires NoDuplicateDigits(b) && i < 81
    requires CandidatesOf(b, Flat(i)).Contains(d)
    ensures NoDuplicateDigits(WithDigit(b, i, Some(d)))
  {
    var b' := WithDigit(b, i, Some(d));
    CandidatesOfContains(b, i, d);
    forall x, y | 0 <= x < 81 && 0 <= y < 81 && x != y && SameHouse(x, y) && b'[x].digit.Some?
      ensures b'[x].digit != b'[y].digit
    {
      if x == i {
        assert b[y].digit != Some(d);
      } else if y == i {
        assert SameHouse(i, x);
        assert b[x].digit != Some(d);
      }
    }
  }

  /** Filling one empty cell leaves one fewer empty cell. */
  lemma PlaceDecreasesUnfilled(b: Board, i: nat, d: Digit)
    requires i < |b| && b[i].digit.None?
    ensures CountUnfilled(WithDigit(b, i, Some(d))) == CountUnfilled(b) - 1
  {
    CountFilledUpdate(b, i, b[i].(digit := Some(d)));
  }

  /** Writing the digit a cell already has changes nothing; a second write replaces the first. */
  lemma WithDigitSelf(b: Board, i: nat)
    requires i < |b|
    ensures WithDigit(b, i, b[i].digit) == b
  {
    BoardsEqual(WithDigit(b, i, b[i].digit), b);
  }

  lemma WithDigitTwice(b: Board, i: nat, x: Option<Digit>, y: Option<Digit>)
    requires i < |b|
    ensures WithDigit(WithDigit(b, i, x), i, y) == WithDigit(b, i, y)
  {
    BoardsEqual(WithDigit(WithDigit(b, i, x), i, y), WithDigit(b, i, y));
  }

  /** Distinct values have as many elements in their set as in their list. */
  lemma {:induction false} DistinctValuesCard(xs: seq<int>)
    requires forall k, l :: 0 <= k < l < |xs| ==> xs[k] != xs[l]
    ensures |set k | 0 <= k < |xs| :: xs[k]| == |xs|
  {
    if xs != [] {
      DistinctValuesCard(xs[1..]);
      var tail := set k | 0 <= k < |xs[1..]| :: xs[1..][k];
      assert (set k | 0 <= k < |xs| :: xs[k]) == {xs[0]} + tail;
      assert xs[0] !in tail;
    }
  }

  /**
   * Pigeonhole: a house of a solved board holds all nine digits, because its
   * nine digits are pairwise different.
   */
  lemma SolvedHouseHasEveryDigit(s: Board, house: seq<nat>, d: Digit)
    requires |s| == 81 && Complete(s) && NoDuplicateDigits(s) && IsHouse(house)
    ensures exists k :: 0 <= k < 9 && s[house[k]].digit == Some(d)
  {
    var xs := seq(9, k requires 0 <= k < 9 => s[house[k]].digit.value as int);
    forall k, l | 0 <= k < l < 9
      ensures xs[k] != xs[l]
    {
      assert SameHouse(house[k], house[l]);
    }
    DistinctValuesCard(xs);
    if forall k :: 0 <= k < 9 ==> s[house[k]].digit != Some(d) {
      var seen := set k | 0 <= k < 9 :: xs[k];
      var rest := seq(8, m requires 0 <= m < 8 => if m + 1 < d as int then m + 1 else m + 2);
      var others := set m | 0 <= m < 8 :: rest[m];
      forall k | 0 <= k < 9
        ensures xs[k] in others
      {
        var m := if xs[k] < d as int then xs[k] - 1 else xs[k] - 2;
        assert rest[m] == xs[k];
      }
      DistinctValuesCard(rest);
      SubsetCard(seen, others);
    }
  }

  lemma SubsetCard(a: set<int>, b: set<int>)
    requires a <= b
    ensures |a| <= |b|
  {
    assert b == a + (b - a);
  }
}
