/**
 * The backtracking solver of src/solve/brute_force.rs: choose the empty cell
 * with the fewest candidates, try its candidates in ascending order, recurse,
 * and clear the cell again when every candidate fails.
 */
module BruteForce {
  import opened Wrappers
  import opened Digits
  import opened CandidateSets
  import opened Coords
  import opened Board
  import opened BoardOps
  import opened Completions

  /** `Solve::solve` for `BruteForceSolver`: runs `solve_inner` on the board. */
  method Solve(a: array<Cell>) returns (solved: bool)
    requires a.Length == 81
    modifies a
    ensures solved ==> Complete(a[..]) && Extends(old(a[..]), a[..])
    ensures solved && NoDuplicateDigits(old(a[..])) ==> IsCompletion(old(a[..]), a[..])
    ensures !solved ==> a[..] == old(a[..]) && !HasCompletion(old(a[..]))
  {
    solved := SolveInner(a);
  }

  /** `usize::MAX`, the starting value of the best count (64-bit target). */
  const USIZE_MAX: nat := 0xFFFF_FFFF_FFFF_FFFF

  /**
   * `cell_with_least_candidates`: the first empty cell whose candidate count
   * is strictly below every count seen before it, stopping at once at a count
   * of at most one. None exactly when no cell is empty.
   */
  method CellWithLeastCandidates(b: Board) returns (r: Option<(nat, Candidates)>)
    requires |b| == 81
    ensures r.None? <==> Complete(b)
    ensures r.Some? ==> r.value.0 < 81 && b[r.value.0].digit.None? && r.value.1 == CandidatesOf(b, Flat(r.value.0))
    ensures r.Some? ==> forall j {:trigger CandidatesOf(b, Flat(j))} :: 0 <= j < r.value.0 && b[j].digit.None? ==>
      CandidatesOf(b, Flat(j)).Count() > r.value.1.Count()
    ensures r.Some? && r.value.1.Count() > 1 ==> forall j {:trigger CandidatesOf(b, Flat(j))} :: r.value.0 < j < 81 && b[j].digit.None? ==>
      CandidatesOf(b, Flat(j)).Count() >= r.value.1.Count()
  {
    var bestCandidatesCount := USIZE_MAX;
    r := None;
    for i := 0 to 81
      invariant forall j {:trigger CandidatesOf(b, Flat(j))} :: 0 <= j < i && b[j].digit.None? ==> CandidatesOf(b, Flat(j)).Count() >= bestCandidatesCount
      invariant r.None? ==> bestCandidatesCount == USIZE_MAX && forall j :: 0 <= j < i ==> b[j].digit.Some?
      invariant r.Some? ==> r.value.0 < i && b[r.value.0].digit.None? && r.value.1 == CandidatesOf(b, Flat(r.value.0))
      invariant r.Some? ==> bestCandidatesCount == r.value.1.Count() && bestCandidatesCount > 1
      invariant r.Some? ==> forall j {:trigger CandidatesOf(b, Flat(j))} :: 0 <= j < r.value.0 && b[j].digit.None? ==> CandidatesOf(b, Flat(j)).Count() > bestCandidatesCount
    {
      ghost var oldBest := bestCandidatesCount;
      if b[i].digit.None? {
        var candidates := CellCandidates(b, Flat(i));
        var candidatesCount := candidates.Count();
        if candidatesCount < bestCandidatesCount {
          bestCandidatesCount := candidatesCount;
          r := Some((i, candidates));
          if bestCandidatesCount <= 1 {
            return;
          }
        }
      }
      CountsStayAboveBest(b, i, oldBest, bestCandidatesCount);
    }
  }

  /** One step of the scan: lowering the best count keeps every count seen so far at or above it. */
  lemma CountsStayAboveBest(b: Board, i: nat, oldBest: nat, newBest: nat)
    requires |b| == 81 && i < 81
    requires forall j {:trigger CandidatesOf(b, Flat(j))} :: 0 <= j < i && b[j].digit.None? ==> CandidatesOf(b, Flat(j)).Count() >= oldBest
    requires newBest <= oldBest
    requires b[i].digit.None? ==> CandidatesOf(b, Flat(i)).Count() >= newBest
    ensures forall j {:trigger CandidatesOf(b, Flat(j))} :: 0 <= j < i + 1 && b[j].digit.None? ==> CandidatesOf(b, Flat(j)).Count() >= newBest
  {
  }

  /** No board with one of the first `k` of `digits` written into cell `index` has a solution. */
  ghost predicate NoneSolvable(b: Board, index: nat, digits: seq<Digit>, k: nat)
  {
    index < |b| && forall m :: 0 <= m < k && m < |digits| ==> !HasCompletion(WithDigit(b, index, Some(digits[m])))
  }

  lemma OneMoreUnsolvable(b: Board, index: nat, digits: seq<Digit>, k: nat, placed: Board)
    requires NoneSolvable(b, index, digits, k) && k < |digits|
    requires placed == WithDigit(b, index, Some(digits[k])) && !HasCompletion(placed)
    ensures NoneSolvable(b, index, digits, k + 1)
  {
  }

  /**
   * A solution found after writing a candidate into an empty cell is filled,
   * keeps every digit of the board before the write and, from a board without
   * duplicates, solves it.
   */
  lemma SolvedAfterPlacing(b: Board, index: nat, digit: Digit, placed: Board, s: Board)
    requires |b| == 81 && index < 81 && b[index].digit.None?
    requires CandidatesOf(b, Flat(index)).Contains(digit)
    requires placed == WithDigit(b, index, Some(digit))
    requires Complete(s) && Extends(placed, s)
    requires NoDuplicateDigits(placed) ==> IsCompletion(placed, s)
    ensures Complete(s) && Extends(b, s)
    ensures NoDuplicateDigits(b) ==> IsCompletion(b, s)
  {
    ExtendsTransitive(b, placed, s);
    if NoDuplicateDigits(b) {
      PlaceCandidateKeepsNoDuplicates(b, index, digit);
      PlacedCompletion(b, s, index, digit);
    }
  }

  /** When every candidate of an empty cell leads to no solution, the board has none. */
  lemma ExhaustedCandidates(b: Board, index: nat, digits: seq<Digit>)
    requires |b| == 81 && index < 81 && b[index].digit.None?
    requires digits == CandidatesOf(b, Flat(index)).Digits()
    requires NoneSolvable(b, index, digits, |digits|)
    ensures !HasCompletion(b)
  {
    if HasCompletion(b) {
      var s: Board :| IsCompletion(b, s);
      CompletionDigitIsCandidate(b, s, index);
      DigitsSpec(CandidatesOf(b, Flat(index)));
      var m :| 0 <= m < |digits| && digits[m] == s[index].digit.value;
      CompletionOfPlaced(b, s, index);
      assert false;
    }
  }

  /**
   * `solve_inner`. On success the board is filled and keeps every digit it had
   * (and, from a board without duplicates, is a solution of it); on failure the
   * board is exactly as it was and no solution exists.
   */
  method SolveInner(a: array<Cell>) returns (solved: bool)
    requires a.Length == 81
    modifies a
    ensures solved ==> Complete(a[..]) && Extends(old(a[..]), a[..])
    ensures solved && NoDuplicateDigits(old(a[..])) ==> IsCompletion(old(a[..]), a[..])
    ensures !solved ==> a[..] == old(a[..]) && !HasCompletion(old(a[..]))
    decreases CountUnfilled(a[..])
  {
    ghost var b := a[..];
    var best := CellWithLeastCandidates(a[..]);
    if best.None? {
      if NoDuplicateDigits(b) {
        SolvedIsOwnCompletion(b);
      }
      return true;
    }
    var index, candidates := best.value.0, best.value.1;
    var digits := candidates.Digits();
    DigitsSpec(candidates);
    ghost var cur: Option<Digit> := None;
    WithDigitSelf(b, index);
    for k := 0 to |digits|
      invariant a[..] == WithDigit(b, index, cur)
      invariant NoneSolvable(b, index, digits, k)
    {
      var digit := digits[k];
      var _ := SetCell(a, Flat(index), digit);
      WithDigitTwice(b, index, cur, Some(digit));
      cur := Some(digit);
      PlaceDecreasesUnfilled(b, index, digit);
      ghost var placed := a[..];
      var r := SolveInner(a);
      if r {
        assert digit in digits;
        SolvedAfterPlacing(b, index, digit, placed, a[..]);
        return true;
      }
      OneMoreUnsolvable(b, index, digits, k, placed);
    }
    var _ := ClearCell(a, Flat(index));
    WithDigitTwice(b, index, cur, None);
    ExhaustedCandidates(b, index, digits);
    solved := false;
  }

  // ---------------------------------------------------------------------------
  // Hidden singles (`get_unique_candidate`, unused by `solve_inner`)

  /**
   * The houses of the cell at `cellIndex` in the order `get_unique_candidate`
   * visits them: its row, its column, its box.
   */
  function CellHouses(cellIndex: nat): (houses: seq<seq<nat>>)
    ensures |houses| == 3
  {
    var c := FromIndex(cellIndex);
    [RowIndices(c.row), ColIndices(c.col), SquareIndicesOfCell(c)]
  }

  /** Every index the three houses visit is a position of `allCandidates`; the source panics otherwise. */
  predicate HousesIndexable(allCandidates: seq<Candidates>, cellIndex: nat)
  {
    forall h, k :: 0 <= h < 3 && 0 <= k < |CellHouses(cellIndex)[h]| ==> CellHouses(cellIndex)[h][k] < |allCandidates|
  }

  /** `unique_in_house`: no cell of `house` other than `cellIndex` lists `digit`. */
  function UniqueInHouse(house: seq<nat>, allCandidates: seq<Candidates>, cellIndex: nat, digit: Digit): bool
    requires forall k :: 0 <= k < |house| ==> house[k] < |allCandidates|
  {
    !exists k :: 0 <= k < |house| && house[k] != cellIndex && allCandidates[house[k]].Contains(digit)
  }

  /** `digit` is listed nowhere else in at least one house of the cell. */
  predicate HiddenSingle(allCandidates: seq<Candidates>, cellIndex: nat, digit: Digit)
    requires HousesIndexable(allCandidates, cellIndex)
  {
    exists h :: 0 <= h < 3 && UniqueInHouse(CellHouses(cellIndex)[h], allCandidates, cellIndex, digit)
  }

  /**
   * `get_unique_candidate`: the least candidate of the cell that no other cell
   * of its row, column or box lists, or `None` when there is none.
   */
  method GetUniqueCandidate(allCandidates: seq<Candidates>, cellIndex: nat, cellCandidates: Candidates)
    returns (r: Option<Digit>)
    requires HousesIndexable(allCandidates, cellIndex)
    ensures r.Some? ==> cellCandidates.Contains(r.value) && HiddenSingle(allCandidates, cellIndex, r.value)
    ensures forall d: Digit :: cellCandidates.Contains(d) && (r.None? || d < r.value) ==>
      !HiddenSingle(allCandidates, cellIndex, d)
  {
    var houses := CellHouses(cellIndex);
    var digits := cellCandidates.Digits();
    DigitsSpec(cellCandidates);
    for k := 0 to |digits|
      invariant forall m :: 0 <= m < k ==> !HiddenSingle(allCandidates, cellIndex, digits[m])
    {
      var digit := digits[k];
      HiddenSingleCases(allCandidates, cellIndex, digit);
      if UniqueInHouse(houses[0], allCandidates, cellIndex, digit) {
        r := Some(digit);
        EarlierDigitsNotHidden(allCandidates, cellIndex, cellCandidates, k);
        return;
      }
      if UniqueInHouse(houses[1], allCandidates, cellIndex, digit) {
        r := Some(digit);
        EarlierDigitsNotHidden(allCandidates, cellIndex, cellCandidates, k);
        return;
      }
      if UniqueInHouse(houses[2], allCandidates, cellIndex, digit) {
        r := Some(digit);
        EarlierDigitsNotHidden(allCandidates, cellIndex, cellCandidates, k);
        return;
      }
    }
    EarlierDigitsNotHidden(allCandidates, cellIndex, cellCandidates, |digits|);
    return None;
  }

  /** A hidden single is one in the row, in the column or in the box. */
  lemma HiddenSingleCases(allCandidates: seq<Candidates>, cellIndex: nat, digit: Digit)
    requires HousesIndexable(allCandidates, cellIndex)
    ensures var houses := CellHouses(cellIndex);
      HiddenSingle(allCandidates, cellIndex, digit) <==>
        UniqueInHouse(houses[0], allCandidates, cellIndex, digit) ||
        UniqueInHouse(houses[1], allCandidates, cellIndex, digit) ||
        UniqueInHouse(houses[2], allCandidates, cellIndex, digit)
  {
  }

  /**
   * When none of the first `k` listed digits is a hidden single, no candidate
   * below the `k`-th listed one is (no candidate at all when `k` is the count).
   */
  lemma EarlierDigitsNotHidden(allCandidates: seq<Candidates>, cellIndex: nat, c: Candidates, k: nat)
    requires HousesIndexable(allCandidates, cellIndex) && k <= |c.Digits()|
    requires forall m :: 0 <= m < k ==> !HiddenSingle(allCandidates, cellIndex, c.Digits()[m])
    ensures forall d: Digit :: c.Contains(d) && (k == |c.Digits()| || d < c.Digits()[k]) ==>
      !HiddenSingle(allCandidates, cellIndex, d)
  {
    forall d: Digit | c.Contains(d) && (k == |c.Digits()| || d < c.Digits()[k])
      ensures !HiddenSingle(allCandidates, cellIndex, d)
    {
      var m := ListedBefore(c, k, d);
    }
  }

  /** A candidate below the `k`-th listed digit is one of the first `k`. */
  lemma ListedBefore(c: Candidates, k: nat, d: Digit) returns (m: nat)
    requires k <= |c.Digits()| && c.Contains(d) && (k == |c.Digits()| || d < c.Digits()[k])
    ensures m < k && c.Digits()[m] == d
  {
    DigitsSpec(c);
    var digits := c.Digits();
    m :| 0 <= m < |digits| && digits[m] == d;
  }

  /** The three houses of a cell really are houses through it. */
  lemma CellHousesAreHouses(i: nat)
    requires i < 81
    ensures forall h :: 0 <= h < 3 ==> IsHouse(CellHouses(i)[h])
    ensures forall h, k :: 0 <= h < 3 && 0 <= k < 9 ==> SameHouse(i, CellHouses(i)[h][k])
  {
    RowIsHouse(i);
    ColIsHouse(i);
    BoxIsHouse(i);
  }

  /**
   * The hidden-single rule is sound: when the cell's own candidates and the
   * board's `all_candidates` say that `d` fits the empty cell `i` and fits no
   * other cell of one of its houses, every solution puts `d` at `i`.
   */
  lemma HiddenSingleIsForced(b: Board, i: nat, d: Digit, s: Board)
    requires |b| == 81 && i < 81 && HousesIndexable(AllCandidates(b), i)
    requires CandidatesOf(b, Flat(i)).Contains(d) && HiddenSingle(AllCandidates(b), i, d)
    requires IsCompletion(b, s)
    ensures s[i].digit == Some(d)
  {
    var all := AllCandidates(b);
    var h :| 0 <= h < 3 && UniqueInHouse(CellHouses(i)[h], all, i, d);
    var house := CellHouses(i)[h];
    CellHousesAreHouses(i);
    SolvedHouseHasEveryDigit(s, house, d);
    var k :| 0 <= k < 9 && s[house[k]].digit == Some(d);
    var j := house[k];
    if j != i {
      assert SameHouse(i, j);
      if b[j].digit.Some? {
        CandidatesOfContains(b, i, d);
        assert false;
      } else {
        CompletionDigitIsCandidate(b, s, j);
        AllCandidatesContains(b, j, d);
        assert false;
      }
    }
  }
}
