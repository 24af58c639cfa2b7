/**
 * The uniqueness oracle of src/sudoku.rs: `count_solutions` places every
 * candidate of every empty cell into a fresh copy of the board, runs the
 * backtracking solver on it and collects the solved boards, and `is_unique`
 * asks whether exactly one was found with a limit of two.
 */
module Uniqueness {
  import opened Wrappers
  import opened Digits
  import opened CandidateSets
  import opened Coords
  import opened Board
  import opened BoardOps
  import opened Completions
  import opened BruteForce

  /** The boards on which the oracle's answer is meaningful: no duplicate digit, and every cell records its own position. */
  predicate WellFormed(b: Board)
  {
    NoDuplicateDigits(b) && CanonicalCoords(b)
  }

  /** Every completion of `b` agrees on cell `j` with some board of `seen`. */
  ghost predicate Covered(b: Board, seen: set<Board>, j: nat)
  {
    forall t: Board :: IsCompletion(b, t) ==> exists s: Board :: s in seen && j < |s| && j < |t| && s[j].digit == t[j].digit
  }

  /**
   * Lines 84-88 of `count_solutions`: a copy of the board with `digit` written
   * at the cell's coordinate, handed to the solver. On a well-formed board,
   * success yields a solution of the board that has `digit` at cell `i`, and
   * failure means no solution has `digit` there.
   */
  method SolveWithDigit(b: Board, i: nat, digit: Digit) returns (solved: bool, s: Board)
    requires |b| == 81 && i < 81 && b[i].digit.None?
    ensures solved ==> Complete(s) && |s| == 81
    ensures WellFormed(b) && CandidatesOf(b, Flat(i)).Contains(digit) && solved ==>
      IsCompletion(b, s) && s[i].digit == Some(digit)
    ensures WellFormed(b) && !solved ==>
      forall t: Board :: IsCompletion(b, t) ==> t[i].digit != Some(digit)
  {
    var sudoku := new Cell[81](k requires 0 <= k < 81 => b[k]);
    assert sudoku[..] == b;
    var _ := SetCell(sudoku, At(b[i].coord), digit);
    ghost var placed := sudoku[..];
    solved := Solve(sudoku);
    s := sudoku[..];
    if WellFormed(b) {
      IndexRoundTrip(i);
      assert placed == WithDigit(b, i, Some(digit));
      if solved && CandidatesOf(b, Flat(i)).Contains(digit) {
        PlaceCandidateKeepsNoDuplicates(b, i, digit);
        PlacedCompletion(b, s, i, digit);
      }
      if !solved {
        forall t: Board | IsCompletion(b, t)
          ensures t[i].digit != Some(digit)
        {
          if t[i].digit == Some(digit) {
            CompletionOfPlaced(b, t, i);
          }
        }
      }
    }
  }

  /** `solutions.iter().any(|s| s != &sudoku)`. */
  predicate AnyDiffers(solutions: seq<Board>, sudoku: Board)
  {
    exists k :: 0 <= k < |solutions| && solutions[k] != sudoku
  }

  /**
   * How the collected list relates to the set of solved boards met so far: it
   * stays within the limit, is empty only before the first, holds exactly the
   * one met while only one distinct board was met, and starts with two
   * different boards once it holds two.
   */
  ghost predicate Bookkeeping(solutions: seq<Board>, seen: set<Board>, limit: nat)
  {
    |solutions| <= limit &&
    (|solutions| == 0 ==> seen == {}) &&
    (|solutions| == 1 ==> seen == {solutions[0]}) &&
    (|solutions| >= 2 ==> solutions[0] != solutions[1] && solutions[0] in seen && solutions[1] in seen)
  }

  /** Every solution with `d` at cell `i` agrees there with some board of `seen`. */
  ghost predicate CoveredDigit(b: Board, seen: set<Board>, i: nat, d: Digit)
  {
    forall t: Board :: IsCompletion(b, t) && i < |t| && t[i].digit == Some(d) ==>
      exists s: Board :: s in seen && i < |s| && s[i].digit == Some(d)
  }

  /** Once every candidate of an empty cell has been tried, every solution's digit there has been met. */
  lemma CellCovered(b: Board, seen: set<Board>, i: nat, digits: seq<Digit>)
    requires |b| == 81 && i < 81 && b[i].digit.None?
    requires digits == CandidatesOf(b, Flat(i)).Digits()
    requires forall m :: 0 <= m < |digits| ==> CoveredDigit(b, seen, i, digits[m])
    ensures Covered(b, seen, i)
  {
    DigitsSpec(CandidatesOf(b, Flat(i)));
    forall t: Board | IsCompletion(b, t)
      ensures exists s: Board :: s in seen && i < |s| && i < |t| && s[i].digit == t[i].digit
    {
      CompletionDigitIsCandidate(b, t, i);
      var m :| 0 <= m < |digits| && digits[m] == t[i].digit.value;
      assert CoveredDigit(b, seen, i, digits[m]);
    }
  }

  /** With no solved board met and an empty cell covered, the board has no solution. */
  lemma NothingMetNoCompletion(b: Board, j: nat)
    requires |b| == 81 && j < 81 && b[j].digit.None? && Covered(b, {}, j)
    ensures !HasCompletion(b)
  {
  }

  /** With one solved board met and every empty cell covered, it is the only solution. */
  lemma OneMetUnique(b: Board, s: Board)
    requires IsCompletion(b, s)
    requires forall j :: 0 <= j < 81 && b[j].digit.None? ==> Covered(b, {s}, j)
    ensures UniqueCompletion(b)
  {
    forall t: Board | IsCompletion(b, t)
      ensures t == s
    {
      OnlyMet(b, s, t);
    }
  }

  lemma OnlyMet(b: Board, s: Board, t: Board)
    requires IsCompletion(b, s) && IsCompletion(b, t)
    requires forall j :: 0 <= j < 81 && b[j].digit.None? ==> Covered(b, {s}, j)
    ensures t == s
  {
    forall j | 0 <= j < 81
      ensures t[j].digit == s[j].digit
    {
      if b[j].digit.None? {
        CoveredBySingle(b, s, t, j);
      }
    }
    SameDigitsSameCompletion(b, s, t);
  }

  lemma CoveredBySingle(b: Board, s: Board, t: Board, j: nat)
    requires IsCompletion(b, t) && j < 81 && |s| == 81
    requires Covered(b, {s}, j)
    ensures t[j].digit == s[j].digit
  {
    var s': Board :| s' in {s} && j < |s'| && j < |t| && s'[j].digit == t[j].digit;
  }

  /** Two solutions of one board that agree on every digit are the same board. */
  lemma SameDigitsSameCompletion(b: Board, s: Board, t: Board)
    requires IsCompletion(b, s) && IsCompletion(b, t)
    requires forall j :: 0 <= j < 81 ==> t[j].digit == s[j].digit
    ensures t == s
  {
    BoardsEqual(t, s);
  }

  /** Two different solutions rule out uniqueness. */
  lemma TwoMetNotUnique(b: Board, s: Board, t: Board)
    requires IsCompletion(b, s) && IsCompletion(b, t) && s != t
    ensures HasCompletion(b) && !UniqueCompletion(b)
  {
  }

  /** Every solved board met so far is a solution of `b`. */
  ghost predicate AllSolutions(b: Board, seen: set<Board>)
  {
    forall s :: s in seen ==> IsCompletion(b, s)
  }

  /** Every empty cell before `i` is covered. */
  ghost predicate CoveredUpTo(b: Board, seen: set<Board>, i: nat)
  {
    forall j :: 0 <= j < i && j < |b| && b[j].digit.None? ==> Covered(b, seen, j)
  }

  /** The first `k` candidates of cell `i` are covered. */
  ghost predicate DigitsCovered(b: Board, seen: set<Board>, i: nat, digits: seq<Digit>, k: nat)
  {
    forall m :: 0 <= m < k && m < |digits| ==> CoveredDigit(b, seen, i, digits[m])
  }

  /** The board a solver run adds to the boards met: the solved board, or nothing. */
  function Met(seen: set<Board>, solved: bool, sudoku: Board): (more: set<Board>)
    ensures seen <= more
  {
    if solved then seen + {sudoku} else seen
  }

  /** Trying one more candidate keeps the met boards solutions and covers that candidate. */
  lemma TriedDigit(b: Board, seen: set<Board>, i: nat, digits: seq<Digit>, k: nat, solved: bool, sudoku: Board)
    requires |b| == 81 && i < 81 && k < |digits|
    requires AllSolutions(b, seen) && DigitsCovered(b, seen, i, digits, k)
    requires solved ==> IsCompletion(b, sudoku) && sudoku[i].digit == Some(digits[k])
    requires !solved ==> forall t: Board :: IsCompletion(b, t) ==> t[i].digit != Some(digits[k])
    ensures AllSolutions(b, Met(seen, solved, sudoku))
    ensures DigitsCovered(b, Met(seen, solved, sudoku), i, digits, k + 1)
  {
    var more := Met(seen, solved, sudoku);
    forall m | 0 <= m < k + 1 && m < |digits|
      ensures CoveredDigit(b, more, i, digits[m])
    {
      if m < k {
        assert CoveredDigit(b, seen, i, digits[m]);
      } else if solved {
        assert sudoku in more;
      }
    }
  }

  /** Having tried every candidate of an empty cell `i` extends the covered prefix past `i`. */
  lemma TriedCell(b: Board, before: set<Board>, seen: set<Board>, i: nat, digits: seq<Digit>)
    requires |b| == 81 && i < 81 && b[i].digit.None?
    requires before <= seen && CoveredUpTo(b, before, i)
    requires digits == CandidatesOf(b, Flat(i)).Digits()
    requires DigitsCovered(b, seen, i, digits, |digits|)
    ensures CoveredUpTo(b, seen, i + 1)
  {
    CellCovered(b, seen, i, digits);
    forall j | 0 <= j < i && b[j].digit.None?
      ensures Covered(b, seen, j)
    {
      assert Covered(b, before, j);
    }
  }

  /** The collected list and the boards met stay in step when a solved board is met but not kept. */
  lemma Skipped(solutions: seq<Board>, seen: set<Board>, limit: nat, sudoku: Board)
    requires Bookkeeping(solutions, seen, limit)
    requires |solutions| > 0 && !AnyDiffers(solutions, sudoku)
    ensures Bookkeeping(solutions, seen + {sudoku}, limit)
  {
    assert solutions[0] == sudoku;
  }

  /** ... and when it is appended. */
  lemma Pushed(solutions: seq<Board>, seen: set<Board>, limit: nat, sudoku: Board)
    requires Bookkeeping(solutions, seen, limit)
    requires |solutions| < limit && (|solutions| == 0 || AnyDiffers(solutions, sudoku))
    ensures Bookkeeping(solutions + [sudoku], seen + {sudoku}, limit)
  {
    var more := solutions + [sudoku];
    if |solutions| == 1 {
      assert solutions[0] != sudoku;
    }
    if |solutions| >= 2 {
      assert more[0] == solutions[0] && more[1] == solutions[1];
    }
  }

  /**
   * `count_solutions`: 1 on a filled board; otherwise the number of solved
   * boards collected, capped at `limit`. On a well-formed board, with a limit
   * of at least one, 0 means unsolvable; with a limit of at least two, 1
   * means exactly one solution.
   */
  method CountSolutions(b: Board, limit: nat) returns (n: nat)
    requires |b| == 81
    ensures IsFilled(b) ==> n == 1
    ensures !IsFilled(b) ==> n <= limit
    ensures WellFormed(b) && limit >= 1 ==> (n == 0 <==> !HasCompletion(b))
    ensures WellFormed(b) && limit >= 2 ==> (n == 1 <==> UniqueCompletion(b))
  {
    if IsFilled(b) {
      IsFilledComplete(b);
      if WellFormed(b) {
        SolvedIsUnique(b);
      }
      return 1;
    }
    var solutions: seq<Board> := [];
    ghost var seen: set<Board> := {};
    for i := 0 to 81
      invariant Bookkeeping(solutions, seen, limit)
      invariant WellFormed(b) ==> AllSolutions(b, seen) && CoveredUpTo(b, seen, i)
    {
      if b[i].digit.None? {
        var candidates := CellCandidates(b, Flat(i));
        var digits := candidates.Digits();
        DigitsSpec(candidates);
        ghost var before := seen;
        for k := 0 to |digits|
          invariant Bookkeeping(solutions, seen, limit)
          invariant before <= seen
          invariant WellFormed(b) ==> AllSolutions(b, seen) && DigitsCovered(b, seen, i, digits, k)
        {
          var solved, sudoku := SolveWithDigit(b, i, digits[k]);
          if WellFormed(b) {
            assert digits[k] in digits;
            TriedDigit(b, seen, i, digits, k, solved, sudoku);
          }
          ghost var met := Met(seen, solved, sudoku);
          if solved && (|solutions| == 0 || AnyDiffers(solutions, sudoku)) {
            if |solutions| == limit {
              if WellFormed(b) && |solutions| >= 2 {
                TwoMetNotUnique(b, solutions[0], solutions[1]);
              }
              return |solutions|;
            }
            Pushed(solutions, seen, limit, sudoku);
            solutions := solutions + [sudoku];
          } else if solved {
            Skipped(solutions, seen, limit, sudoku);
          }
          seen := met;
        }
        if WellFormed(b) {
          TriedCell(b, before, seen, i, digits);
        }
      }
    }
    n := |solutions|;
    if WellFormed(b) {
      var j := NotFilledHasEmpty(b);
      assert Covered(b, seen, j);
      if n == 0 {
        NothingMetNoCompletion(b, j);
      } else if n == 1 {
        OneMetUnique(b, solutions[0]);
      } else {
        TwoMetNotUnique(b, solutions[0], solutions[1]);
      }
    }
  }

  /** `is_unique`: `count_solutions(2) == 1`; on a well-formed board, exactly one solution. */
  method IsUnique(b: Board) returns (unique: bool)
    requires |b| == 81
    ensures WellFormed(b) ==> (unique <==> UniqueCompletion(b))
  {
    var n := CountSolutions(b, 2);
    unique := n == 1;
  }

  // ---------------------------------------------------------------------------
  // The collection rule with a limit above two

  /** One solved board met by `count_solutions`, kept by the rule as written (the limit aside). */
  function KeepAsWritten(solutions: seq<Board>, sudoku: Board): (r: seq<Board>)
  {
    if |solutions| == 0 || AnyDiffers(solutions, sudoku) then solutions + [sudoku] else solutions
  }

  /**
   * As written, a board already collected is collected again as soon as the
   * list holds a different one: meeting `a`, `b`, `a` collects three boards,
   * while the corrected rule collects the two distinct ones.
   */
  lemma RepeatIsCollected(a: Board, b: Board)
    requires a != b
    ensures KeepAsWritten(KeepAsWritten(KeepAsWritten([], a), b), a) == [a, b, a]
    ensures CollectDistinct([a, b, a]) == [a, b]
  {
    var one := KeepAsWritten([], a);
    assert one == [a];
    assert one[0] != b;
    var two := KeepAsWritten(one, b);
    assert two == [a, b];
    assert two[1] != a;
    assert KeepAsWritten(two, a) == [a, b, a];
    assert [a, b, a][..2] == [a, b] && [a, b][..1] == [a] && [a][..0] == [];
    assert CollectDistinct([a]) == [a];
    assert CollectDistinct([a, b]) == [a, b];
  }

  /** The evidently intended rule: a solved board is appended only when it is not collected yet. */
  function KeepDistinct(solutions: seq<Board>, sudoku: Board): seq<Board>
  {
    if sudoku in solutions then solutions else solutions + [sudoku]
  }

  /** The boards met, in order, collected by the corrected rule. */
  function CollectDistinct(met: seq<Board>): seq<Board>
  {
    if met == [] then [] else KeepDistinct(CollectDistinct(met[..|met| - 1]), met[|met| - 1])
  }

  /** The corrected rule collects every board met exactly once. */
  lemma {:induction false} CollectDistinctSpec(met: seq<Board>)
    ensures forall k, l :: 0 <= k < l < |CollectDistinct(met)| ==> CollectDistinct(met)[k] != CollectDistinct(met)[l]
    ensures forall s :: s in CollectDistinct(met) <==> s in met
  {
    if met != [] {
      var init := met[..|met| - 1];
      CollectDistinctSpec(init);
      assert met == init + [met[|met| - 1]];
    }
  }

  /**
   * While at most one board is collected the two rules agree; with a limit of
   * two the list never grows past that before the limit check returns, so
   * `is_unique` is not affected.
   */
  lemma KeepAgreesOnShortLists(solutions: seq<Board>, sudoku: Board)
    requires |solutions| <= 1
    ensures KeepAsWritten(solutions, sudoku) == KeepDistinct(solutions, sudoku)
  {
    if |solutions| == 1 && solutions[0] != sudoku {
      assert AnyDiffers(solutions, sudoku);
    }
  }
}
