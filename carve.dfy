/**
 * Carving a puzzle out of a filled board: `with_n_random_cells`,
 * `generate_from` and `generate` of src/generate/latin_squares.rs. Digits are
 * emptied at random; a board is only handed out once `is_unique` holds, and
 * every digit it keeps is the filled board's.
 */
module Carving {
  import opened Wrappers
  import opened Digits
  import opened Coords
  import opened Board
  import opened BoardOps
  import opened Completions
  import opened Uniqueness
  import opened Randomness
  import opened FilledGrids

  /** `SudokuConfig`: how many filled cells the generated puzzle has. */
  datatype SudokuConfig = SudokuConfig(cells: nat)

  // ---------------------------------------------------------------------------
  // Boards carved from a filled board

  /** `b` is `before` with some filled cells emptied; nothing else differs. */
  predicate ClearedFrom(b: Board, before: Board)
  {
    |b| == |before| && forall i :: 0 <= i < |b| ==> b[i] == before[i] || b[i] == before[i].(digit := None)
  }

  /**
   * `b` keeps the coordinates and candidates of `filled`, and every digit it
   * holds is the one `filled` holds in that cell.
   */
  predicate CarvedFrom(b: Board, filled: Board)
  {
    |b| == 81 && |filled| == 81 &&
    forall i :: 0 <= i < 81 ==>
      b[i].coord == filled[i].coord && b[i].candidates == filled[i].candidates &&
      (b[i].digit.Some? ==> b[i].digit == filled[i].digit)
  }

  /** `filled` with the `is_given` flags of `b`. */
  function Regiven(filled: Board, b: Board): (s: Board)
    requires |filled| == 81 && |b| == 81
    ensures |s| == 81
  {
    seq(81, i requires 0 <= i < 81 => filled[i].(isGiven := b[i].isGiven))
  }

  lemma ClearedIsCarved(b: Board, before: Board)
    requires |before| == 81 && ClearedFrom(b, before)
    ensures CarvedFrom(b, before)
    ensures forall i :: 0 <= i < 81 ==> b[i].isGiven == before[i].isGiven
  {
    forall i | 0 <= i < 81
      ensures b[i].coord == before[i].coord && b[i].isGiven == before[i].isGiven
    {
    }
  }

  /** Emptying cells of a board without duplicate digits and with canonical coordinates keeps both. */
  lemma CarvedWellFormed(b: Board, filled: Board)
    requires CarvedFrom(b, filled) && WellFormed(filled)
    ensures WellFormed(b)
  {
    forall i, j | 0 <= i < 81 && 0 <= j < 81 && i != j && SameHouse(i, j) && b[i].digit.Some?
      ensures b[i].digit != b[j].digit
    {
      assert filled[i].digit != filled[j].digit;
    }
  }

  /** A carved board is solved by the filled board it came from, flags aside. */
  lemma CarvedSolution(b: Board, filled: Board)
    requires CarvedFrom(b, filled) && Complete(filled) && NoDuplicateDigits(filled)
    ensures IsCompletion(b, Regiven(filled, b))
  {
    var s := Regiven(filled, b);
    forall i, j | 0 <= i < 81 && 0 <= j < 81 && i != j && SameHouse(i, j) && s[i].digit.Some?
      ensures s[i].digit != s[j].digit
    {
      assert filled[i].digit != filled[j].digit;
    }
  }

  /**
   * When a carved board has one solution, that solution has the filled
   * board's digits: the puzzle can only be solved back to where it came from.
   */
  lemma UniqueSolutionIsFilled(b: Board, filled: Board)
    requires CarvedFrom(b, filled) && Complete(filled) && NoDuplicateDigits(filled) && UniqueCompletion(b)
    ensures forall s: Board :: IsCompletion(b, s) ==> forall i :: 0 <= i < 81 ==> s[i].digit == filled[i].digit
  {
    CarvedSolution(b, filled);
    forall s: Board | IsCompletion(b, s)
      ensures forall i :: 0 <= i < 81 ==> s[i].digit == filled[i].digit
    {
      assert s == Regiven(filled, b);
    }
  }

  /** A solution of the empty board is a solved board with canonical coordinates. */
  lemma SolvedFromEmpty(s: Board)
    requires IsCompletion(EmptyBoard(), s)
    ensures WellFormed(s) && Complete(s)
  {
    EmptyBoardProperties();
  }

  // ---------------------------------------------------------------------------
  // with_n_random_cells

  /** The number of filled cells the inner loop stops at. */
  function KeptCount(filled: nat, toKeep: nat): nat
  {
    if filled > toKeep then toKeep else filled
  }

  /**
   * The inner function of `with_n_random_cells`: a random cell is drawn
   * and, when it holds a digit, emptied, until only `toKeep` filled cells are
   * left; `cellCount` is the number of filled cells throughout. None when
   * `retries` draws did not get there; the source draws without limit.
   */
  method KeepRandomCells(b: Board, rng: Rng, toKeep: nat, retries: nat) returns (r: Option<Board>)
    requires |b| == 81
    modifies rng
    ensures r.Some? ==> ClearedFrom(r.value, b) && CountFilled(r.value) == KeptCount(CountFilled(b), toKeep)
  {
    var sudoku := new Cell[81](i requires 0 <= i < 81 => b[i]);
    assert sudoku[..] == b;
    var cellCount := CountFilled(sudoku[..]);
    var budget := retries;
    while cellCount > toKeep
      invariant cellCount == CountFilled(sudoku[..]) && ClearedFrom(sudoku[..], b)
      invariant CountFilled(b) > toKeep ==> cellCount >= toKeep
      invariant CountFilled(b) <= toKeep ==> cellCount == CountFilled(b)
      decreases budget
    {
      if budget == 0 {
        return None;
      }
      budget := budget - 1;
      var randomCoord := RandomCoord(rng);
      var index := At(randomCoord).IntoIndex();
      if sudoku[index].digit.Some? {
        CountFilledUpdate(sudoku[..], index, sudoku[index].(digit := None));
        sudoku[index] := sudoku[index].(digit := None);
        cellCount := cellCount - 1;
      }
    }
    r := Some(sudoku[..]);
  }

  /**
   * `with_n_random_cells`: carves a copy of `sudoku` down to `toKeep` filled
   * cells until the result has a unique solution. None when `retries` copies
   * were not unique; the source tries without limit.
   */
  method WithNRandomCells(sudoku: Board, rng: Rng, toKeep: nat, retries: nat) returns (r: Option<Board>)
    requires |sudoku| == 81
    modifies rng
    ensures r.Some? ==> ClearedFrom(r.value, sudoku) && CountFilled(r.value) == KeptCount(CountFilled(sudoku), toKeep)
    ensures r.Some? && WellFormed(sudoku) ==> UniqueCompletion(r.value)
  {
    var attempts := retries;
    while true
      decreases attempts
    {
      var carved := KeepRandomCells(sudoku, rng, toKeep, retries);
      if carved.None? {
        return None;
      }
      ClearedIsCarved(carved.value, sudoku);
      if WellFormed(sudoku) {
        CarvedWellFormed(carved.value, sudoku);
      }
      var unique := IsUnique(carved.value);
      if unique {
        return carved;
      }
      if attempts == 0 {
        return None;
      }
      attempts := attempts - 1;
    }
  }

  // ---------------------------------------------------------------------------
  // generate_from

  /** `Ord::clamp`. */
  function Clamp(x: nat, min: nat, max: nat): (r: nat)
    requires min <= max
    ensures min <= r <= max
    ensures min <= x <= max ==> r == x
  {
    if x < min then min else if x > max then max else x
  }

  /** The cells from `from` on that hold a digit, in board order. */
  function FilledIndicesFrom(b: Board, from: nat): (idx: seq<nat>)
    requires from <= |b|
    ensures forall k :: 0 <= k < |idx| ==> from <= idx[k] < |b| && b[idx[k]].digit.Some?
    ensures forall k, l :: 0 <= k < l < |idx| ==> idx[k] < idx[l]
    ensures forall i :: from <= i < |b| && b[i].digit.Some? ==> i in idx
    decreases |b| - from
  {
    if from == |b| then []
    else if b[from].digit.Some? then [from] + FilledIndicesFrom(b, from + 1)
    else FilledIndicesFrom(b, from + 1)
  }

  /** `Coord::from_index` of every index of `idx`. */
  function CoordsOf(idx: seq<nat>): (coords: seq<Coord>)
    ensures |coords| == |idx|
  {
    seq(|idx|, k requires 0 <= k < |idx| => FromIndex(idx[k]))
  }

  /** `given_coords` before the shuffle: the coordinates of the filled cells, in board order. */
  function GivenCoords(b: Board): (coords: seq<Coord>)
    requires |b| == 81
    ensures forall k :: 0 <= k < |coords| ==>
      coords[k].row < 9 && coords[k].col < 9 && b[At(coords[k]).IntoIndex()].digit.Some?
    ensures forall k, l :: 0 <= k < l < |coords| ==> coords[k] != coords[l]
    ensures forall i :: 0 <= i < 81 && b[i].digit.Some? ==> FromIndex(i) in coords
  {
    var idx := FilledIndicesFrom(b, 0);
    FilledCoords(b, idx);
    CoordsOf(idx)
  }

  /** The coordinates of an increasing list of the filled cells are those cells' coordinates, without repeats. */
  lemma FilledCoords(b: Board, idx: seq<nat>)
    requires |b| == 81
    requires forall k :: 0 <= k < |idx| ==> idx[k] < 81 && b[idx[k]].digit.Some?
    requires forall k, l :: 0 <= k < l < |idx| ==> idx[k] < idx[l]
    requires forall i :: 0 <= i < 81 && b[i].digit.Some? ==> i in idx
    ensures var coords := CoordsOf(idx);
      (forall k :: 0 <= k < |coords| ==> coords[k].row < 9 && coords[k].col < 9 && b[At(coords[k]).IntoIndex()].digit.Some?) &&
      (forall k, l :: 0 <= k < l < |coords| ==> coords[k] != coords[l]) &&
      (forall i :: 0 <= i < 81 && b[i].digit.Some? ==> FromIndex(i) in coords)
  {
    var coords := CoordsOf(idx);
    forall k | 0 <= k < |coords|
      ensures At(coords[k]).IntoIndex() == idx[k]
    {
      IndexRoundTrip(idx[k]);
    }
    forall i | 0 <= i < 81 && b[i].digit.Some?
      ensures FromIndex(i) in coords
    {
      var k :| 0 <= k < |idx| && idx[k] == i;
      assert coords[k] == FromIndex(i);
    }
  }

  /** A reordering of a list without repeats has no repeats and the same elements. */
  lemma ShuffledDistinct<T>(s: seq<T>, t: seq<T>)
    requires multiset(s) == multiset(t)
    requires forall k, l :: 0 <= k < l < |t| ==> t[k] != t[l]
    ensures forall k :: 0 <= k < |s| ==> s[k] in t
    ensures forall k, l :: 0 <= k < l < |s| ==> s[k] != s[l]
  {
    forall k | 0 <= k < |s|
      ensures s[k] in t
    {
      assert s[k] in multiset(s);
    }
    forall k, l | 0 <= k < l < |s|
      ensures s[k] != s[l]
    {
      if s[k] == s[l] {
        var x := s[k];
        assert s == s[..l] + s[l..];
        assert x in multiset(s[..l]) && x in multiset(s[l..]);
        assert multiset(s)[x] >= 2;
        CountAtMostOne(t, x);
        assert false;
      }
    }
  }

  /** In a list without repeats every element occurs at most once. */
  lemma {:induction false} CountAtMostOne<T>(t: seq<T>, x: T)
    requires forall k, l :: 0 <= k < l < |t| ==> t[k] != t[l]
    ensures multiset(t)[x] <= 1
  {
    if t != [] {
      CountAtMostOne(t[1..], x);
      assert t == [t[0]] + t[1..];
      if t[0] == x {
        assert x !in t[1..];
      }
    }
  }

  /** `b` with every cell marked given. */
  function AllGiven(b: Board): (g: Board)
    ensures |g| == |b|
  {
    seq(|b|, i requires 0 <= i < |b| => b[i].(isGiven := true))
  }

  /** The fine-grained return: `cell.is_given = true` for every cell, empty ones included. */
  method MarkAllGiven(a: array<Cell>)
    modifies a
    ensures a[..] == AllGiven(old(a[..]))
  {
    for i := 0 to a.Length
      invariant forall j :: 0 <= j < a.Length ==> a[j] == if j < i then old(a[j]).(isGiven := true) else old(a[j])
    {
      a[i] := a[i].(isGiven := true);
    }
  }

  /** The `is_given` flags matter to no count of filled cells. */
  lemma {:induction false} AllGivenCount(b: Board)
    ensures CountFilled(AllGiven(b)) == CountFilled(b)
  {
    if b != [] {
      AllGivenCount(b[1..]);
      assert AllGiven(b)[1..] == AllGiven(b[1..]);
    }
  }

  /** Marking every cell given keeps a unique solution unique. */
  lemma AllGivenUnique(b: Board)
    requires UniqueCompletion(b)
    ensures UniqueCompletion(AllGiven(b))
  {
    var g := AllGiven(b);
    var s :| IsCompletion(b, s);
    assert IsCompletion(g, AllGiven(s));
    forall t, u | IsCompletion(g, t) && IsCompletion(g, u)
      ensures t == u
    {
      var t', u' := Regiven(t, b), Regiven(u, b);
      assert IsCompletion(b, t') && IsCompletion(b, u');
      assert t' == u';
      assert t == AllGiven(t') && u == AllGiven(u');
    }
  }

  /** `given_coords` after `shuffle`: the coordinates of the filled cells, without repeats, in a random order. */
  method ShuffledGivenCoords(b: Board, rng: Rng) returns (coords: array<Coord>)
    requires |b| == 81
    modifies rng
    ensures fresh(coords) && multiset(coords[..]) == multiset(GivenCoords(b))
    ensures forall k :: 0 <= k < coords.Length ==>
      coords[k].row < 9 && coords[k].col < 9 && b[At(coords[k]).IntoIndex()].digit.Some?
    ensures forall k, l :: 0 <= k < l < coords.Length ==> coords[k] != coords[l]
  {
    var givenCoords := GivenCoords(b);
    coords := new Coord[|givenCoords|](k requires 0 <= k < |givenCoords| => givenCoords[k]);
    assert coords[..] == givenCoords;
    Shuffle(coords, 0, coords.Length, rng);
    assert coords[..] == coords[0..coords.Length] && givenCoords == givenCoords[0..|givenCoords|];
    ShuffledDistinct(coords[..], givenCoords);
  }

  /** What the fine-grained return hands out: the unique board found, every cell marked given. */
  lemma MarkedResult(kept: Board, filled: Board, targetCells: nat)
    requires CarvedFrom(kept, filled) && CountFilled(kept) == targetCells
    requires WellFormed(filled) ==> UniqueCompletion(kept)
    ensures CarvedFrom(AllGiven(kept), filled) && CountFilled(AllGiven(kept)) == targetCells
    ensures forall i :: 0 <= i < 81 ==> AllGiven(kept)[i].isGiven
    ensures WellFormed(filled) ==> UniqueCompletion(AllGiven(kept))
  {
    AllGivenCount(kept);
    if WellFormed(filled) {
      AllGivenUnique(kept);
    }
  }

  /**
   * `generate_from`: carve the filled board down to `target_cells` clamped to
   * 40..=81 filled cells; when that gives `target_cells` filled cells and a
   * unique solution, it is returned as it is. Otherwise the filled cells are
   * emptied one at a time in a random order, each removal that loses the
   * unique solution is undone, and as soon as a unique board has
   * `target_cells` filled cells every cell is marked given and it is
   * returned. Each new round starts from the same filled board. None after
   * `retries` rounds; the source goes on without limit.
   */
  method GenerateFrom(filledSudoku: Board, config: SudokuConfig, rng: Rng, retries: nat) returns (r: Option<Board>)
    requires |filledSudoku| == 81 && config.cells <= GRID_SIZE
    modifies rng
    ensures r.Some? ==> CarvedFrom(r.value, filledSudoku) && CountFilled(r.value) == config.cells
    ensures r.Some? ==>
      (forall i :: 0 <= i < 81 ==> r.value[i].isGiven == filledSudoku[i].isGiven) ||
      (forall i :: 0 <= i < 81 ==> r.value[i].isGiven)
    ensures r.Some? && WellFormed(filledSudoku) ==> UniqueCompletion(r.value)
  {
    var targetCells := config.cells;
    var attempts := retries;
    while true
      decreases attempts
    {
      var carved := WithNRandomCells(filledSudoku, rng, Clamp(targetCells, GRID_SIZE / 2, GRID_SIZE), retries);
      if carved.None? {
        return None;
      }
      ClearedIsCarved(carved.value, filledSudoku);
      if CountFilled(carved.value) == targetCells {
        if WellFormed(filledSudoku) {
          CarvedWellFormed(carved.value, filledSudoku);
        }
        var unique := IsUnique(carved.value);
        if unique {
          return carved;
        }
      }

      var givenCoords := ShuffledGivenCoords(carved.value, rng);
      r := RemoveOneByOne(carved.value, filledSudoku, givenCoords, targetCells);
      if r.Some? {
        return;
      }
      if attempts == 0 {
        return None;
      }
      attempts := attempts - 1;
    }
  }

  /**
   * The body of the loop over the shuffled `given_coords`: the cell at
   * `coord` is cleared and, when the board no longer has a unique solution,
   * given its digit back, which leaves the board as it was.
   */
  method ClearIfStillUnique(sudoku: array<Cell>, coord: Coord, ghost filled: Board) returns (unique: bool)
    requires sudoku.Length == 81 && coord.row < 9 && coord.col < 9
    requires sudoku[At(coord).IntoIndex()].digit.Some?
    modifies sudoku
    ensures unique ==> sudoku[..] == WithDigit(old(sudoku[..]), At(coord).IntoIndex(), None)
    ensures !unique ==> sudoku[..] == old(sudoku[..])
    ensures unique && CarvedFrom(old(sudoku[..]), filled) && WellFormed(filled) ==> UniqueCompletion(sudoku[..])
  {
    var index := At(coord).IntoIndex();
    var digit := sudoku[index].digit.value;
    ghost var before := sudoku[..];
    var _ := ClearCell(sudoku, At(coord));
    if CarvedFrom(before, filled) && WellFormed(filled) {
      CarvedWellFormed(sudoku[..], filled);
    }
    unique := IsUnique(sudoku[..]);
    if !unique {
      var _ := SetCell(sudoku, At(coord), digit);
      WithDigitTwice(before, index, None, Some(digit));
      WithDigitSelf(before, index);
    }
  }

  /**
   * The loop over the shuffled `given_coords` of `generate_from`: each cell
   * is emptied and, when that loses the unique solution, given its digit
   * back. None when the list ran out before `targetCells` was reached.
   */
  method RemoveOneByOne(carved: Board, filledSudoku: Board, coords: array<Coord>, targetCells: nat) returns (r: Option<Board>)
    requires CarvedFrom(carved, filledSudoku) && forall i :: 0 <= i < 81 ==> carved[i].isGiven == filledSudoku[i].isGiven
    requires forall k :: 0 <= k < coords.Length ==> coords[k].row < 9 && coords[k].col < 9 && carved[At(coords[k]).IntoIndex()].digit.Some?
    requires forall k, l :: 0 <= k < l < coords.Length ==> coords[k] != coords[l]
    ensures r.Some? ==> CarvedFrom(r.value, filledSudoku) && CountFilled(r.value) == targetCells
    ensures r.Some? ==> forall i :: 0 <= i < 81 ==> r.value[i].isGiven
    ensures r.Some? && WellFormed(filledSudoku) ==> UniqueCompletion(r.value)
  {
    var sudoku := new Cell[81](i requires 0 <= i < 81 => carved[i]);
    for k := 0 to coords.Length
      invariant CarvedFrom(sudoku[..], filledSudoku)
      invariant forall i :: 0 <= i < 81 ==> sudoku[i].isGiven == filledSudoku[i].isGiven
      invariant forall m :: k <= m < coords.Length ==> sudoku[At(coords[m]).IntoIndex()].digit.Some?
      modifies sudoku
    {
      var coord := coords[k];
      forall m | k < m < coords.Length
        ensures At(coords[m]).IntoIndex() != At(coord).IntoIndex()
      {
        CoordRoundTrip(coords[m]);
        CoordRoundTrip(coord);
      }
      var unique := ClearIfStillUnique(sudoku, coord, filledSudoku);
      if unique && CountFilled(sudoku[..]) == targetCells {
        MarkedResult(sudoku[..], filledSudoku, targetCells);
        MarkAllGiven(sudoku);
        return Some(sudoku[..]);
      }
    }
    r := None;
  }

  // ---------------------------------------------------------------------------
  // generate

  /**
   * `generate`: a filled board from `generate_filled_sudoku`, carved by
   * `generate_from`. The puzzle has `config.cells` filled cells and exactly
   * one solution, and that solution is the filled board.
   */
  method Generate(config: SudokuConfig, rng: Rng, retries: nat) returns (r: Option<Board>, ghost filled: Board)
    requires config.cells <= GRID_SIZE
    modifies rng
    ensures r.Some? ==> IsCompletion(EmptyBoard(), filled) && CarvedFrom(r.value, filled)
    ensures r.Some? ==> CountFilled(r.value) == config.cells && UniqueCompletion(r.value)
    ensures r.Some? ==> forall s: Board :: IsCompletion(r.value, s) ==> forall i :: 0 <= i < 81 ==> s[i].digit == filled[i].digit
  {
    var filledSudoku, latin, big := GenerateFilledSudoku(rng, retries);
    if filledSudoku.None? {
      return None, EmptyBoard();
    }
    filled := filledSudoku.value;
    SolvedFromEmpty(filled);
    r := GenerateFrom(filledSudoku.value, config, rng, retries);
    if r.Some? {
      UniqueSolutionIsFilled(r.value, filled);
    }
  }
}
