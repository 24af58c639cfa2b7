/**
 * The operations of src/sudoku.rs that update a board in place or that the
 * source writes as loops: `Default`, `cell`, `set_cell`, `clear_cell`,
 * `cell_candidates`, `all_candidates` and `solve_all_candidates`. A
 * `&mut Sudoku` is an `array<Cell>` of length 81.
 */
module BoardOps {
  import opened Wrappers
  import opened Digits
  import opened CandidateSets
  import opened Coords
  import opened Board

  /** `Sudoku::default()`: 81 default cells, then each cell's coordinate written from its index. */
  method Default() returns (b: Board)
    ensures b == EmptyBoard()
  {
    var cells := new Cell[81](_ => Cell(Coord(0, 0), None, Candidates.Empty(), false));
    for index := 0 to 81
      invariant forall k :: 0 <= k < index ==> cells[k] == Cell(FromIndex(k), None, Candidates.Empty(), false)
      invariant forall k :: index <= k < 81 ==> cells[k] == Cell(Coord(0, 0), None, Candidates.Empty(), false)
    {
      cells[index] := cells[index].(coord := FromIndex(index));
    }
    b := cells[..];
  }

  /** `cell`: the cell at `i`, or None past the end of the board. */
  function CellAt(b: Board, i: SudokuIndex): (r: Option<Cell>)
    ensures r.Some? <==> i.IntoIndex() < |b|
    ensures r.Some? ==> r.value == b[i.IntoIndex()]
  {
    if i.IntoIndex() < |b| then Some(b[i.IntoIndex()]) else None
  }

  /**
   * `set_cell`: writes `digit` into the cell at `i` and returns that cell; past
   * the end of the board nothing changes and the result is None.
   */
  method SetCell(a: array<Cell>, i: SudokuIndex, digit: Digit) returns (r: Option<Cell>)
    modifies a
    ensures i.IntoIndex() < a.Length ==>
      a[..] == WithDigit(old(a[..]), i.IntoIndex(), Some(digit)) && r == Some(a[i.IntoIndex()])
    ensures i.IntoIndex() >= a.Length ==> a[..] == old(a[..]) && r == None
  {
    var index := i.IntoIndex();
    if index >= a.Length {
      return None;
    }
    a[index] := a[index].(digit := Some(digit));
    r := Some(a[index]);
  }

  /** `clear_cell`: empties the cell at `i` and returns it; None past the end. */
  method ClearCell(a: array<Cell>, i: SudokuIndex) returns (r: Option<Cell>)
    modifies a
    ensures i.IntoIndex() < a.Length ==>
      a[..] == WithDigit(old(a[..]), i.IntoIndex(), None) && r == Some(a[i.IntoIndex()])
    ensures i.IntoIndex() >= a.Length ==> a[..] == old(a[..]) && r == None
  {
    var index := i.IntoIndex();
    if index >= a.Length {
      return None;
    }
    a[index] := a[index].(digit := None);
    r := Some(a[index]);
  }

  /**
   * `cell_candidates`: starts from all nine digits and removes every digit met
   * in the row, the column and the box of cell `i`, in that order.
   */
  method CellCandidates(b: Board, i: SudokuIndex) returns (candidates: Candidates)
    requires |b| == 81 && i.IntoIndex() < 81
    ensures candidates == CandidatesOf(b, i)
  {
    var index := i.IntoIndex();
    candidates := Candidates.All();
    var c := FromIndex(index);
    var house := Row(b, c.row) + Col(b, c.col) + SquareOfCell(b, Flat(index));
    HouseChainPeers(b, index);
    for k := 0 to |house|
      invariant RemovePlaced(candidates, house[k..]) == RemovePlaced(Candidates.All(), house)
    {
      assert house[k..][1..] == house[k + 1..];
      if house[k].digit.Some? {
        candidates := candidates.Remove(house[k].digit.value);
      }
    }
    assert house == HouseChain(b, index);
    CandidatesOfChain(b, index);
  }

  /** `all_candidates`: the empty set for a filled cell, `cell_candidates` for an empty one. */
  method AllCandidatesOf(b: Board) returns (all: seq<Candidates>)
    requires |b| == 81
    ensures all == AllCandidates(b)
  {
    all := [];
    for i := 0 to 81
      invariant all == AllCandidates(b)[..i]
    {
      var c: Candidates;
      if b[i].digit.Some? {
        c := Candidates.Empty();
      } else {
        c := CellCandidates(b, Flat(i));
      }
      all := all + [c];
    }
  }

  /** The board with each cell's candidate field replaced by the matching entry of `all`. */
  function WithCandidates(b: Board, all: seq<Candidates>): (r: Board)
    requires |all| == |b|
    ensures |r| == |b|
    ensures forall k :: 0 <= k < |b| ==> r[k] == b[k].(candidates := all[k])
  {
    seq(|b|, k requires 0 <= k < |b| => b[k].(candidates := all[k]))
  }

  /** Each cell's candidate field lists exactly the digits no cell of its houses holds; filled cells list none. */
  predicate CandidatesAreLive(s: Board)
  {
    |s| == 81 && forall i, d: Digit :: 0 <= i < 81 ==> CandidateIsLive(s, i, d)
  }

  /** Cell `i` lists `d` exactly when it is empty and no cell of its houses holds `d`. */
  predicate CandidateIsLive(s: Board, i: nat, d: Digit)
    requires |s| == 81 && i < 81
  {
    s[i].candidates.Contains(d) <==>
      s[i].digit.None? && forall j :: 0 <= j < 81 && SameHouse(i, j) ==> s[j].digit != Some(d)
  }

  /** A board holding its own `all_candidates` lists exactly the digits still open to each empty cell. */
  lemma StoredCandidates(b: Board, s: Board)
    requires |b| == 81 && |s| == 81
    requires s == WithCandidates(b, AllCandidates(b))
    ensures CandidatesAreLive(s)
  {
    forall i, d: Digit | 0 <= i < 81
      ensures CandidateIsLive(s, i, d)
    {
      StoredCandidate(b, s, i, d);
    }
  }

  lemma StoredCandidate(b: Board, s: Board, i: nat, d: Digit)
    requires |b| == 81 && |s| == 81 && i < 81
    requires s == WithCandidates(b, AllCandidates(b))
    ensures CandidateIsLive(s, i, d)
  {
    AllCandidatesContains(b, i, d);
    assert forall j :: 0 <= j < 81 ==> s[j].digit == b[j].digit;
    assert s[i].candidates == AllCandidates(b)[i];
  }

  /**
   * `solve_all_candidates`: stores in every cell its entry of `all_candidates`,
   * computed once on the board as it was; only the candidate fields change.
   */
  method SolveAllCandidates(a: array<Cell>)
    requires a.Length == 81
    modifies a
    ensures a[..] == WithCandidates(old(a[..]), AllCandidates(old(a[..])))
    ensures CandidatesAreLive(a[..])
  {
    var all := AllCandidatesOf(a[..]);
    ghost var b := a[..];
    StoreCandidates(a, all);
    StoredCandidates(b, a[..]);
  }

  /** The `for_each` of `solve_all_candidates`: cell `i` receives `all[i]`. */
  method StoreCandidates(a: array<Cell>, all: seq<Candidates>)
    requires |all| == a.Length
    modifies a
    ensures a[..] == WithCandidates(old(a[..]), all)
  {
    for i := 0 to a.Length
      invariant forall k :: 0 <= k < i ==> a[k] == old(a[k]).(candidates := all[k])
      invariant forall k :: i <= k < a.Length ==> a[k] == old(a[k])
    {
      a[i] := a[i].(candidates := all[i]);
    }
  }
}
