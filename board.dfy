/**
 * The board value (`Sudoku` and `Cell` in src/sudoku.rs): 81 cells in
 * row-major order, the three kinds of house, the candidate computation, the
 * counting queries, `is_valid` and the 81-character line format.
 *
 * A `Sudoku` that is owned or borrowed immutably is modelled as the value
 * `Board`; code that mutates a `&mut Sudoku` works on an `array<Cell>`
 * (see the module BoardOps).
 */
module Board {
  import opened Wrappers
  import opened Digits
  import opened CandidateSets
  import opened Coords

  datatype Cell = Cell(coord: Coord, digit: Option<Digit>, candidates: Candidates, isGiven: bool)

  type Board = seq<Cell>

  /** Every cell records its own position, as `Default` and `from_str_line` set it. */
  predicate CanonicalCoords(b: Board)
  {
    |b| == 81 && forall i :: 0 <= i < |b| ==> b[i].coord == FromIndex(i)
  }

  // ---------------------------------------------------------------------------
  // Houses as index lists

  /** Unique quotient and remainder by 9, stated linearly. */
  lemma Div9(j: nat, q: nat, r: nat)
    requires j == 9 * q + r && r < 9
    ensures j / 9 == q && j % 9 == r
  {
  }

  /** Unique quotient and remainder by 3, stated linearly. */
  lemma Div3(j: nat, q: nat, r: nat)
    requires j == 3 * q + r && r < 3
    ensures j / 3 == q && j % 3 == r
  {
  }

  /** The cells of row `r`: 9r .. 9r+8. */
  function RowIndices(r: nat): seq<nat>
  {
    seq(9, k => 9 * r + k)
  }

  /** The cells of column `c`, top to bottom. */
  function ColIndices(c: nat): seq<nat>
  {
    seq(9, k => 9 * k + c)
  }

  lemma InRow(r: nat, j: nat)
    requires r < 9
    ensures j in RowIndices(r) <==> j < 81 && j / 9 == r
  {
    if j in RowIndices(r) {
      var k :| 0 <= k < 9 && RowIndices(r)[k] == j;
      Div9(j, r, k);
    }
    if j < 81 && j / 9 == r {
      assert RowIndices(r)[j % 9] == j;
    }
  }

  lemma InCol(c: nat, j: nat)
    requires c < 9
    ensures j in ColIndices(c) <==> j < 81 && j % 9 == c
  {
    if j in ColIndices(c) {
      var k :| 0 <= k < 9 && ColIndices(c)[k] == j;
      Div9(j, k, c);
    }
    if j < 81 && j % 9 == c {
      assert ColIndices(c)[j / 9] == j;
    }
  }

  /** Two cells lie in the same 3x3 box. */
  predicate SameBox(i: nat, j: nat)
  {
    i / 9 / 3 == j / 9 / 3 && i % 9 / 3 == j % 9 / 3
  }

  /** The box number (0..8, row-major) of a cell index. */
  function BoxOf(i: nat): nat
  {
    3 * (i / 9 / 3) + i % 9 / 3
  }

  /** `square_indices`: the nine cells of the box at box coordinate `c`, row-major. */
  function SquareIndices(c: Coord): (idx: seq<nat>)
    ensures |idx| == 9
    ensures forall k, l :: 0 <= k < l < 9 ==> idx[k] < idx[l]
    ensures forall k :: 0 <= k < 9 ==> idx[k] == 27 * c.row + 3 * c.col + 9 * (k / 3) + k % 3
  {
    var squareRow := c.row * 9 * 3;
    var squareCol := c.col * 3;
    var s := squareRow + squareCol;
    [s, s + 1, s + 2, s + 9, s + 9 + 1, s + 9 + 2, s + 18, s + 18 + 1, s + 18 + 2]
  }

  lemma InSquareAt(c: Coord, a: nat, b: nat)
    requires c.row < 3 && c.col < 3 && a < 3 && b < 3
    ensures var j := 27 * c.row + 3 * c.col + 9 * a + b;
      j < 81 && j / 9 / 3 == c.row && j % 9 / 3 == c.col
  {
    var j := 27 * c.row + 3 * c.col + 9 * a + b;
    Div9(j, 3 * c.row + a, 3 * c.col + b);
    Div3(3 * c.row + a, c.row, a);
    Div3(3 * c.col + b, c.col, b);
  }

  lemma InSquare(c: Coord, j: nat)
    requires c.row < 3 && c.col < 3
    ensures j in SquareIndices(c) <==> j < 81 && j / 9 / 3 == c.row && j % 9 / 3 == c.col
  {
    if j in SquareIndices(c) {
      InSquareListed(c, j);
    }
    if j < 81 && j / 9 / 3 == c.row && j % 9 / 3 == c.col {
      InSquareLists(c, j);
    }
  }

  lemma InSquareListed(c: Coord, j: nat)
    requires c.row < 3 && c.col < 3 && j in SquareIndices(c)
    ensures j < 81 && j / 9 / 3 == c.row && j % 9 / 3 == c.col
  {
    var idx := SquareIndices(c);
    var k :| 0 <= k < 9 && idx[k] == j;
    var a, b := k / 3, k % 3;
    assert j == 27 * c.row + 3 * c.col + 9 * a + b;
    InSquareAt(c, a, b);
  }

  lemma InSquareLists(c: Coord, j: nat)
    requires c.row < 3 && c.col < 3 && j < 81 && j / 9 / 3 == c.row && j % 9 / 3 == c.col
    ensures j in SquareIndices(c)
  {
    var r, q := j / 9, j % 9;
    var a, b := r % 3, q % 3;
    assert r == 3 * c.row + a && q == 3 * c.col + b;
    assert j == 27 * c.row + 3 * c.col + 9 * a + b;
    Div3(3 * a + b, a, b);
    assert SquareIndices(c)[3 * a + b] == j;
  }

  /** `square_indices_of_cell`: the box holding the cell at `c`. */
  function SquareIndicesOfCell(c: Coord): seq<nat>
  {
    SquareIndices(Coord(c.row / 3, c.col / 3))
  }

  /** Two cells share a row, a column or a box. A cell shares all three with itself. */
  predicate SameHouse(i: nat, j: nat)
  {
    i / 9 == j / 9 || i % 9 == j % 9 || SameBox(i, j)
  }

  /** The 27 cells `cell_candidates` visits: row, then column, then box. */
  function Peers(i: nat): seq<nat>
  {
    RowIndices(i / 9) + ColIndices(i % 9) + SquareIndicesOfCell(FromIndex(i))
  }

  lemma InPeers(i: nat, j: nat)
    requires i < 81
    ensures j in Peers(i) <==> j < 81 && SameHouse(i, j)
  {
    var c := Coord(i / 9 / 3, i % 9 / 3);
    assert SquareIndicesOfCell(FromIndex(i)) == SquareIndices(c);
    InRow(i / 9, j);
    InCol(i % 9, j);
    InSquare(c, j);
  }

  lemma PeersAreSameHouse(i: nat)
    requires i < 81
    ensures forall j :: j in Peers(i) <==> j < 81 && SameHouse(i, j)
  {
    forall j
      ensures j in Peers(i) <==> j < 81 && SameHouse(i, j)
    {
      InPeers(i, j);
    }
  }

  /** Nine distinct cells of the grid, any two of which share a house. */
  predicate IsHouse(house: seq<nat>)
  {
    |house| == 9 &&
    (forall k :: 0 <= k < 9 ==> house[k] < 81) &&
    (forall k, l :: 0 <= k < l < 9 ==> house[k] != house[l] && SameHouse(house[k], house[l]))
  }

  /** The row through cell `i` is a house, and every cell of it shares a house with `i`. */
  lemma RowIsHouse(i: nat)
    requires i < 81
    ensures IsHouse(RowIndices(i / 9))
    ensures forall k :: 0 <= k < 9 ==> SameHouse(i, RowIndices(i / 9)[k])
  {
    var house := RowIndices(i / 9);
    forall k | 0 <= k < 9
      ensures house[k] < 81 && house[k] / 9 == i / 9
    {
      InRow(i / 9, house[k]);
    }
  }

  /** The column through cell `i` is a house, and every cell of it shares a house with `i`. */
  lemma ColIsHouse(i: nat)
    requires i < 81
    ensures IsHouse(ColIndices(i % 9))
    ensures forall k :: 0 <= k < 9 ==> SameHouse(i, ColIndices(i % 9)[k])
  {
    var house := ColIndices(i % 9);
    forall k | 0 <= k < 9
      ensures house[k] < 81 && house[k] % 9 == i % 9
    {
      InCol(i % 9, house[k]);
    }
  }

  /** The box holding cell `i` is a house, and every cell of it shares a house with `i`. */
  lemma BoxIsHouse(i: nat)
    requires i < 81
    ensures IsHouse(SquareIndicesOfCell(FromIndex(i)))
    ensures forall k :: 0 <= k < 9 ==> SameHouse(i, SquareIndicesOfCell(FromIndex(i))[k])
  {
    var c := Coord(i / 9 / 3, i % 9 / 3);
    var house := SquareIndicesOfCell(FromIndex(i));
    assert house == SquareIndices(c);
    forall k | 0 <= k < 9
      ensures house[k] < 81 && SameBox(i, house[k])
    {
      InSquare(c, house[k]);
    }
  }

  // ---------------------------------------------------------------------------
  // Houses as the source builds them

  /** The cells at the listed indices, in list order. */
  function Pick(b: Board, idx: seq<nat>): (cells: seq<Cell>)
    requires forall k :: 0 <= k < |idx| ==> idx[k] < |b|
    ensures |cells| == |idx|
    ensures forall k :: 0 <= k < |idx| ==> cells[k] == b[idx[k]]
  {
    seq(|idx|, k requires 0 <= k < |idx| => b[idx[k]])
  }

  lemma PickCons(b: Board, idx: seq<nat>)
    requires |idx| > 0 && forall k :: 0 <= k < |idx| ==> idx[k] < |b|
    ensures Pick(b, idx) == [b[idx[0]]] + Pick(b, idx[1..])
  {
    assert forall k :: 1 <= k < |idx| ==> idx[1..][k - 1] == idx[k];
  }

  lemma PickAppend(b: Board, x: seq<nat>, y: seq<nat>)
    requires forall k :: 0 <= k < |x| ==> x[k] < |b|
    requires forall k :: 0 <= k < |y| ==> y[k] < |b|
    ensures Pick(b, x + y) == Pick(b, x) + Pick(b, y)
  {
    assert forall k :: |x| <= k < |x| + |y| ==> (x + y)[k] == y[k - |x|];
  }

  /** `enumerate().filter_map(..)` over the board from cell `from` on: the cells whose index `keep` accepts. */
  function CellsWhere(b: Board, keep: nat -> bool, from: nat): seq<Cell>
    requires from <= |b|
    decreases |b| - from
  {
    if from == |b| then []
    else (if keep(from) then [b[from]] else []) + CellsWhere(b, keep, from + 1)
  }

  /** Filtering by membership in an ascending index list picks exactly those indices, in order. */
  lemma {:induction false} CellsWherePick(b: Board, keep: nat -> bool, idx: seq<nat>, from: nat)
    requires from <= |b|
    requires forall k, l :: 0 <= k < l < |idx| ==> idx[k] < idx[l]
    requires forall k :: 0 <= k < |idx| ==> from <= idx[k] < |b|
    requires forall i :: from <= i < |b| ==> (keep(i) <==> i in idx)
    ensures CellsWhere(b, keep, from) == Pick(b, idx)
    decreases |b| - from, 1
  {
    if from == |b| {
      NoneAtOrPast(idx, from);
    } else if keep(from) {
      PickKept(b, keep, idx, from);
    } else {
      CellsWherePick(b, keep, idx, from + 1);
    }
  }

  /** The step of `CellsWherePick` at a kept cell: it heads both lists. */
  lemma {:induction false} PickKept(b: Board, keep: nat -> bool, idx: seq<nat>, from: nat)
    requires from < |b| && keep(from)
    requires forall k, l :: 0 <= k < l < |idx| ==> idx[k] < idx[l]
    requires forall k :: 0 <= k < |idx| ==> from <= idx[k] < |b|
    requires forall i :: from <= i < |b| ==> (keep(i) <==> i in idx)
    ensures CellsWhere(b, keep, from) == Pick(b, idx)
    decreases |b| - from, 0
  {
    FirstListed(idx, from);
    CellsWherePick(b, keep, idx[1..], from + 1);
    PickCons(b, idx);
  }

  /** A list whose elements all lie in `from .. from` is empty. */
  lemma NoneAtOrPast(idx: seq<nat>, from: nat)
    requires forall k :: 0 <= k < |idx| ==> from <= idx[k] < from
    ensures idx == []
  {
    HeadListed(idx);
  }

  lemma HeadListed(idx: seq<nat>)
    ensures |idx| > 0 ==> idx[0] in idx
  {
  }

  /** In an ascending list of indices from `from` on, a listed `from` comes first and the rest follow it. */
  lemma FirstListed(idx: seq<nat>, from: nat)
    requires forall k, l :: 0 <= k < l < |idx| ==> idx[k] < idx[l]
    requires forall k :: 0 <= k < |idx| ==> from <= idx[k]
    requires from in idx
    ensures idx[0] == from
    ensures forall k :: 0 <= k < |idx| - 1 ==> from < idx[1..][k]
    ensures forall i :: i != from ==> (i in idx <==> i in idx[1..])
  {
    var k :| 0 <= k < |idx| && idx[k] == from;
    assert idx[0] <= idx[k];
    assert idx == [idx[0]] + idx[1..];
  }

  /** `row`: `skip(9 * index).take(9)`. A house index of 9 or more is a fatal assertion. */
  function Row(b: Board, index: nat): (cells: seq<Cell>)
    requires |b| == 81 && index < 9
    ensures cells == Pick(b, RowIndices(index))
  {
    b[index * 9..][..9]
  }

  /** `col`: the cells whose coordinate has column `index`, in board order. */
  function Col(b: Board, index: nat): (cells: seq<Cell>)
    requires |b| == 81 && index < 9
    ensures cells == Pick(b, ColIndices(index))
  {
    var keep := (i: nat) => FromIndex(i).col == index;
    var idx := ColIndices(index);
    assert forall i :: 0 <= i < |b| ==> (keep(i) <==> i in idx) by {
      forall i | 0 <= i < |b| && keep(i)
        ensures i in idx
      {
        assert idx[i / 9] == i;
      }
    }
    CellsWherePick(b, keep, idx, 0);
    CellsWhere(b, keep, 0)
  }

  /** `square`: the cells of box `i` (flattened 3 wide), in board order. */
  function Square(b: Board, i: SudokuIndex): (cells: seq<Cell>)
    requires |b| == 81 && i.IntoIndexOf(SQUARE_SIZE) < 9
    ensures cells == Pick(b, SquareIndices(FromIndexOf(i.IntoIndexOf(SQUARE_SIZE), SQUARE_SIZE)))
  {
    var index := i.IntoIndexOf(SQUARE_SIZE);
    var idx := SquareIndices(FromIndexOf(index, SQUARE_SIZE));
    var keep := (j: nat) => j in idx;
    CellsWherePick(b, keep, idx, 0);
    CellsWhere(b, keep, 0)
  }

  /** `square_of_cell`: the box holding cell `i`. */
  function SquareOfCell(b: Board, i: SudokuIndex): (cells: seq<Cell>)
    requires |b| == 81 && i.IntoIndex() < 81
    ensures cells == Pick(b, SquareIndicesOfCell(FromIndex(i.IntoIndex())))
  {
    var c := FromIndex(i.IntoIndex());
    var sq := CellCoordToSquareCoord(c);
    SquareCoordRoundTrip(sq);
    assert SquareIndicesOfCell(c) == SquareIndices(sq);
    Square(b, At(sq))
  }

  // ---------------------------------------------------------------------------
  // Candidates

  /** The loop body of `cell_candidates`, folded over `cells`: drop every digit found (see RemovePlacedSpec). */
  function RemovePlaced(c: Candidates, cells: seq<Cell>): Candidates
    decreases |cells|
  {
    if cells == [] then c
    else RemovePlaced(if cells[0].digit.Some? then c.Remove(cells[0].digit.value) else c, cells[1..])
  }

  /** Folding the removals keeps exactly the digits of `c` that no cell of `cells` holds. */
  lemma {:induction false} RemovePlacedSpec(c: Candidates, cells: seq<Cell>, d: Digit)
    ensures RemovePlaced(c, cells).Contains(d) <==>
      c.Contains(d) && forall k :: 0 <= k < |cells| ==> cells[k].digit != Some(d)
    decreases |cells|
  {
    if cells != [] {
      var c' := if cells[0].digit.Some? then c.Remove(cells[0].digit.value) else c;
      RemovePlacedSpec(c', cells[1..], d);
      assert (forall k :: 0 <= k < |cells| ==> cells[k].digit != Some(d)) <==>
        cells[0].digit != Some(d) && forall k :: 0 <= k < |cells[1..]| ==> cells[1..][k].digit != Some(d);
    }
  }

  /** The 27 cells `cell_candidates` visits, in its order: row, column, then box. */
  function HouseChain(b: Board, index: nat): seq<Cell>
    requires |b| == 81 && index < 81
  {
    var c := FromIndex(index);
    Row(b, c.row) + Col(b, c.col) + SquareOfCell(b, Flat(index))
  }

  lemma HouseChainPeers(b: Board, index: nat)
    requires |b| == 81 && index < 81
    ensures forall k :: 0 <= k < |Peers(index)| ==> Peers(index)[k] < 81
    ensures HouseChain(b, index) == Pick(b, Peers(index))
  {
    var c := FromIndex(index);
    var rows, cols, box := RowIndices(c.row), ColIndices(c.col), SquareIndicesOfCell(c);
    HousesInRange(c);
    assert Peers(index) == rows + cols + box;
    PickAppend(b, rows, cols);
    PickAppend(b, rows + cols, box);
  }

  /** The row, column and box of an in-range coordinate list only in-range cells. */
  lemma HousesInRange(c: Coord)
    requires c.row < 9 && c.col < 9
    ensures forall k :: 0 <= k < 9 ==> RowIndices(c.row)[k] < 81 && ColIndices(c.col)[k] < 81
    ensures forall k :: 0 <= k < 9 ==> SquareIndicesOfCell(c)[k] < 81
  {
    var box := SquareIndicesOfCell(c);
    forall k | 0 <= k < 9
      ensures box[k] < 81
    {
      assert box[k] == 27 * (c.row / 3) + 3 * (c.col / 3) + 9 * (k / 3) + k % 3;
    }
  }

  /** Drops from `c` the digit of every cell of `b` listed in `idx` (indices past the board are skipped). */
  function RemoveAt(c: Candidates, b: Board, idx: seq<nat>): Candidates
    decreases |idx|
  {
    if idx == [] then c
    else RemoveAt(if idx[0] < |b| && b[idx[0]].digit.Some? then c.Remove(b[idx[0]].digit.value) else c, b, idx[1..])
  }

  /** Removing the digits of the cells listed in `idx` is removing the digits of the picked cells. */
  lemma {:induction false} RemoveAtPick(c: Candidates, b: Board, idx: seq<nat>)
    requires forall k :: 0 <= k < |idx| ==> idx[k] < |b|
    ensures RemoveAt(c, b, idx) == RemovePlaced(c, Pick(b, idx))
    decreases |idx|
  {
    if idx != [] {
      PickCons(b, idx);
      assert Pick(b, idx)[1..] == Pick(b, idx[1..]);
      var c' := if b[idx[0]].digit.Some? then c.Remove(b[idx[0]].digit.value) else c;
      RemoveAtPick(c', b, idx[1..]);
    }
  }

  /**
   * The candidates of cell `i`: all nine digits minus those held by the cells
   * that share a house with it. The cell itself is among them, so a filled
   * cell never lists its own digit.
   */
  function CandidatesOf(b: Board, i: SudokuIndex): (r: Candidates)
  {
    RemoveAt(Candidates.All(), b, Peers(i.IntoIndex()))
  }

  /** The candidates of cell `i` are what `cell_candidates` folds over its row, column and box. */
  lemma CandidatesOfChain(b: Board, i: nat)
    requires |b| == 81 && i < 81
    ensures CandidatesOf(b, Flat(i)) == RemovePlaced(Candidates.All(), HouseChain(b, i))
  {
    HouseChainPeers(b, i);
    RemoveAtPick(Candidates.All(), b, Peers(i));
  }

  /** `cell_candidates(i)` holds `d` iff no cell of the row, column or box of `i` holds `d`. */
  lemma CandidatesOfContains(b: Board, i: nat, d: Digit)
    requires |b| == 81 && i < 81
    ensures CandidatesOf(b, Flat(i)).Contains(d) <==>
      forall j :: 0 <= j < 81 && SameHouse(i, j) ==> b[j].digit != Some(d)
  {
    var peers := Peers(i);
    HouseChainPeers(b, i);
    CandidatesOfChain(b, i);
    PeersAreSameHouse(i);
    var cells := Pick(b, peers);
    RemovePlacedSpec(Candidates.All(), cells, d);
    if forall k :: 0 <= k < |cells| ==> cells[k].digit != Some(d) {
      forall j | 0 <= j < 81 && SameHouse(i, j)
        ensures b[j].digit != Some(d)
      {
        var k :| 0 <= k < |peers| && peers[k] == j;
        assert cells[k] == b[j];
      }
    }
  }

  /** `all_candidates`: the empty set for a filled cell, `cell_candidates` for an empty one. */
  function AllCandidates(b: Board): (all: seq<Candidates>)
    requires |b| == 81
    ensures |all| == 81
  {
    seq(81, i requires 0 <= i < 81 => if b[i].digit.Some? then Candidates.Empty() else CandidatesOf(b, Flat(i)))
  }

  /** A cell lists `d` in `all_candidates` iff it is empty and no cell of its houses holds `d`. */
  lemma AllCandidatesContains(b: Board, i: nat, d: Digit)
    requires |b| == 81 && i < 81
    ensures AllCandidates(b)[i].Contains(d) <==>
      b[i].digit.None? && forall j :: 0 <= j < 81 && SameHouse(i, j) ==> b[j].digit != Some(d)
  {
    CandidatesOfContains(b, i, d);
  }

  // ---------------------------------------------------------------------------
  // Counting

  /** `count_filled_cells`. */
  function CountFilled(b: seq<Cell>): (n: nat)
    ensures n <= |b|
  {
    if b == [] then 0 else (if b[0].digit.Some? then 1 else 0) + CountFilled(b[1..])
  }

  /** `count_unfilled_cells`. */
  function CountUnfilled(b: seq<Cell>): nat
  {
    |b| - CountFilled(b)
  }

  /** `is_empty`. */
  predicate IsEmpty(b: seq<Cell>)
  {
    CountFilled(b) == 0
  }

  /** `is_filled`. */
  predicate IsFilled(b: seq<Cell>)
  {
    CountFilled(b) == |b|
  }

  lemma {:induction false} CountFilledBounds(b: seq<Cell>)
    ensures CountFilled(b) == |b| <==> forall i :: 0 <= i < |b| ==> b[i].digit.Some?
    ensures CountFilled(b) == 0 <==> forall i :: 0 <= i < |b| ==> b[i].digit.None?
  {
    if b != [] {
      CountFilledBounds(b[1..]);
      assert forall i :: 1 <= i < |b| ==> b[i] == b[1..][i - 1];
    }
  }

  /** Replacing one cell changes the count by what that cell contributes. */
  lemma {:induction false} CountFilledUpdate(b: seq<Cell>, i: nat, c: Cell)
    requires i < |b|
    ensures CountFilled(b[i := c]) ==
      CountFilled(b) - (if b[i].digit.Some? then 1 else 0) + (if c.digit.Some? then 1 else 0)
  {
    if i > 0 {
      CountFilledUpdate(b[1..], i - 1, c);
      assert b[i := c][1..] == b[1..][i - 1 := c];
    } else {
      assert b[i := c][1..] == b[1..];
    }
  }

  /** A board with no empty cell has at least one; used to turn "not filled" into a witness. */
  lemma NotFilledHasEmpty(b: Board) returns (i: nat)
    requires !IsFilled(b)
    ensures i < |b| && b[i].digit.None?
  {
    CountFilledBounds(b);
    i :| 0 <= i < |b| && b[i].digit.None?;
  }

  // ---------------------------------------------------------------------------
  // Updating a single cell

  /** The board with the digit of cell `index` replaced and every other field and cell kept. */
  function WithDigit(b: Board, index: nat, digit: Option<Digit>): (r: Board)
    requires index < |b|
    ensures |r| == |b|
    ensures r[index].digit == digit && r[index].coord == b[index].coord
    ensures r[index].candidates == b[index].candidates && r[index].isGiven == b[index].isGiven
    ensures forall k :: 0 <= k < |b| && k != index ==> r[k] == b[k]
  {
    b[index := b[index].(digit := digit)]
  }

  /** `with_cell`: `set_cell` on an owned board; an index past the board leaves it as it was. */
  function WithCell(b: Board, i: SudokuIndex, d: Digit): (r: Board)
    ensures |r| == |b|
    ensures forall k :: 0 <= k < |b| && k != i.IntoIndex() ==> r[k] == b[k]
    ensures i.IntoIndex() < |b| ==> r[i.IntoIndex()] == b[i.IntoIndex()].(digit := Some(d))
  {
    if i.IntoIndex() < |b| then WithDigit(b, i.IntoIndex(), Some(d)) else b
  }

  // ---------------------------------------------------------------------------
  // Validity

  /** No two distinct cells of one house hold the same digit. */
  predicate NoDuplicateDigits(b: Board)
  {
    |b| == 81 &&
    forall i, j {:trigger SameHouse(i, j)} :: 0 <= i < 81 && 0 <= j < 81 && i != j && SameHouse(i, j) && b[i].digit.Some? ==>
      b[i].digit != b[j].digit
  }

  /**
   * `house_is_unique` as written: the filled cells, whole `Cell` values
   * (coordinate included), are inserted into a `HashSet`, failing on the first
   * value already present.
   */
  function HouseIsUnique(cells: seq<Cell>, used: set<Cell>): bool
  {
    if cells == [] then true
    else if cells[0].digit.None? then HouseIsUnique(cells[1..], used)
    else cells[0] !in used && HouseIsUnique(cells[1..], used + {cells[0]})
  }

  /** `is_valid` as written: every row (`chunks(9)`), column and square passes `house_is_unique`. */
  predicate IsValid(b: Board)
    requires |b| == 81
  {
    (forall r :: 0 <= r < 9 ==> HouseIsUnique(Row(b, r), {})) &&
    (forall c :: 0 <= c < 9 ==> HouseIsUnique(Col(b, c), {})) &&
    (forall s :: 0 <= s < 9 ==> HouseIsUnique(Square(b, Flat(s)), {}))
  }

  /** `house_is_unique` fails exactly on two equal filled cells, or a filled cell already used. */
  lemma {:induction false} HouseIsUniqueIff(cells: seq<Cell>, used: set<Cell>)
    ensures HouseIsUnique(cells, used) <==>
      (forall k :: 0 <= k < |cells| && cells[k].digit.Some? ==> cells[k] !in used) &&
      (forall k, l :: 0 <= k < l < |cells| && cells[k].digit.Some? ==> cells[k] != cells[l])
  {
    if cells != [] {
      var used' := if cells[0].digit.Some? then used + {cells[0]} else used;
      HouseIsUniqueIff(cells[1..], used');
      assert forall k :: 1 <= k < |cells| ==> cells[k] == cells[1..][k - 1];
    }
  }

  /** Cells at distinct positions of a board with canonical coordinates are distinct values. */
  lemma CanonicalHouseIsUnique(b: Board, idx: seq<nat>)
    requires CanonicalCoords(b)
    requires forall k :: 0 <= k < |idx| ==> idx[k] < 81
    requires forall k, l :: 0 <= k < l < |idx| ==> idx[k] != idx[l]
    ensures HouseIsUnique(Pick(b, idx), {})
  {
    var cells := Pick(b, idx);
    forall k, l | 0 <= k < l < |cells|
      ensures cells[k] != cells[l]
    {
      if cells[k] == cells[l] {
        FromIndexInjective(idx[k], idx[l]);
      }
    }
    HouseIsUniqueIff(cells, {});
  }

  /** Because whole cells are compared, `is_valid` holds of every board with canonical coordinates. */
  lemma IsValidOnCanonical(b: Board)
    requires CanonicalCoords(b)
    ensures IsValid(b)
  {
    forall r | 0 <= r < 9
      ensures HouseIsUnique(Row(b, r), {})
    {
      CanonicalHouseIsUnique(b, RowIndices(r));
    }
    forall c | 0 <= c < 9
      ensures HouseIsUnique(Col(b, c), {})
    {
      CanonicalHouseIsUnique(b, ColIndices(c));
    }
    forall s | 0 <= s < 9
      ensures HouseIsUnique(Square(b, Flat(s)), {})
    {
      CanonicalHouseIsUnique(b, SquareIndices(FromIndexOf(s, 3)));
    }
  }

  /** Row 0 holds 1..9 and cell 9 (row 1, column 0) holds a second 1, under the first one. */
  function ColumnClashBoard(): (b: Board)
    ensures CanonicalCoords(b)
  {
    seq(81, i requires 0 <= i < 81 =>
      Cell(FromIndex(i),
           if i < 9 then Some((i + 1) as Digit) else if i == 9 then Some(1) else None,
           Candidates.Empty(), i <= 9))
  }

  /** `is_valid` as written accepts a board with two 1s in column 0. */
  lemma IsValidMissesColumnClash()
    ensures IsValid(ColumnClashBoard())
    ensures !NoDuplicateDigits(ColumnClashBoard())
  {
    var b := ColumnClashBoard();
    IsValidOnCanonical(b);
    assert SameHouse(0, 9) && b[0].digit == b[9].digit;
  }

  /** The digit-based house check: the `HashSet` holds digits. */
  function HouseDigitsUnique(cells: seq<Cell>, used: set<Digit>): bool
  {
    if cells == [] then true
    else if cells[0].digit.None? then HouseDigitsUnique(cells[1..], used)
    else cells[0].digit.value !in used && HouseDigitsUnique(cells[1..], used + {cells[0].digit.value})
  }

  /** `is_valid` with digits compared instead of whole cells. */
  predicate IsValidDigits(b: Board)
    requires |b| == 81
  {
    (forall r :: 0 <= r < 9 ==> HouseDigitsUnique(Row(b, r), {})) &&
    (forall c :: 0 <= c < 9 ==> HouseDigitsUnique(Col(b, c), {})) &&
    (forall s :: 0 <= s < 9 ==> HouseDigitsUnique(Square(b, Flat(s)), {}))
  }

  lemma {:induction false} HouseDigitsUniqueIff(cells: seq<Cell>, used: set<Digit>)
    ensures HouseDigitsUnique(cells, used) <==>
      (forall k :: 0 <= k < |cells| && cells[k].digit.Some? ==> cells[k].digit.value !in used) &&
      (forall k, l :: 0 <= k < l < |cells| && cells[k].digit.Some? ==> cells[k].digit != cells[l].digit)
  {
    if cells != [] {
      var used' := if cells[0].digit.Some? then used + {cells[0].digit.value} else used;
      HouseDigitsUniqueIff(cells[1..], used');
      assert forall k :: 1 <= k < |cells| ==> cells[k] == cells[1..][k - 1];
    }
  }

  /** The filled cells at the listed positions hold pairwise different digits. */
  predicate DistinctDigitsAt(b: Board, idx: seq<nat>)
    requires forall k :: 0 <= k < |idx| ==> idx[k] < |b|
  {
    forall k, l :: 0 <= k < l < |idx| && b[idx[k]].digit.Some? ==> b[idx[k]].digit != b[idx[l]].digit
  }

  lemma HouseDigitsUniquePick(b: Board, idx: seq<nat>)
    requires forall k :: 0 <= k < |idx| ==> idx[k] < |b|
    ensures HouseDigitsUnique(Pick(b, idx), {}) <==> DistinctDigitsAt(b, idx)
  {
    HouseDigitsUniqueIff(Pick(b, idx), {});
  }

  /** Every row, column and box holds pairwise different digits, stated on index lists. */
  predicate HousesDistinct(b: Board)
    requires |b| == 81
  {
    forall h :: 0 <= h < 9 ==>
      DistinctDigitsAt(b, RowIndices(h)) && DistinctDigitsAt(b, ColIndices(h)) &&
      DistinctDigitsAt(b, SquareIndices(FromIndexOf(h, 3)))
  }

  lemma ValidDigitsByIndices(b: Board)
    requires |b| == 81
    ensures IsValidDigits(b) <==> HousesDistinct(b)
  {
    forall h | 0 <= h < 9
      ensures HouseDigitsUnique(Row(b, h), {}) <==> DistinctDigitsAt(b, RowIndices(h))
    {
      HouseDigitsUniquePick(b, RowIndices(h));
    }
    forall h | 0 <= h < 9
      ensures HouseDigitsUnique(Col(b, h), {}) <==> DistinctDigitsAt(b, ColIndices(h))
    {
      HouseDigitsUniquePick(b, ColIndices(h));
    }
    forall h | 0 <= h < 9
      ensures HouseDigitsUnique(Square(b, Flat(h)), {}) <==> DistinctDigitsAt(b, SquareIndices(FromIndexOf(h, 3)))
    {
      HouseDigitsUniquePick(b, SquareIndices(FromIndexOf(h, 3)));
    }
  }

  /** On a board without duplicates, cells that pairwise share a house hold distinct digits. */
  lemma NoDupHouse(b: Board, idx: seq<nat>)
    requires NoDuplicateDigits(b)
    requires forall k :: 0 <= k < |idx| ==> idx[k] < 81
    requires forall k, l :: 0 <= k < l < |idx| ==> idx[k] != idx[l] && SameHouse(idx[k], idx[l])
    ensures DistinctDigitsAt(b, idx)
  {
  }

  lemma NoDupImpliesHouses(b: Board)
    requires NoDuplicateDigits(b)
    ensures HousesDistinct(b)
  {
    forall h | 0 <= h < 9
      ensures DistinctDigitsAt(b, RowIndices(h)) && DistinctDigitsAt(b, ColIndices(h))
      ensures DistinctDigitsAt(b, SquareIndices(FromIndexOf(h, 3)))
    {
      var row, col := RowIndices(h), ColIndices(h);
      var c := FromIndexOf(h, 3);
      var sq := SquareIndices(c);
      forall k, l | 0 <= k < l < 9
        ensures SameHouse(row[k], row[l]) && SameHouse(col[k], col[l]) && SameHouse(sq[k], sq[l])
      {
        assert row[k] in row && row[l] in row && col[k] in col && col[l] in col;
        assert sq[k] in sq && sq[l] in sq;
        InRow(h, row[k]);
        InRow(h, row[l]);
        InCol(h, col[k]);
        InCol(h, col[l]);
        InSquare(c, sq[k]);
        InSquare(c, sq[l]);
      }
      NoDupHouse(b, row);
      NoDupHouse(b, col);
      NoDupHouse(b, sq);
    }
  }

  /** Two different positions of a list whose digits are distinct never hold the same digit. */
  lemma DistinctAtPositions(b: Board, idx: seq<nat>, k: nat, l: nat)
    requires forall x :: 0 <= x < |idx| ==> idx[x] < |b|
    requires DistinctDigitsAt(b, idx)
    requires k < |idx| && l < |idx| && k != l && b[idx[k]].digit.Some?
    ensures b[idx[k]].digit != b[idx[l]].digit
  {
  }

  /** Two different members of an index list with distinct digits hold different digits. */
  lemma PairInList(b: Board, idx: seq<nat>, i: nat, j: nat)
    requires forall x :: 0 <= x < |idx| ==> idx[x] < |b|
    requires DistinctDigitsAt(b, idx)
    requires i in idx && j in idx && i != j && i < |b| && b[i].digit.Some?
    ensures b[i].digit != b[j].digit
  {
    var k :| 0 <= k < |idx| && idx[k] == i;
    var l :| 0 <= l < |idx| && idx[l] == j;
    DistinctAtPositions(b, idx, k, l);
  }

  /** Any two cells sharing a house are two members of one of the 27 index lists. */
  lemma HousesImplyPair(b: Board, i: nat, j: nat)
    requires |b| == 81 && HousesDistinct(b)
    requires i < 81 && j < 81 && i != j && SameHouse(i, j) && b[i].digit.Some?
    ensures b[i].digit != b[j].digit
  {
    if i / 9 == j / 9 {
      var h := i / 9;
      assert DistinctDigitsAt(b, RowIndices(h));
      InRow(h, i);
      InRow(h, j);
      PairInList(b, RowIndices(h), i, j);
    } else if i % 9 == j % 9 {
      var h := i % 9;
      assert DistinctDigitsAt(b, ColIndices(h));
      InCol(h, i);
      InCol(h, j);
      PairInList(b, ColIndices(h), i, j);
    } else {
      BoxPair(b, i, j);
    }
  }

  lemma BoxPair(b: Board, i: nat, j: nat)
    requires |b| == 81 && HousesDistinct(b)
    requires i < 81 && j < 81 && i != j && SameBox(i, j) && b[i].digit.Some?
    ensures b[i].digit != b[j].digit
  {
    var c := Coord(i / 9 / 3, i % 9 / 3);
    var h := 3 * c.row + c.col;
    Div3(h, c.row, c.col);
    assert FromIndexOf(h, 3) == c;
    BoxDistinct(b, h);
    PairInBox(b, c, i, j);
  }

  lemma PairInBox(b: Board, c: Coord, i: nat, j: nat)
    requires |b| == 81 && c.row < 3 && c.col < 3 && DistinctDigitsAt(b, SquareIndices(c))
    requires i < 81 && j < 81 && i != j && b[i].digit.Some?
    requires i / 9 / 3 == c.row && i % 9 / 3 == c.col && j / 9 / 3 == c.row && j % 9 / 3 == c.col
    ensures b[i].digit != b[j].digit
  {
    InSquare(c, i);
    InSquare(c, j);
    PairInList(b, SquareIndices(c), i, j);
  }

  lemma BoxDistinct(b: Board, h: nat)
    requires |b| == 81 && HousesDistinct(b) && h < 9
    ensures DistinctDigitsAt(b, SquareIndices(FromIndexOf(h, 3)))
  {
  }

  /** The digit-based check is exactly "no duplicate digit in any house". */
  lemma IsValidDigitsIff(b: Board)
    requires |b| == 81
    ensures IsValidDigits(b) <==> NoDuplicateDigits(b)
  {
    ValidDigitsByIndices(b);
    if NoDuplicateDigits(b) {
      NoDupImpliesHouses(b);
    }
    if HousesDistinct(b) {
      forall i, j | 0 <= i < 81 && 0 <= j < 81 && i != j && SameHouse(i, j) && b[i].digit.Some?
        ensures b[i].digit != b[j].digit
      {
        HousesImplyPair(b, i, j);
      }
    }
  }

  /** The digit-based check rejects the board `is_valid` as written accepts. */
  lemma IsValidDigitsRejectsColumnClash()
    ensures IsValid(ColumnClashBoard()) && !IsValidDigits(ColumnClashBoard())
  {
    IsValidMissesColumnClash();
    IsValidDigitsIff(ColumnClashBoard());
  }

  // ---------------------------------------------------------------------------
  // The 81-character line

  /** One cell as printed by `to_str_line`: '0' when empty, else the digit. */
  function DigitChar(d: Option<Digit>): char
  {
    match d
    case None => '0'
    case Some(v) => ('0' as int + v as int) as char
  }

  /** `to_str_line`. */
  function ToStrLine(b: Board): (s: string)
    ensures |s| == |b|
  {
    seq(|b|, i requires 0 <= i < |b| => DigitChar(b[i].digit))
  }

  /** A line `from_str_line` accepts; anything else makes one of its `unwrap`s panic. */
  predicate IsDigitLine(s: string)
  {
    |s| == 81 && forall i :: 0 <= i < |s| ==> '0' <= s[i] <= '9'
  }

  /** `from_str_line`. */
  function FromStrLine(s: string): (b: Board)
    requires IsDigitLine(s)
    ensures |b| == 81
  {
    seq(81, i requires 0 <= i < 81 =>
      Cell(FromIndex(i),
           if s[i] == '0' then None else Some((s[i] as int - '0' as int) as Digit),
           Candidates.Empty(),
           s[i] != '0'))
  }

  /** Parsed cells: canonical coordinates, no candidates, given exactly when filled. */
  predicate AsParsed(b: Board)
  {
    CanonicalCoords(b) &&
    forall i :: 0 <= i < |b| ==> b[i].candidates == Candidates.Empty() && b[i].isGiven == b[i].digit.Some?
  }

  lemma ParsedShape(s: string)
    requires IsDigitLine(s)
    ensures AsParsed(FromStrLine(s))
    ensures forall i :: 0 <= i < 81 ==> (FromStrLine(s)[i].digit.None? <==> s[i] == '0')
  {
  }

  lemma StrLineRoundTrip(s: string)
    requires IsDigitLine(s)
    ensures ToStrLine(FromStrLine(s)) == s
  {
  }

  lemma BoardRoundTrip(b: Board)
    requires AsParsed(b)
    ensures IsDigitLine(ToStrLine(b)) && FromStrLine(ToStrLine(b)) == b
  {
    var s := ToStrLine(b);
    assert IsDigitLine(s);
    forall i | 0 <= i < 81
      ensures FromStrLine(s)[i] == b[i]
    {
    }
  }

  // ---------------------------------------------------------------------------
  // The empty board

  /** `Sudoku::default()` / `new_empty`: canonical coordinates, every cell empty and not given. */
  function EmptyBoard(): (b: Board)
  {
    seq(81, i requires 0 <= i < 81 => Cell(FromIndex(i), None, Candidates.Empty(), false))
  }

  lemma EmptyBoardProperties()
    ensures CanonicalCoords(EmptyBoard()) && IsEmpty(EmptyBoard()) && !IsFilled(EmptyBoard())
    ensures NoDuplicateDigits(EmptyBoard()) && IsValid(EmptyBoard())
  {
    EmptyBoardCanonical();
    EmptyBoardBlank();
    EmptyBoardNoDuplicates();
    IsValidOnCanonical(EmptyBoard());
  }

  lemma EmptyBoardCanonical()
    ensures CanonicalCoords(EmptyBoard())
  {
  }

  lemma EmptyBoardBlank()
    ensures IsEmpty(EmptyBoard()) && !IsFilled(EmptyBoard())
  {
    CountFilledBounds(EmptyBoard());
    assert EmptyBoard()[0].digit.None?;
  }

  lemma EmptyBoardNoDuplicates()
    ensures NoDuplicateDigits(EmptyBoard())
  {
  }
}
