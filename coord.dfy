/**
 * Board geometry: the size constants (src/consts.rs), `Coord` and its
 * conversions to and from a flat cell index, and the `SudokuIndex` trait with
 * its two implementations (src/sudoku.rs).
 */
module Coords {

  const SQUARE_SIZE: nat := 3
  const HOUSE_SIZE: nat := SQUARE_SIZE * SQUARE_SIZE
  const GRID_SIZE: nat := HOUSE_SIZE * HOUSE_SIZE

  /** A (row, column) pair of `usize`s. */
  datatype Coord = Coord(row: nat, col: nat)

  /** `Coord::from_index_of`: row-major position of `index` in a grid `size` wide. */
  function FromIndexOf(index: nat, size: nat): Coord
    requires size > 0
  {
    Coord(index / size, index % size)
  }

  /** `Coord::from_index`. */
  function FromIndex(index: nat): (c: Coord)
    ensures index < GRID_SIZE ==> c.row < HOUSE_SIZE && c.col < HOUSE_SIZE
  {
    FromIndexOf(index, HOUSE_SIZE)
  }

  /**
   * The two implementations of `SudokuIndex`: a `usize` is its own index, a
   * `Coord` is flattened row-major.
   */
  datatype SudokuIndex = Flat(index: nat) | At(coord: Coord)
  {
    function IntoIndexOf(size: nat): nat
    {
      match this
      case Flat(i) => i
      case At(c) => c.row * size + c.col
    }

    function IntoIndex(): nat
    {
      IntoIndexOf(HOUSE_SIZE)
    }
  }

  /** `cell_coord_to_square_coord`: the 3x3 box a cell lies in. */
  function CellCoordToSquareCoord(c: Coord): (s: Coord)
    ensures c.row < HOUSE_SIZE && c.col < HOUSE_SIZE ==> s.row < SQUARE_SIZE && s.col < SQUARE_SIZE
  {
    Coord(c.row / SQUARE_SIZE, c.col / SQUARE_SIZE)
  }

  /** Flattening the coordinate of an index gives the index back. */
  lemma IndexRoundTrip(i: nat)
    ensures At(FromIndex(i)).IntoIndex() == i
  {
  }

  /** A coordinate whose column is in range survives flattening and unflattening. */
  lemma CoordRoundTrip(c: Coord)
    requires c.col < HOUSE_SIZE
    ensures FromIndex(At(c).IntoIndex()) == c
  {
  }

  /** Same round trip for the 3-wide grid of boxes used by `square`. */
  lemma SquareCoordRoundTrip(c: Coord)
    requires c.col < SQUARE_SIZE
    ensures FromIndexOf(At(c).IntoIndexOf(SQUARE_SIZE), SQUARE_SIZE) == c
  {
  }

  /** Two indices with the same coordinate are the same index. */
  lemma FromIndexInjective(i: nat, j: nat)
    requires FromIndex(i) == FromIndex(j)
    ensures i == j
  {
    IndexRoundTrip(i);
    IndexRoundTrip(j);
  }

  /** The box of a cell is (row / 3, column / 3); as a flat box number, row-major. */
  lemma BoxOfCell(i: nat)
    requires i < GRID_SIZE
    ensures At(CellCoordToSquareCoord(FromIndex(i))).IntoIndexOf(SQUARE_SIZE) == 3 * (i / 27) + i % 9 / 3
  {
  }
}
