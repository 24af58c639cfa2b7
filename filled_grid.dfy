/**
 * `LatinSquares::generate_filled_sudoku` and `swap_rows` of
 * src/generate/latin_squares.rs: nine random 3x3 Latin squares become the
 * nine boxes, each symbol d of box k paired with symbol s of a tenth "big"
 * Latin square at position k as the digit d + 3s + 1; then rows 1 and 3,
 * 2 and 6, 5 and 7 swap digits. The result is a solved board.
 */
module FilledGrids {
  import opened Wrappers
  import opened Digits
  import opened CandidateSets
  import opened Coords
  import opened Board
  import opened BoardOps
  import opened Completions
  import opened Randomness
  import opened LatinSquares

  // ---------------------------------------------------------------------------
  // convert_base_3_to_10

  /** The decimal digits of `n` read as the digits of a base-3 numeral. */
  function FromBase3(n: nat): nat
  {
    if n == 0 then 0 else n % 10 + 3 * FromBase3(n / 10)
  }

  function Pow3(i: nat): (p: nat)
    ensures p >= 1
  {
    if i == 0 then 1 else 3 * Pow3(i - 1)
  }

  /**
   * `convert_base_3_to_10`: adds up each decimal digit of `num` times the
   * power of 3 of its place. Computed on unbounded integers; every value the
   * generator passes is at most 22, so no `u8` step overflows.
   */
  method ConvertBase3To10(num: nat) returns (result: nat)
    ensures result == FromBase3(num)
  {
    var n: nat := num;
    var i: nat := 0;
    result := 0;
    while n > 0
      invariant result + Pow3(i) * FromBase3(n) == FromBase3(num)
      decreases n
    {
      var exponent := Pow3(i);
      ConvertStep(result, exponent, n);
      assert Pow3(i + 1) == 3 * exponent;
      var placeValue := Product(n % 10, exponent);
      result := result + placeValue;
      n := n / 10;
      i := i + 1;
    }
    assert FromBase3(0) == 0;
  }

  /** One step of the conversion: the last decimal digit moves into the result. */
  lemma ConvertStep(result: nat, p: nat, n: nat)
    requires n > 0
    ensures result + p * FromBase3(n) == (result + (n % 10) * p) + (3 * p) * FromBase3(n / 10)
  {
    var rest := FromBase3(n / 10);
    assert FromBase3(n) == n % 10 + 3 * rest;
    Distribute(p, n % 10, rest);
  }

  function Product(a: nat, b: nat): (p: nat)
    ensures p == a * b
  {
    a * b
  }

  lemma Distribute(p: nat, a: nat, b: nat)
    ensures p * (a + 3 * b) == a * p + (3 * p) * b
  {
  }

  /**
   * The pairing the generator relies on: the decimal number with digits s, d
   * read in base 3 is d + 3s.
   */
  lemma FromBase3Pair(d: nat, s: nat)
    requires d < 10 && s < 10
    ensures FromBase3(d + 10 * s) == d + 3 * s
  {
    var n := d + 10 * s;
    if n > 0 {
      assert n % 10 == d && n / 10 == s;
      assert FromBase3(n) == d + 3 * FromBase3(s);
      if s > 0 {
        assert s % 10 == s && s / 10 == 0;
        assert FromBase3(s) == s + 3 * FromBase3(0);
      }
    }
  }

  /** A symbol pair of two Latin squares gives a digit 1..9, and different pairs give different digits. */
  lemma PairedDigit(d1: nat, s1: nat, d2: nat, s2: nat)
    requires d1 < 3 && s1 < 3 && d2 < 3 && s2 < 3
    ensures 1 <= FromBase3(d1 + 10 * s1) + 1 <= 9
    ensures FromBase3(d1 + 10 * s1) == FromBase3(d2 + 10 * s2) <==> d1 == d2 && s1 == s2
  {
    FromBase3Pair(d1, s1);
    FromBase3Pair(d2, s2);
  }

  /**
   * The digit a symbol pair stands for: `convert_base_3_to_10` of the two
   * symbols written as the decimal digits of one number, plus one.
   */
  function PairDigit(symbol: nat, bigSymbol: nat): (d: Digit)
    requires symbol < 3 && bigSymbol < 3
    ensures d as nat == FromBase3(symbol + 10 * bigSymbol) + 1
  {
    FromBase3Pair(symbol, bigSymbol);
    (symbol + 3 * bigSymbol + 1) as u8
  }

  /** Every symbol `x` of a square turned into `convert_base_3_to_10(x + bigSquareValue) + 1`. */
  function PairedSquare(g: seq<nat>, bigSquareValue: nat): (p: seq<nat>)
    ensures |p| == |g|
  {
    seq(|g|, x requires 0 <= x < |g| => FromBase3(g[x] + bigSquareValue) + 1)
  }

  lemma PairedSquareDigit(g: seq<nat>, bigSymbol: nat, x: nat)
    requires x < |g| && g[x] < 3 && bigSymbol < 3
    ensures PairedSquare(g, 10 * bigSymbol)[x] == PairDigit(g[x], bigSymbol) as nat
  {
  }

  /** The inner loops over one square: each symbol is paired with `bigSquareValue` in place. */
  method PairSquare(square: array<nat>, bigSquareValue: nat)
    modifies square
    ensures square[..] == PairedSquare(old(square[..]), bigSquareValue)
  {
    for x := 0 to square.Length
      invariant forall y :: 0 <= y < x ==> square[y] == FromBase3(old(square[y]) + bigSquareValue) + 1
      invariant forall y :: x <= y < square.Length ==> square[y] == old(square[y])
    {
      var paired := square[x] + bigSquareValue;
      var base10 := ConvertBase3To10(paired);
      square[x] := base10 + 1;
    }
  }

  // ---------------------------------------------------------------------------
  // swap_rows

  /** Exchanging rows `r1` and `r2` maps row `r` to the row whose digits it receives. */
  function Transposition(r1: nat, r2: nat, r: nat): nat
  {
    if r == r1 then r2 else if r == r2 then r1 else r
  }

  /** Cell `i` of `b` once rows `r1` and `r2` have exchanged digits. */
  function SwappedCell(b: Board, r1: nat, r2: nat, i: nat): Cell
    requires |b| == 81 && r1 < 9 && r2 < 9 && i < 81
  {
    b[i].(digit := b[9 * Transposition(r1, r2, i / 9) + i % 9].digit)
  }

  /**
   * The board with the digits of rows `r1` and `r2` exchanged; coordinates,
   * candidates and `is_given` stay with their cells.
   */
  function RowsSwapped(b: Board, r1: nat, r2: nat): (s: Board)
    requires |b| == 81 && r1 < 9 && r2 < 9
    ensures |s| == 81
  {
    seq(81, i requires 0 <= i < 81 => SwappedCell(b, r1, r2, i))
  }

  /** Columns `0 .. col` of rows `r1` and `r2` have exchanged digits; nothing else has changed. */
  ghost predicate SwappedBefore(a: seq<Cell>, b: Board, r1: nat, r2: nat, col: nat)
    requires |b| == 81 && r1 < 9 && r2 < 9
  {
    |a| == 81 && forall i :: 0 <= i < 81 ==> a[i] == if i % 9 < col then SwappedCell(b, r1, r2, i) else b[i]
  }

  /** One column of `swap_rows::inner`. */
  lemma SwapColumnStep(a: seq<Cell>, b: Board, r1: nat, r2: nat, col: nat)
    requires |b| == 81 && r1 < 9 && r2 < 9 && col < 9 && SwappedBefore(a, b, r1, r2, col)
    ensures var x, y := 9 * r1 + col, 9 * r2 + col;
      var a1 := a[x := a[x].(digit := a[y].digit)];
      SwappedBefore(a1[y := a1[y].(digit := a[x].digit)], b, r1, r2, col + 1)
  {
    var x, y := 9 * r1 + col, 9 * r2 + col;
    var a1 := a[x := a[x].(digit := a[y].digit)];
    var a2 := a1[y := a1[y].(digit := a[x].digit)];
    forall i | 0 <= i < 81
      ensures a2[i] == if i % 9 < col + 1 then SwappedCell(b, r1, r2, i) else b[i]
    {
      SwapColumnCell(a, b, r1, r2, col, i);
    }
  }

  /** Cell `i` after the exchange in column `col`. */
  lemma SwapColumnCell(a: seq<Cell>, b: Board, r1: nat, r2: nat, col: nat, i: nat)
    requires |b| == 81 && r1 < 9 && r2 < 9 && col < 9 && SwappedBefore(a, b, r1, r2, col) && i < 81
    ensures var x, y := 9 * r1 + col, 9 * r2 + col;
      var a1 := a[x := a[x].(digit := a[y].digit)];
      a1[y := a1[y].(digit := a[x].digit)][i] == if i % 9 < col + 1 then SwappedCell(b, r1, r2, i) else b[i]
  {
    var x, y := 9 * r1 + col, 9 * r2 + col;
    Div9(x, r1, col);
    Div9(y, r2, col);
    assert a[x] == b[x] && a[y] == b[y];
    if i != x && i != y {
      var q, c := i / 9, i % 9;
      Div9(i, q, c);
      if c == col {
        assert q != r1 && q != r2;
        assert SwappedCell(b, r1, r2, i) == b[i];
      }
    }
  }

  /** The row whose digits row `r` holds after `swap_rows`. */
  function RowSwap(r: nat): nat
  {
    Transposition(1, 3, Transposition(2, 6, Transposition(5, 7, r)))
  }

  function SwapRowsOf(b: Board): (s: Board)
    requires |b| == 81
    ensures |s| == 81
  {
    RowsSwapped(RowsSwapped(RowsSwapped(b, 1, 3), 2, 6), 5, 7)
  }

  /** `swap_rows::inner`: exchanges the digits of rows `r1` and `r2`, column by column. */
  method SwapRowDigits(a: array<Cell>, r1: nat, r2: nat)
    requires a.Length == 81 && r1 < 9 && r2 < 9
    modifies a
    ensures a[..] == RowsSwapped(old(a[..]), r1, r2)
  {
    ghost var b := a[..];
    for col := 0 to HOUSE_SIZE
      invariant SwappedBefore(a[..], b, r1, r2, col)
    {
      var r1Index := At(Coord(r1, col)).IntoIndex();
      var r2Index := At(Coord(r2, col)).IntoIndex();
      SwapColumnStep(a[..], b, r1, r2, col);
      var tempDigit := a[r1Index].digit;
      a[r1Index] := a[r1Index].(digit := a[r2Index].digit);
      a[r2Index] := a[r2Index].(digit := tempDigit);
    }
    assert a[..] == RowsSwapped(b, r1, r2);
  }

  /** `swap_rows`: rows 1 and 3, then 2 and 6, then 5 and 7. */
  method SwapRows(a: array<Cell>)
    requires a.Length == 81
    modifies a
    ensures a[..] == SwapRowsOf(old(a[..]))
  {
    SwapRowDigits(a, 1, 3);
    SwapRowDigits(a, 2, 6);
    SwapRowDigits(a, 5, 7);
  }

  /**
   * The three swaps regroup the rows: row r of the result holds old row
   * 3 * (r % 3) + r / 3, so the three rows of a band come from the same row
   * of the three old bands.
   */
  lemma RowSwapRegroups(r: nat)
    requires r < 9
    ensures RowSwap(r) == 3 * (r % 3) + r / 3 && RowSwap(r) < 9
    ensures RowSwap(RowSwap(r)) == r
  {
  }

  /** After `swap_rows` every cell keeps its other fields and holds the digit from its column in row `RowSwap`. */
  lemma {:induction false} SwapRowsMoves(b: Board, i: nat)
    requires |b| == 81 && i < 81
    ensures SwapRowsOf(b)[i] == b[i].(digit := b[9 * RowSwap(i / 9) + i % 9].digit)
  {
    var r, c := i / 9, i % 9;
    var b1 := RowsSwapped(b, 1, 3);
    var b2 := RowsSwapped(b1, 2, 6);
    var r3 := Transposition(5, 7, r);
    var r2 := Transposition(2, 6, r3);
    var i3, i2 := 9 * r3 + c, 9 * r2 + c;
    Div9(i3, r3, c);
    Div9(i2, r2, c);
    var d := b[9 * Transposition(1, 3, r2) + c].digit;
    assert b1[i2].digit == d;
    assert b2[i3].digit == d;
    assert b2[i] == b[i].(digit := b2[i].digit);
  }

  /** `swap_rows` undoes itself: its swaps are disjoint transpositions. */
  lemma SwapRowsInvolution(b: Board)
    requires |b| == 81
    ensures SwapRowsOf(SwapRowsOf(b)) == b
  {
    forall i | 0 <= i < 81
      ensures SwapRowsOf(SwapRowsOf(b))[i] == b[i]
    {
      SwapRowsTwice(b, i);
    }
  }

  lemma SwapRowsTwice(b: Board, i: nat)
    requires |b| == 81 && i < 81
    ensures SwapRowsOf(SwapRowsOf(b))[i] == b[i]
  {
    var r, c := i / 9, i % 9;
    var j := 9 * RowSwap(r) + c;
    RowSwapRegroups(r);
    Div9(j, RowSwap(r), c);
    Div9(i, r, c);
    var s := SwapRowsOf(b);
    SwapRowsMoves(s, i);
    SwapRowsMoves(b, j);
    assert s[j].digit == b[i].digit;
    assert s[i] == b[i].(digit := s[i].digit) by {
      SwapRowsMoves(b, i);
    }
  }

  // ---------------------------------------------------------------------------
  // Assembling the board

  /** The place of cell `i` within its box, row-major (0..8). */
  function CellInBox(i: nat): nat
  {
    3 * (i / 9 % 3) + i % 9 % 3
  }

  /** Nine 3x3 Latin squares, one per box. */
  predicate AllLatin(latin: seq<seq<nat>>)
  {
    |latin| == 9 && forall k :: 0 <= k < 9 ==> IsLatin(latin[k])
  }

  /**
   * The digit the fill loop writes into cell `i`: the symbol of square
   * `BoxOf(i)` at the cell's place in its box, paired with symbol `BoxOf(i)`
   * of the big square.
   */
  function PairedAt(latin: seq<seq<nat>>, big: seq<nat>, i: nat): (d: Digit)
    requires AllLatin(latin) && IsLatin(big) && i < 81
  {
    var k := BoxOf(i);
    SymbolBound(latin[k], CellInBox(i));
    SymbolBound(big, k);
    PairDigit(latin[k][CellInBox(i)], big[k])
  }

  /** Every entry of a Latin square is a symbol 0, 1 or 2. */
  lemma SymbolBound(g: seq<nat>, x: nat)
    requires IsLatin(g) && x < 9
    ensures g[x] < 3
  {
    assert g[x] == LatinSquares.At(g, x / 3, x % 3);
  }

  /** The board before `swap_rows`: the empty board with every cell holding its paired digit. */
  function Assembled(latin: seq<seq<nat>>, big: seq<nat>): (b: Board)
    requires AllLatin(latin) && IsLatin(big)
    ensures |b| == 81
  {
    seq(81, i requires 0 <= i < 81 => EmptyBoard()[i].(digit := Some(PairedAt(latin, big, i))))
  }

  /** The position of cell `i` in the order the fill loop visits cells: box by box, each box row-major. */
  function FillOrder(i: nat): nat
  {
    9 * BoxOf(i) + CellInBox(i)
  }

  /** The cells before position `n` of the fill order are as in `t`; the rest are as `new_empty` made them. */
  ghost predicate FilledBefore(a: seq<Cell>, t: Board, n: nat)
    requires |t| == 81
  {
    |a| == 81 && forall i :: 0 <= i < 81 ==> a[i] == if FillOrder(i) < n then t[i] else EmptyBoard()[i]
  }

  /** `square_mut(box)` yields, at position `ci`, the cell of box `box` at place `ci`. */
  lemma BoxCell(box: nat, ci: nat)
    requires box < 9 && ci < 9
    ensures var j := SquareIndices(FromIndexOf(box, SQUARE_SIZE))[ci];
      j < 81 && BoxOf(j) == box && CellInBox(j) == ci && FillOrder(j) == 9 * box + ci
  {
    var j := SquareIndices(FromIndexOf(box, SQUARE_SIZE))[ci];
    Div9(j, 3 * (box / 3) + ci / 3, 3 * (box % 3) + ci % 3);
    Div3(3 * (box / 3) + ci / 3, box / 3, ci / 3);
    Div3(3 * (box % 3) + ci % 3, box % 3, ci % 3);
  }

  /** The fill order visits every cell once. */
  lemma FillOrderInjective(i: nat, j: nat)
    requires i < 81 && j < 81 && FillOrder(i) == FillOrder(j)
    ensures i == j
  {
    Div9(FillOrder(i), BoxOf(i), CellInBox(i));
    Div9(FillOrder(j), BoxOf(j), CellInBox(j));
    Div3(BoxOf(i), i / 9 / 3, i % 9 / 3);
    Div3(BoxOf(j), j / 9 / 3, j % 9 / 3);
    Div3(CellInBox(i), i / 9 % 3, i % 9 % 3);
    Div3(CellInBox(j), j / 9 % 3, j % 9 % 3);
  }

  /** One write of the fill loop: the cell at place `ci` of box `box` takes its value from `t`. */
  lemma FillStep(a: seq<Cell>, t: Board, box: nat, ci: nat)
    requires |t| == 81 && box < 9 && ci < 9 && FilledBefore(a, t, 9 * box + ci)
    requires var j := SquareIndices(FromIndexOf(box, SQUARE_SIZE))[ci];
      j < 81 && t[j] == EmptyBoard()[j].(digit := t[j].digit)
    ensures var j := SquareIndices(FromIndexOf(box, SQUARE_SIZE))[ci];
      FilledBefore(a[j := a[j].(digit := t[j].digit)], t, 9 * box + ci + 1)
  {
    var j := SquareIndices(FromIndexOf(box, SQUARE_SIZE))[ci];
    BoxCell(box, ci);
    forall i | 0 <= i < 81 && i != j
      ensures FillOrder(i) != 9 * box + ci
    {
      if FillOrder(i) == 9 * box + ci {
        FillOrderInjective(i, j);
      }
    }
  }

  /** The digit written at place `ci` of box `box` is symbol `ci` of the paired square `box`. */
  lemma PairedAtBoxCell(latin: seq<seq<nat>>, big: seq<nat>, box: nat, ci: nat)
    requires AllLatin(latin) && IsLatin(big) && box < 9 && ci < 9
    ensures var j := SquareIndices(FromIndexOf(box, SQUARE_SIZE))[ci];
      j < 81 && PairedAt(latin, big, j) as nat == PairedSquare(latin[box], 10 * big[box])[ci]
  {
    var j := SquareIndices(FromIndexOf(box, SQUARE_SIZE))[ci];
    BoxCell(box, ci);
    SymbolBound(latin[box], ci);
    SymbolBound(big, box);
    assert PairedAt(latin, big, j) == PairDigit(latin[box][ci], big[box]);
    PairedSquareDigit(latin[box], big[box], ci);
  }

  lemma FillOrderBound(i: nat)
    requires i < 81
    ensures FillOrder(i) < 81
  {
  }

  /** Once all 81 positions are visited the board is `t`. */
  lemma FillDone(a: seq<Cell>, t: Board)
    requires |t| == 81 && FilledBefore(a, t, 81)
    ensures a == t
  {
    forall i | 0 <= i < 81
      ensures a[i] == t[i]
    {
      FillOrderBound(i);
    }
  }

  // ---------------------------------------------------------------------------
  // The filled board is solved

  /** The symbol of the nine squares that cell `i` holds after the swaps. */
  function LatinSymbol(latin: seq<seq<nat>>, i: nat): (symbol: nat)
    requires AllLatin(latin) && i < 81
    ensures symbol < 3
  {
    LatinSquares.At(latin[3 * (i / 9 % 3) + i % 9 / 3], i / 9 / 3, i % 9 % 3)
  }

  /** The symbol of the big square that cell `i` is paired with after the swaps. */
  function BigSymbol(big: seq<nat>, i: nat): (symbol: nat)
    requires IsLatin(big) && i < 81
    ensures symbol < 3
  {
    LatinSquares.At(big, i / 9 % 3, i % 9 / 3)
  }

  /**
   * After the swaps, row R of the board holds row R / 3 of the three squares
   * of band R % 3, each paired with row R % 3 of the big square.
   */
  lemma SwappedPairedAt(latin: seq<seq<nat>>, big: seq<nat>, i: nat)
    requires AllLatin(latin) && IsLatin(big) && i < 81
    ensures 9 * RowSwap(i / 9) + i % 9 < 81
    ensures PairedAt(latin, big, 9 * RowSwap(i / 9) + i % 9) == FinalDigit(latin, big, i)
  {
    var row, col := i / 9, i % 9;
    RowSwapRegroups(row);
    var j := 9 * RowSwap(row) + col;
    Div9(j, RowSwap(row), col);
    Div3(RowSwap(row), row % 3, row / 3);
    var q, place := 3 * (row % 3) + col / 3, 3 * (row / 3) + col % 3;
    assert BoxOf(j) == q && CellInBox(j) == place;
    assert LatinSymbol(latin, i) == latin[q][place];
    assert BigSymbol(big, i) == big[q];
    SymbolBound(latin[q], place);
    SymbolBound(big, q);
    assert PairedAt(latin, big, j) == PairDigit(latin[q][place], big[q]);
  }

  /** Two different cells of one house differ in their square symbol or in their big-square symbol. */
  lemma SymbolsDiffer(latin: seq<seq<nat>>, big: seq<nat>, i: nat, j: nat)
    requires AllLatin(latin) && IsLatin(big) && i < 81 && j < 81 && i != j && SameHouse(i, j)
    ensures LatinSymbol(latin, i) != LatinSymbol(latin, j) || BigSymbol(big, i) != BigSymbol(big, j)
  {
    if i / 9 == j / 9 {
      RowSymbolsDiffer(latin, big, i, j);
    } else if i % 9 == j % 9 {
      ColumnSymbolsDiffer(latin, big, i, j);
    } else {
      BoxSymbolsDiffer(latin, big, i, j);
    }
  }

  /** In one row: the same row of the big square, and the same square row when the box is shared. */
  lemma RowSymbolsDiffer(latin: seq<seq<nat>>, big: seq<nat>, i: nat, j: nat)
    requires AllLatin(latin) && IsLatin(big) && i < 81 && j < 81 && i != j && i / 9 == j / 9
    ensures LatinSymbol(latin, i) != LatinSymbol(latin, j) || BigSymbol(big, i) != BigSymbol(big, j)
  {
    var r, c1, c2 := i / 9, i % 9, j % 9;
    Div9(i, r, c1);
    Div9(j, r, c2);
    assert c1 != c2;
    if c1 / 3 == c2 / 3 {
      var q := 3 * (r % 3) + c1 / 3;
      assert LatinSymbol(latin, i) == LatinSquares.At(latin[q], r / 3, c1 % 3);
      assert LatinSymbol(latin, j) == LatinSquares.At(latin[q], r / 3, c2 % 3);
      assert IsLatin(latin[q]);
    } else {
      assert BigSymbol(big, i) == LatinSquares.At(big, r % 3, c1 / 3);
      assert BigSymbol(big, j) == LatinSquares.At(big, r % 3, c2 / 3);
    }
  }

  /** In one column: rows of one residue come from different square rows, otherwise from different big-square rows. */
  lemma ColumnSymbolsDiffer(latin: seq<seq<nat>>, big: seq<nat>, i: nat, j: nat)
    requires AllLatin(latin) && IsLatin(big) && i < 81 && j < 81 && i != j && i % 9 == j % 9
    ensures LatinSymbol(latin, i) != LatinSymbol(latin, j) || BigSymbol(big, i) != BigSymbol(big, j)
  {
    var r1, r2, c := i / 9, j / 9, i % 9;
    Div9(i, r1, c);
    Div9(j, r2, c);
    assert r1 != r2;
    if r1 % 3 == r2 % 3 {
      var q := 3 * (r1 % 3) + c / 3;
      assert LatinSymbol(latin, i) == LatinSquares.At(latin[q], r1 / 3, c % 3);
      assert LatinSymbol(latin, j) == LatinSquares.At(latin[q], r2 / 3, c % 3);
      assert IsLatin(latin[q]);
    } else {
      assert BigSymbol(big, i) == LatinSquares.At(big, r1 % 3, c / 3);
      assert BigSymbol(big, j) == LatinSquares.At(big, r2 % 3, c / 3);
    }
  }

  /** In one box but another row: the rows lie in one band, so they come from different big-square rows. */
  lemma BoxSymbolsDiffer(latin: seq<seq<nat>>, big: seq<nat>, i: nat, j: nat)
    requires AllLatin(latin) && IsLatin(big) && i < 81 && j < 81 && i / 9 != j / 9 && SameBox(i, j)
    ensures BigSymbol(big, i) != BigSymbol(big, j)
  {
    var r1, r2, c1, c2 := i / 9, j / 9, i % 9, j % 9;
    assert r1 / 3 == r2 / 3 && c1 / 3 == c2 / 3;
    assert r1 % 3 != r2 % 3;
    assert BigSymbol(big, i) == LatinSquares.At(big, r1 % 3, c1 / 3);
    assert BigSymbol(big, j) == LatinSquares.At(big, r2 % 3, c1 / 3);
  }

  /** The digit cell `i` holds after the swaps. */
  function FinalDigit(latin: seq<seq<nat>>, big: seq<nat>, i: nat): (d: Digit)
    requires AllLatin(latin) && IsLatin(big) && i < 81
  {
    PairDigit(LatinSymbol(latin, i), BigSymbol(big, i))
  }

  /** Cell `i` of the returned board is the empty cell holding `FinalDigit`. */
  lemma SolvedCell(latin: seq<seq<nat>>, big: seq<nat>, i: nat)
    requires AllLatin(latin) && IsLatin(big) && i < 81
    ensures SwapRowsOf(Assembled(latin, big))[i] == EmptyBoard()[i].(digit := Some(FinalDigit(latin, big, i)))
  {
    var a := Assembled(latin, big);
    var j := 9 * RowSwap(i / 9) + i % 9;
    SwapRowsMoves(a, i);
    SwappedPairedAt(latin, big, i);
    assert a[j].digit == Some(PairedAt(latin, big, j));
    assert PairedAt(latin, big, j) == FinalDigit(latin, big, i);
  }

  /** No two different cells of one house get the same final digit. */
  lemma FinalDigitsDiffer(latin: seq<seq<nat>>, big: seq<nat>, i: nat, j: nat)
    requires AllLatin(latin) && IsLatin(big) && i < 81 && j < 81 && i != j && SameHouse(i, j)
    ensures FinalDigit(latin, big, i) != FinalDigit(latin, big, j)
  {
    SymbolsDiffer(latin, big, i, j);
  }

  /**
   * The board `generate_filled_sudoku` returns is a solution of the empty
   * board: every cell holds a digit, no house repeats one, and coordinates,
   * candidates and `is_given` are those of `new_empty`.
   */
  lemma FilledIsSolved(latin: seq<seq<nat>>, big: seq<nat>)
    requires AllLatin(latin) && IsLatin(big)
    ensures IsCompletion(EmptyBoard(), SwapRowsOf(Assembled(latin, big)))
  {
    var s := SwapRowsOf(Assembled(latin, big));
    forall i | 0 <= i < 81
      ensures s[i] == EmptyBoard()[i].(digit := Some(FinalDigit(latin, big, i)))
    {
      SolvedCell(latin, big, i);
    }
    forall i, j | 0 <= i < 81 && 0 <= j < 81 && i != j && SameHouse(i, j)
      ensures s[i].digit != s[j].digit
    {
      FinalDigitsDiffer(latin, big, i, j);
    }
  }

  // ---------------------------------------------------------------------------
  // generate_filled_sudoku

  /** `repeat_with(LatinSquare::new_random).take(9)`: nine fresh Latin squares, or None when one ran out of `retries`. */
  method DrawSquares(rng: Rng, retries: nat) returns (r: Option<seq<array<nat>>>)
    modifies rng
    ensures r.Some? ==> |r.value| == 9
    ensures r.Some? ==> forall k :: 0 <= k < 9 ==> fresh(r.value[k]) && IsLatin(r.value[k][..])
    ensures r.Some? ==> forall k, l :: 0 <= k < l < 9 ==> r.value[k] != r.value[l]
  {
    var squares: seq<array<nat>> := [];
    while |squares| < 9
      invariant |squares| <= 9
      invariant forall k :: 0 <= k < |squares| ==> fresh(squares[k]) && IsLatin(squares[k][..])
      invariant forall k, l :: 0 <= k < l < |squares| ==> squares[k] != squares[l]
      decreases 9 - |squares|
    {
      var square := NewRandom(rng, retries);
      if square.None? {
        return None;
      }
      squares := squares + [square.value];
    }
    r := Some(squares);
  }

  /**
   * The pairing loop: square k, with `row` and `col` counting its place in
   * the big square, has every symbol paired with `big_square[row][col]`.
   */
  method PairSquares(squares: seq<array<nat>>, bigSquare: array<nat>)
    requires |squares| == 9 && bigSquare.Length == 9
    requires forall k, l :: 0 <= k < l < 9 ==> squares[k] != squares[l]
    requires forall k :: 0 <= k < 9 ==> squares[k] != bigSquare
    modifies set k | 0 <= k < 9 :: squares[k]
    ensures forall m :: 0 <= m < 9 ==> squares[m][..] == PairedSquare(old(squares[m][..]), 10 * bigSquare[m])
  {
    var row, col := 0, 0;
    for k := 0 to 9
      invariant row == k / 3 && col == k % 3
      invariant forall m :: 0 <= m < 9 ==> squares[m][..] == if m < k then PairedSquare(old(squares[m][..]), 10 * bigSquare[m]) else old(squares[m][..])
    {
      var bigSquareValue := bigSquare[SQUARE_SIZE * row + col] * 10;
      PairSquare(squares[k], bigSquareValue);
      if col == 2 {
        col := 0;
        row := row + 1;
      } else {
        col := col + 1;
      }
    }
  }

  /** The fill loop: an empty board whose box k takes the symbols of the paired square k. */
  method FillBoard(squares: seq<array<nat>>, ghost latin: seq<seq<nat>>, ghost big: seq<nat>) returns (sudoku: array<Cell>)
    requires AllLatin(latin) && IsLatin(big) && |squares| == 9
    requires forall m :: 0 <= m < 9 ==> squares[m][..] == PairedSquare(latin[m], 10 * big[m])
    ensures fresh(sudoku) && sudoku[..] == Assembled(latin, big)
  {
    var empty := Default();
    sudoku := new Cell[81](i requires 0 <= i < 81 => empty[i]);
    ghost var target := Assembled(latin, big);
    for index := 0 to 9
      invariant FilledBefore(sudoku[..], target, 9 * index)
    {
      for cellIndex := 0 to 9
        invariant FilledBefore(sudoku[..], target, 9 * index + cellIndex)
      {
        FillCell(sudoku, squares, latin, big, index, cellIndex);
      }
    }
    FillDone(sudoku[..], target);
  }

  /** One step of the fill loop: cell `cellIndex` of box `index` gets its symbol of square `index`. */
  method FillCell(sudoku: array<Cell>, squares: seq<array<nat>>, ghost latin: seq<seq<nat>>, ghost big: seq<nat>,
                  index: nat, cellIndex: nat)
    requires AllLatin(latin) && IsLatin(big) && |squares| == 9 && index < 9 && cellIndex < 9
    requires squares[index][..] == PairedSquare(latin[index], 10 * big[index])
    requires FilledBefore(sudoku[..], Assembled(latin, big), 9 * index + cellIndex)
    modifies sudoku
    ensures FilledBefore(sudoku[..], Assembled(latin, big), 9 * index + cellIndex + 1)
  {
    ghost var target := Assembled(latin, big);
    var cells := SquareIndices(FromIndexOf(index, SQUARE_SIZE));
    var c := FromIndexOf(cellIndex, SQUARE_SIZE);
    var latinSquareDigit := squares[index][SQUARE_SIZE * c.row + c.col];
    PairedAtBoxCell(latin, big, index, cellIndex);
    FillStep(sudoku[..], target, index, cellIndex);
    var j := cells[cellIndex];
    assert latinSquareDigit == PairedAt(latin, big, j) as nat;
    var digit: Digit := latinSquareDigit as u8;
    sudoku[j] := sudoku[j].(digit := Some(digit));
  }

  /**
   * `generate_filled_sudoku`: nine random Latin squares and a big one are
   * drawn; each symbol of square k is paired with symbol k of the big square;
   * square k fills box k of an empty board; rows are swapped. The board is a
   * solution of the empty board, and it is exactly the one the drawn squares
   * determine. None when drawing a Latin square ran out of `retries`.
   */
  method GenerateFilledSudoku(rng: Rng, retries: nat) returns (r: Option<Board>, ghost latin: seq<seq<nat>>, ghost big: seq<nat>)
    modifies rng
    ensures r.Some? ==> AllLatin(latin) && IsLatin(big) && r.value == SwapRowsOf(Assembled(latin, big))
    ensures r.Some? ==> IsCompletion(EmptyBoard(), r.value)
  {
    // Select nine 3x3 random Latin squares, and the big square that pairs with them
    var squares := DrawSquares(rng, retries);
    if squares.None? {
      return None, [], [];
    }
    var bigSquare := NewRandom(rng, retries);
    if bigSquare.None? {
      return None, [], [];
    }
    latin := seq(9, k requires 0 <= k < 9 reads set m | 0 <= m < 9 :: squares.value[m] => squares.value[k][..]);
    big := bigSquare.value[..];

    PairSquares(squares.value, bigSquare.value);
    var sudoku := FillBoard(squares.value, latin, big);
    SwapRows(sudoku);
    FilledIsSolved(latin, big);
    r := Some(sudoku[..]);
  }
}
