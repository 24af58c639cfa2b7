# soku-rs in Dafny

A model of the core of soku-rs, a 9×9 Sudoku library written in Rust. It covers:

- the board of 81 cells (coordinate, optional digit 1..9, candidate set, "given" flag), its rows, columns and 3×3 boxes ("squares"), the 9-bit candidate set, the per-cell candidate computation, the counting queries, `is_valid` and the 81-character line format;
- the uniqueness oracle `count_solutions` / `is_unique`, which places each candidate of each empty cell into a copy of the board and runs the solver on it;
- the backtracking solver: pick the empty cell with the fewest candidates, try its candidates in ascending order, clear it again when all fail; and the hidden-single search `get_unique_candidate`;
- the Latin-squares generator: random 3×3 Latin squares over {0, 1, 2}, each symbol paired with the symbol of a tenth "big" square and read as a base-3 number plus one, the squares laid out as the nine boxes, rows 1↔3, 2↔6, 5↔7 swapped; then a puzzle carved out of the filled board by removing digits for as long as the solution stays unique;
- `Solution::union` and the range-checked `Digit`.

Modules, one per file:

- `Wrappers` (Option, Result) and `Digits`, `Coords`, `CandidateSets`: the value types.
- `Board`: the board as a value `seq<Cell>`, with houses, candidates, counting, validity and the line format.
- `BoardOps`: the operations that change a `&mut Sudoku` in place, on an `array<Cell>`.
- `Completions`: what a solution of a board is (`IsCompletion`: every empty cell filled, nothing else changed, no duplicate digit in any house) and the facts about it.
- `BruteForce`: the solver, proved correct against `IsCompletion`.
- `Uniqueness`: `count_solutions` / `is_unique`, proved to answer "exactly one solution" on well-formed boards.
- `Randomness`: the random-number generator as an oracle, with `Coord::random` and an in-place Fisher–Yates `shuffle`.
- `LatinSquares`, `FilledGrids`, `Carving`: the generator, with the theorem that the filled board is a solution of the empty board and that every carved puzzle has exactly that filled board as its unique solution.

Modelling choices:

- `usize`, `u8` and the Latin-square entries are unbounded `nat`s. `Digit` is the subset 1..9 of a `u8` newtype.
- A `&mut Sudoku` is an `array<Cell>`; an owned or shared `Sudoku` is a `seq<Cell>`. `Candidates` wraps a `bv9`, with digit d as bit d−1.
- A `rand` generator is the class `Randomness.Rng`: an arbitrary stream of numbers fixed at construction plus a draw counter. `gen_range(0..n)` is the next number modulo n. Nothing is assumed about the distribution.
- The source's unbounded retry loops take a `retries: nat` budget and return `None` once it is spent. Every property is stated for the `Some` results. This is partial correctness, which is all the source's loops can promise.
- A house index of 9 or more is a fatal assertion in `assert_house_index`; it is a `requires`. Every `unwrap` that would panic on a malformed line in `from_str_line` is the `requires IsDigitLine(s)`.
- Where the code's intent and its text differ, the text is modelled:
  - `is_valid` is meant to reject a house with a repeated digit; the code compares whole cells (see Findings);
  - `generate_from` restarts every round from the same filled board, and only its fine-grained return marks all 81 cells as given;
  - `count_solutions` calls the solver as `BruteForceSolver::new()`, which soku-rs does not define; the unit struct `BruteForceSolver` is meant and is modelled;
  - `SudokuConfig` is not defined in the modelled files; it is modelled as its one field `cells`.
- `src/digit.rs` and `src/sudoku.rs` each declare a `Digit` with the same range check; one module models both.

## Model

| member | source | states |
|---|---|---|
| Digits.TryFrom | src/digit.rs:8-18 | succeeds exactly for 1..=9; the digit derefs to the input; on failure the error is `InvalidDigit` carrying the input |
| Digits.Deref | src/digit.rs:20-26 | the stored value is always in 1..=9 |
| Digits.TryFromDeref | src/digit.rs:8-26 | every digit survives deref followed by try_from |
| Digits.TryFromRejects | src/sudoku.rs:479-489 | every value outside 1..=9 is rejected with itself as payload |
| Solutions.Union | src/solve.rs:16-25 | Impossible iff either side is Impossible; Unique iff both are Unique; an Ambiguous result counts the ambiguity of both sides |
| Solutions.UnionImpossibleAbsorbs | src/solve.rs:20 | Impossible on either side gives Impossible |
| Solutions.UnionUniqueIsIdentity | src/solve.rs:21-22 | Unique is an identity, on either side |
| Solutions.UnionAmbiguousAdds | src/solve.rs:23 | Ambiguous(x) with Ambiguous(y) is Ambiguous(x + y) |
| Solutions.UnionCommutative | src/solve.rs:16-25 | union is commutative |
| Solutions.UnionAssociative | src/solve.rs:16-25 | union is associative |
| Coords.FromIndex | src/sudoku.rs:598-606 | an in-grid index yields an in-grid coordinate |
| Coords.CellCoordToSquareCoord | src/sudoku.rs:257-262 | an in-grid cell lies in an in-range box coordinate |
| Coords.IndexRoundTrip | src/sudoku.rs:598-606 | into_index(from_index(i)) == i |
| Coords.CoordRoundTrip | src/sudoku.rs:651-657 | from_index(into_index(c)) == c when the column is below 9 |
| Coords.SquareCoordRoundTrip | src/sudoku.rs:211-215 | the same round trip in the 3-wide grid of boxes that `square` uses |
| Coords.FromIndexInjective | src/sudoku.rs:598-606 | different indices have different coordinates |
| Coords.BoxOfCell | src/sudoku.rs:244-262 | the box of cell i is number 3·(i/27) + (i mod 9)/3 |
| CandidateSets.BitsDistinct | src/sudoku.rs:551-581 | two digit flags overlap iff the digits are equal |
| CandidateSets.Candidates.Empty | src/sudoku.rs:497-499 | holds no digit |
| CandidateSets.Candidates.All | src/sudoku.rs:503-505 | holds every digit |
| CandidateSets.Candidates.FromDigit | src/sudoku.rs:543-549 | holds exactly the given digit |
| CandidateSets.Candidates.Add | src/sudoku.rs:507-509 | the digit is a member afterwards; no other digit's membership changes |
| CandidateSets.Candidates.Remove | src/sudoku.rs:511-513 | the digit is not a member afterwards; no other digit's membership changes |
| CandidateSets.Candidates.Toggle | src/sudoku.rs:515-517 | the digit's membership flips; no other digit's membership changes |
| CandidateSets.DigitsSpec | src/sudoku.rs:525-529 | `digits()` is strictly ascending and lists exactly the members |
| CandidateSets.DigitsFromSpec | src/sudoku.rs:525-529 | the same for the members from a given digit on, by induction |
| CandidateSets.CountIsLength | src/sudoku.rs:532-534 | `count()` is the length of `digits()` |
| CandidateSets.CountFromIsLength | src/sudoku.rs:532-534 | the same from a given digit on, by induction |
| CandidateSets.CountIsCardinality | src/sudoku.rs:532-534 | `count()` is the number of member digits |
| CandidateSets.AllHasNine | src/sudoku.rs:503-505 | the full set counts 9 |
| CandidateSets.EmptyHasNone | src/sudoku.rs:497-499 | the empty set counts 0 |
| Board.SquareIndices | src/sudoku.rs:264-283 | nine strictly increasing indices: box row r, box column c, place k is 27r + 3c + 9(k/3) + k mod 3 |
| Board.InRow | src/sudoku.rs:162-165 | j is in row r iff j < 81 and j/9 = r |
| Board.InCol | src/sudoku.rs:176-189 | j is in column c iff j < 81 and j mod 9 = c |
| Board.InSquare | src/sudoku.rs:264-283 | j is in box (r, c) iff j < 81 and its row and column divided by 3 are r and c |
| Board.InPeers | src/sudoku.rs:289-299 | the cells visited by `cell_candidates` are exactly those sharing a row, column or box with the cell |
| Board.RowIsHouse | src/sudoku.rs:162-165 | a row holds nine distinct in-range cells, pairwise in one house |
| Board.ColIsHouse | src/sudoku.rs:176-189 | a column holds nine distinct in-range cells, pairwise in one house |
| Board.BoxIsHouse | src/sudoku.rs:285-287 | a box holds nine distinct in-range cells, pairwise in one house |
| Board.Pick | src/sudoku.rs:162-189 | the cells at the listed positions, in list order |
| Board.CellsWherePick | src/sudoku.rs:176-189 | filtering the board by a predicate is picking the increasing list of positions it accepts |
| Board.Row | src/sudoku.rs:162-165 | `skip(9i).take(9)` is cells 9i..9i+8 |
| Board.Col | src/sudoku.rs:176-189 | the filtered cells are the column's cells, top to bottom |
| Board.Square | src/sudoku.rs:211-224 | the filtered cells are the box's cells, in board order |
| Board.SquareOfCell | src/sudoku.rs:244-247 | the cells of the box holding the cell |
| Board.RemovePlacedSpec | src/sudoku.rs:295-303 | folding the removals keeps exactly the digits no visited cell holds |
| Board.HouseChainPeers | src/sudoku.rs:295-299 | the chained row, column and box are the peer cells in order |
| Board.RemoveAtPick | src/sudoku.rs:295-303 | removing at listed positions is removing over the picked cells |
| Board.CandidatesOfChain | src/sudoku.rs:289-306 | the candidates of a cell are the fold over row, column and box |
| Board.CandidatesOfContains | src/sudoku.rs:289-306 | `cell_candidates(i)` holds d iff no cell sharing a house with i holds d |
| Board.AllCandidatesContains | src/sudoku.rs:308-319 | entry i holds d iff cell i is empty and no cell of its houses holds d |
| Board.CountFilledBounds | src/sudoku.rs:118-125 | `is_filled` iff every cell has a digit; `is_empty` iff none has |
| Board.CountFilledUpdate | src/sudoku.rs:108-110 | replacing one cell changes the count by that cell's contribution |
| Board.NotFilledHasEmpty | src/sudoku.rs:123-125 | a board that is not filled has an empty cell |
| Board.WithDigit | src/sudoku.rs:140-155 | only the digit of the addressed cell changes |
| Board.WithCell | src/sudoku.rs:146-149 | `set_cell` on an owned board: the addressed cell gets the digit, all else unchanged; past the end nothing changes |
| Board.HouseIsUniqueIff | src/sudoku.rs:331-336 | `house_is_unique` fails exactly when two filled cells are equal as whole cells |
| Board.CanonicalHouseIsUnique | src/sudoku.rs:331-336 | cells at distinct positions of a board with canonical coordinates always pass |
| Board.IsValidOnCanonical | src/sudoku.rs:330-341 | `is_valid` holds on every board whose cells record their own coordinates |
| Board.IsValidMissesColumnClash | src/sudoku.rs:330-341 | `is_valid` accepts a board with two 1s in column 0 |
| Board.HouseDigitsUniqueIff | src/sudoku.rs:331-336 | the digit-based house check fails exactly on two filled cells with equal digits |
| Board.HouseDigitsUniquePick | src/sudoku.rs:331-336 | the same check on a picked house is "distinct digits at those positions" |
| Board.ValidDigitsByIndices | src/sudoku.rs:338-340 | the digit-based `is_valid` is "distinct digits in all 27 houses" |
| Board.NoDupImpliesHouses | src/sudoku.rs:338-340 | no duplicate among cells sharing a house implies distinct digits in every row, column and box |
| Board.HousesImplyPair | src/sudoku.rs:338-340 | conversely, two cells sharing a house hold different digits |
| Board.IsValidDigitsIff | src/sudoku.rs:330-341 | the digit-based `is_valid` holds iff no house holds a digit twice |
| Board.IsValidDigitsRejectsColumnClash | src/sudoku.rs:330-341 | the digit-based check rejects the board `is_valid` accepts |
| Board.ParsedShape | src/sudoku.rs:363-380 | parsed cells have coordinate `from_index(i)`, no candidates, are given iff filled, and are empty iff the character is '0' |
| Board.StrLineRoundTrip | src/sudoku.rs:354-380 | to_str_line(from_str_line(s)) == s on every 81-character line of '0'..'9' |
| Board.BoardRoundTrip | src/sudoku.rs:354-380 | from_str_line(to_str_line(b)) == b on every board shaped as the parser builds it |
| Board.EmptyBoardProperties | src/sudoku.rs:397-406 | the default board has canonical coordinates, is empty, is not filled, has no duplicates and is valid |
| BoardOps.Default | src/sudoku.rs:397-406 | the loop that writes each cell's coordinate builds the empty board |
| BoardOps.CellAt | src/sudoku.rs:128-130 | Some exactly for an index on the board, and then that cell |
| BoardOps.SetCell | src/sudoku.rs:140-144 | writes the digit into the addressed cell and changes nothing else; None and no change past the end |
| BoardOps.ClearCell | src/sudoku.rs:151-155 | empties the addressed cell and changes nothing else; None and no change past the end |
| BoardOps.CellCandidates | src/sudoku.rs:289-306 | the loop over row, column and box computes the candidate set |
| BoardOps.AllCandidatesOf | src/sudoku.rs:308-319 | the per-cell map computes `all_candidates` |
| BoardOps.StoredCandidates | src/sudoku.rs:321-327 | after storing, each cell lists exactly the digits still open to it |
| BoardOps.SolveAllCandidates | src/sudoku.rs:321-327 | overwrites every candidate field with `all_candidates`, leaving the cells' candidates live |
| BoardOps.StoreCandidates | src/sudoku.rs:324-326 | cell i receives entry i |
| Completions.IsFilledComplete | src/sudoku.rs:123-125 | `is_filled` iff every cell has a digit |
| Completions.ExtendsTransitive | src/solve/brute_force.rs:18-34 | filling in steps is filling in |
| Completions.SolvedIsUnique | src/sudoku.rs:75-78 | a filled board without duplicates is its own one and only solution |
| Completions.CompletionNeedsNoDuplicates | src/sudoku.rs:330-341 | only a board without duplicate digits has a solution |
| Completions.CompletionDigitIsCandidate | src/sudoku.rs:289-306 | in any solution, the digit in an empty cell is one of its candidates |
| Completions.CompletionOfPlaced | src/solve/brute_force.rs:20-23 | a solution with d at cell i solves the board with d placed there |
| Completions.PlacedCompletion | src/solve/brute_force.rs:20-23 | a solution of the board with an empty cell filled solves the board |
| Completions.PlaceCandidateKeepsNoDuplicates | src/solve/brute_force.rs:20-21 | placing a live candidate creates no duplicate |
| Completions.PlaceDecreasesUnfilled | src/solve/brute_force.rs:21-23 | placing a digit leaves one fewer empty cell |
| Completions.WithDigitSelf | src/generate/latin_squares.rs:63-65 | writing back a cell's own digit changes nothing |
| Completions.WithDigitTwice | src/generate/latin_squares.rs:54-65 | a second write replaces the first |
| Completions.SolvedHouseHasEveryDigit | src/generate/latin_squares.rs:72-141 | in a solution every house holds each of 1..9 |
| BruteForce.Solve | src/solve/brute_force.rs:10-14 | true: the board is a solution of its entry state; false: the board is unchanged and has no solution |
| BruteForce.CellWithLeastCandidates | src/solve/brute_force.rs:36-59 | None iff no cell is empty; else an empty cell with its candidates, fewer than every earlier empty cell and, unless the scan stopped at a count ≤ 1, no more than every later one |
| BruteForce.CountsStayAboveBest | src/solve/brute_force.rs:46-51 | lowering the best count keeps every seen count at or above it |
| BruteForce.OneMoreUnsolvable | src/solve/brute_force.rs:20-26 | a failed candidate extends the unsolvable prefix |
| BruteForce.SolvedAfterPlacing | src/solve/brute_force.rs:21-24 | a solved recursive call solves the board it was given |
| BruteForce.ExhaustedCandidates | src/solve/brute_force.rs:27-30 | when every candidate fails, the board has no solution |
| BruteForce.SolveInner | src/solve/brute_force.rs:18-34 | true: every cell filled, only empty cells written, a solution when the entry board had no duplicates; false: the board restored and no solution exists |
| BruteForce.GetUniqueCandidate | src/solve/brute_force.rs:62-111 | returns a candidate no other cell of one of its houses lists, and the least one; None only when no candidate is such |
| BruteForce.HiddenSingleCases | src/solve/brute_force.rs:78-107 | a hidden single is one in the row, the column or the box |
| BruteForce.EarlierDigitsNotHidden | src/solve/brute_force.rs:78-108 | candidates tried earlier were not hidden singles |
| BruteForce.CellHousesAreHouses | src/solve/brute_force.rs:80-101 | the three lists are houses through the cell |
| BruteForce.HiddenSingleIsForced | src/solve/brute_force.rs:62-111 | with live candidates, every solution puts a hidden single into its cell |
| Uniqueness.SolveWithDigit | src/sudoku.rs:84-88 | a solved copy is a solution with the digit at the cell; an unsolved copy means no solution has it there |
| Uniqueness.NothingMetNoCompletion | src/sudoku.rs:100 | no solved copy means no solution |
| Uniqueness.OneMetUnique | src/sudoku.rs:100 | one solved board met means it is the only solution |
| Uniqueness.SameDigitsSameCompletion | src/sudoku.rs:90 | two solutions of one board with the same digits are equal |
| Uniqueness.TwoMetNotUnique | src/sudoku.rs:90-92 | two different solved boards rule out uniqueness |
| Uniqueness.TriedDigit | src/sudoku.rs:83-97 | a tried candidate is covered |
| Uniqueness.TriedCell | src/sudoku.rs:82-98 | a cell with every candidate tried is covered |
| Uniqueness.Skipped | src/sudoku.rs:90 | bookkeeping survives a solved board that is not kept |
| Uniqueness.Pushed | src/sudoku.rs:90-95 | bookkeeping survives a solved board that is kept |
| Uniqueness.CountSolutions | src/sudoku.rs:75-101 | 1 on a filled board; otherwise at most `limit`; on a well-formed board, 0 iff unsolvable (limit ≥ 1) and 1 iff exactly one solution (limit ≥ 2) |
| Uniqueness.IsUnique | src/sudoku.rs:103-105 | on a well-formed board, true iff exactly one solution |
| Uniqueness.RepeatIsCollected | src/sudoku.rs:90-95 | as written, meeting a, b, a collects three boards; the corrected rule collects two |
| Uniqueness.CollectDistinctSpec | src/sudoku.rs:90-95 | the corrected rule collects every board met, each once |
| Uniqueness.KeepAgreesOnShortLists | src/sudoku.rs:90-95 | both rules agree while at most one board is collected |
| Randomness.Rng.GenRange | src/sudoku.rs:590-594 | the draw is below n and the next number of the stream |
| Randomness.RandomCoord | src/sudoku.rs:590-594 | a row and a column, each below 9 |
| Randomness.Shuffle | src/generate/latin_squares.rs:219 | the slice becomes a permutation of itself; nothing outside it changes |
| LatinSquares.PermutationRow | src/generate/latin_squares.rs:211-219 | a row that is a permutation of 0, 1, 2 holds three different symbols below 3 |
| LatinSquares.ThreeSymbols | src/generate/latin_squares.rs:211-219 | three numbers forming the multiset {0, 1, 2} are pairwise different and below 3 |
| LatinSquares.ClashesWithEarlierRows | src/generate/latin_squares.rs:226-232 | true iff some earlier row has the same symbol in some column |
| LatinSquares.NoClashExtends | src/generate/latin_squares.rs:226-234 | a row without a clash extends the column-distinct prefix |
| LatinSquares.ShuffledRow | src/generate/latin_squares.rs:224 | shuffling a row keeps every row a permutation and changes no other row |
| LatinSquares.LastRowCellsDiffer | src/generate/latin_squares.rs:239-252 | the last row's fitting symbols are pairwise different |
| LatinSquares.PlaceInLastRow | src/generate/latin_squares.rs:246-250 | writing a fitting symbol keeps the earlier last-row cells fitting |
| LatinSquares.SomeSymbolUnused | src/generate/latin_squares.rs:240-247 | two symbols leave one of three unused |
| LatinSquares.LastRowCompletes | src/generate/latin_squares.rs:239-254 | two column-distinct permutation rows and a fitting last row form a Latin square |
| LatinSquares.InitRows | src/generate/latin_squares.rs:211-216 | the square becomes exactly 0, 1, 2 in every row, so each row is a permutation |
| LatinSquares.ShuffleMiddleRow | src/generate/latin_squares.rs:222-236 | only row i changes; every row stays a permutation; on success no column repeats a symbol of an earlier row |
| LatinSquares.FillLastRow | src/generate/latin_squares.rs:239-252 | rows 0 and 1 are kept; each last-row cell holds a symbol neither row above uses in its column; the square becomes Latin |
| LatinSquares.FillLastCell | src/generate/latin_squares.rs:240-251 | one column of the last row: rows 0 and 1 kept, the new cell fits |
| LatinSquares.NewRandom | src/generate/latin_squares.rs:205-255 | a fresh Latin square over {0, 1, 2} |
| FilledGrids.ConvertBase3To10 | src/generate/latin_squares.rs:73-85 | the loop reads the decimal digits as base-3 digits |
| FilledGrids.ConvertStep | src/generate/latin_squares.rs:77-82 | one iteration keeps the accumulated value |
| FilledGrids.FromBase3Pair | src/generate/latin_squares.rs:102-110 | the reading of d + 10s is d + 3s for symbols d, s below 3 |
| FilledGrids.PairedDigit | src/generate/latin_squares.rs:107-112 | the paired digit is in 1..9, and different pairs give different digits |
| FilledGrids.PairDigit | src/generate/latin_squares.rs:107-112 | a symbol pair becomes the digit `convert_base_3_to_10(d + 10s) + 1` |
| FilledGrids.PairedSquareDigit | src/generate/latin_squares.rs:104-113 | each entry of a paired square is the pair digit of its symbol |
| FilledGrids.PairSquare | src/generate/latin_squares.rs:104-114 | the nested loops pair every entry of one square |
| FilledGrids.SwapColumnStep | src/generate/latin_squares.rs:145-152 | one column of the exchange |
| FilledGrids.SwapRowDigits | src/generate/latin_squares.rs:144-153 | the digits of rows r1 and r2 are exchanged, nothing else changes |
| FilledGrids.SwapRows | src/generate/latin_squares.rs:143-158 | the board becomes its three-swap image |
| FilledGrids.RowSwapRegroups | src/generate/latin_squares.rs:155-157 | row r receives row 3(r mod 3) + r/3; this map is an involution |
| FilledGrids.SwapRowsMoves | src/generate/latin_squares.rs:143-158 | after the swaps each cell keeps coordinate, candidates and flag and takes the digit of its column in the swapped row |
| FilledGrids.SwapRowsInvolution | src/generate/latin_squares.rs:143-158 | `swap_rows` applied twice is the identity |
| FilledGrids.SymbolBound | src/generate/latin_squares.rs:205-255 | every entry of a Latin square is below 3 |
| FilledGrids.BoxCell | src/sudoku.rs:226-242 | place ci of box b is cell 9(3(b/3) + ci/3) + 3(b mod 3) + ci mod 3 |
| FilledGrids.FillOrderInjective | src/generate/latin_squares.rs:127-136 | the fill loop visits each cell once |
| FilledGrids.FillStep | src/generate/latin_squares.rs:128-135 | one write of the fill loop |
| FilledGrids.PairedAtBoxCell | src/generate/latin_squares.rs:128-135 | the digit written at place ci of box b is entry ci of paired square b |
| FilledGrids.FillDone | src/generate/latin_squares.rs:127-136 | after 81 writes the board is the assembled board |
| FilledGrids.SwappedPairedAt | src/generate/latin_squares.rs:138 | after the swaps cell i holds the pair of its square symbol and big-square symbol |
| FilledGrids.SymbolsDiffer | src/generate/latin_squares.rs:87-141 | two cells of one house differ in square symbol or big-square symbol |
| FilledGrids.RowSymbolsDiffer | src/generate/latin_squares.rs:87-141 | the same within a row |
| FilledGrids.ColumnSymbolsDiffer | src/generate/latin_squares.rs:87-141 | the same within a column |
| FilledGrids.BoxSymbolsDiffer | src/generate/latin_squares.rs:87-141 | the same within a box |
| FilledGrids.SolvedCell | src/generate/latin_squares.rs:124-140 | cell i of the result is the empty cell holding its final digit |
| FilledGrids.FinalDigitsDiffer | src/generate/latin_squares.rs:87-141 | two different cells of one house get different digits |
| FilledGrids.FilledIsSolved | src/generate/latin_squares.rs:72-141 | given Latin inputs, the result is a solution of the empty board |
| FilledGrids.DrawSquares | src/generate/latin_squares.rs:89-91 | nine fresh, distinct Latin squares |
| FilledGrids.PairSquares | src/generate/latin_squares.rs:98-122 | square k is paired with big-square entry k |
| FilledGrids.FillBoard | src/generate/latin_squares.rs:124-136 | the empty board with box k holding paired square k |
| FilledGrids.FillCell | src/generate/latin_squares.rs:128-135 | one cell of the fill loop |
| FilledGrids.GenerateFilledSudoku | src/generate/latin_squares.rs:72-141 | the result is the swapped assembly of Latin squares, and a solution of the empty board |
| Carving.ClearedIsCarved | src/generate/latin_squares.rs:161-176 | emptying cells keeps digits a subset of the filled board's |
| Carving.CarvedWellFormed | src/generate/latin_squares.rs:161-176 | a carved board of a well-formed board is well formed |
| Carving.CarvedSolution | src/generate/latin_squares.rs:161-176 | the filled board solves every board carved from it |
| Carving.UniqueSolutionIsFilled | src/generate/latin_squares.rs:38-39 | a carved board with a unique solution has the filled board's digits as that solution |
| Carving.SolvedFromEmpty | src/generate/latin_squares.rs:17-18 | a solution of the empty board is well formed and complete |
| Carving.KeepRandomCells | src/generate/latin_squares.rs:161-176 | only filled→empty changes; `cell_count` tracks the filled cells; ends with `to_keep` filled cells, or all if fewer |
| Carving.WithNRandomCells | src/generate/latin_squares.rs:160-185 | the inner loop's guarantees, and a unique solution when the filled board was well formed |
| Carving.Clamp | src/generate/latin_squares.rs:35 | the result lies in the range and is the input when the input does |
| Carving.FilledIndicesFrom | src/generate/latin_squares.rs:42-47 | the filled cells from a position on, increasing, all of them |
| Carving.GivenCoords | src/generate/latin_squares.rs:42-47 | the coordinates of exactly the filled cells, without repeats |
| Carving.FilledCoords | src/generate/latin_squares.rs:42-47 | coordinates of increasing in-grid indices flatten back to them |
| Carving.ShuffledDistinct | src/generate/latin_squares.rs:49 | a shuffled list without repeats has none |
| Carving.CountAtMostOne | src/generate/latin_squares.rs:49 | in a list without repeats each element occurs at most once |
| Carving.MarkAllGiven | src/generate/latin_squares.rs:58-60 | every cell, empty or not, is marked given |
| Carving.AllGivenCount | src/generate/latin_squares.rs:58-60 | marking does not change the filled count |
| Carving.AllGivenUnique | src/generate/latin_squares.rs:58-61 | marking keeps a unique solution unique |
| Carving.ShuffledGivenCoords | src/generate/latin_squares.rs:42-49 | a permutation of the filled cells' coordinates, without repeats |
| Carving.MarkedResult | src/generate/latin_squares.rs:57-61 | the fine-grained return is carved, has the target count, is all given and has a unique solution |
| Carving.ClearIfStillUnique | src/generate/latin_squares.rs:52-65 | the cell is emptied; when that loses uniqueness the same digit is written back and the board is as before |
| Carving.RemoveOneByOne | src/generate/latin_squares.rs:51-66 | a returned board is carved, has the target count, is all given and has a unique solution |
| Carving.GenerateFrom | src/generate/latin_squares.rs:25-68 | a returned board is carved from the filled board, has `target_cells` filled cells and a unique solution; its flags are all kept or all set |
| Carving.Generate | src/generate/latin_squares.rs:15-19 | the puzzle has the configured number of filled cells and exactly one solution, the filled board |

## Left out

- I/O and printing: `Display` for `Sudoku` and `LatinSquare`, `main`, the examples and the timing macro.
- Randomness is an oracle. `Randomness.Rng` fixes an arbitrary stream of numbers. No distribution is modelled, and neither is the difference between `thread_rng()` and a generator passed in. One generator stands for all of them.
- LatinSquares.NewRandom, LatinSquares.ShuffleMiddleRow, FilledGrids.DrawSquares, FilledGrids.GenerateFilledSudoku, Carving.KeepRandomCells, Carving.WithNRandomCells, Carving.GenerateFrom, Carving.Generate: the source retries without limit; these take a `retries` budget and may return None (or false). Only the results they return are specified, which is partial correctness.
- FilledGrids.ConvertBase3To10: works on unbounded naturals, not `u8`. Its inputs are at most 22, and no `u8` overflow occurs on them.
- Solutions.Union: counts are unbounded. The `usize` addition in `Ambiguous(x + y)` could overflow; that is not modelled.
- BruteForce.CellWithLeastCandidates: `usize::MAX` is the 64-bit value; only its being above every count matters.
- Uniqueness.CountSolutions: the answer is tied to "exactly one solution" only on boards without duplicate digits whose cells record their own coordinates. Elsewhere only the bounds are stated.
- Uniqueness.CountSolutions: for limits above two, only the bound is stated, not the count of distinct solutions (see Findings).
- `Sudoku::new_filled`, `new_unique`, `new_with_generator`, `new_filled_with_generator`, `solve_with`: one-line forwards to the generator and solver modelled here.
- `size`, `into_inner`, `as_slice`, `as_slice_mut`, `cells`, `cells_mut`, `cell_mut`, `row_mut`, `col_mut`, `square_mut_of_cell`, `rows`, `cols`, `Coord::row`, `Coord::col`, `with_row`, `with_col`, `Digit::new_unchecked`, `Default for Candidates`: accessors and iterator views that add no behaviour. Their read-only counterparts, and `square_mut` in the fill loop, are modelled.
- `From<[Cell; 81]>`, `TryFrom<Vec<Cell>>` and `ParseError`: conversions with no logic beyond the 81-cell length, which `Board` carries in its requires.
- `src/solve/backtracking.rs` has an empty `solve` body, and `src/lib.rs`, `src/cell.rs`, `src/grid.rs` and `src/generate.rs` hold declarations only. None is part of this model.
- The `Solve` trait in src/solve.rs declares `solve` without a result, while `BruteForceSolver::solve` returns `bool`; the model follows the implementation.

## Findings

| source | as written | input that shows it | evidently intended | confidence | as-written member | corrected member |
|---|---|---|---|---|---|---|
| src/sudoku.rs:330-341 | `house_is_unique` inserts whole `Cell` values, coordinate included, into the `HashSet`; on a board whose cells record their own coordinates no two cells are ever equal, so `is_valid` always holds | a board with 1..9 in row 0 and another 1 at row 1, column 0 | no digit appears twice in a row, column or box | high, not executed | Board.IsValidMissesColumnClash | Board.IsValidDigitsIff |
| src/sudoku.rs:90-95 | a solved board is kept when *any* kept board differs from it, so a board already kept is kept again once a different one is kept; `count_solutions(limit)` with `limit ≥ 3` can count a board with two solutions as three | a board with exactly two solutions that differ in its first two empty cells, with `limit = 3`: the boards met are A, B, A | a solved board is kept only when no kept board equals it | medium, not executed | Uniqueness.RepeatIsCollected | Uniqueness.CollectDistinctSpec |

The first finding does not affect the rest of the model. The solver, the oracle and the generator are all stated in terms of `Board.NoDuplicateDigits`, which is the corrected check (`Board.IsValidDigitsIff`). The second does not affect `is_unique`. With a limit of two, a board is only ever kept while at most one board has been kept, and there the two rules agree (`Uniqueness.KeepAgreesOnShortLists`). So `Uniqueness.CountSolutions` is modelled as written and proved exact for limits one and two.
