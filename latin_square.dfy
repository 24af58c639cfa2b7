/**
 * `LatinSquare::new_random` of src/generate/latin_squares.rs: a random 3x3
 * Latin square over the symbols 0, 1 and 2. The square (`[[u8; 3]; 3]`) is
 * an array of nine numbers stored row by row; row `i` is the slice
 * `3i .. 3i+3`, the slice `square[i].shuffle` works on.
 */
module LatinSquares {
  import opened Wrappers
  import opened Coords
  import opened Randomness

  /** `square[r][c]`. */
  function At(g: seq<nat>, r: nat, c: nat): nat
    requires 3 * r + c < |g|
  {
    g[3 * r + c]
  }

  /** Every symbol is one of 0, 1, 2 and no symbol repeats in a row or a column. */
  predicate IsLatin(g: seq<nat>)
  {
    |g| == 9 &&
    (forall r, c :: 0 <= r < 3 && 0 <= c < 3 ==> At(g, r, c) < 3) &&
    (forall r, c1, c2 :: 0 <= r < 3 && 0 <= c1 < c2 < 3 ==> At(g, r, c1) != At(g, r, c2)) &&
    (forall c, r1, r2 :: 0 <= c < 3 && 0 <= r1 < r2 < 3 ==> At(g, r1, c) != At(g, r2, c))
  }

  /** Row `r` holds 0, 1 and 2 in some order. */
  predicate RowIsPermutation(g: seq<nat>, r: nat)
    requires |g| == 9 && r < 3
  {
    multiset(g[3 * r .. 3 * r + 3]) == multiset{0, 1, 2}
  }

  /** Rows `0 .. n` share no symbol in any column. */
  predicate ColumnsDistinctBelow(g: seq<nat>, n: nat)
    requires |g| == 9 && n <= 3
  {
    forall c, r1, r2 :: 0 <= c < 3 && 0 <= r1 < r2 < n ==> At(g, r1, c) != At(g, r2, c)
  }

  /** A row that is a permutation of 0, 1, 2 holds three different symbols below 3. */
  lemma PermutationRow(g: seq<nat>, r: nat)
    requires |g| == 9 && r < 3 && RowIsPermutation(g, r)
    ensures forall c :: 0 <= c < 3 ==> At(g, r, c) < 3
    ensures At(g, r, 0) != At(g, r, 1) && At(g, r, 0) != At(g, r, 2) && At(g, r, 1) != At(g, r, 2)
  {
    var a, b, c := At(g, r, 0), At(g, r, 1), At(g, r, 2);
    RowSlice(g, r);
    ThreeSymbols(a, b, c);
    forall col | 0 <= col < 3
      ensures At(g, r, col) < 3
    {
      if col == 0 {
      } else if col == 1 {
      } else {
        assert col == 2;
      }
    }
  }

  lemma RowSlice(g: seq<nat>, r: nat)
    requires |g| == 9 && r < 3
    ensures g[3 * r .. 3 * r + 3] == [At(g, r, 0), At(g, r, 1), At(g, r, 2)]
  {
  }

  /** Three numbers that make up the multiset {0, 1, 2} are 0, 1 and 2 in some order. */
  lemma ThreeSymbols(a: nat, b: nat, c: nat)
    requires multiset([a, b, c]) == multiset{0, 1, 2}
    ensures a < 3 && b < 3 && c < 3 && a != b && a != c && b != c
  {
    var symbols := multiset{a, b, c};
    assert multiset([a, b, c]) == symbols;
    assert a in symbols && b in symbols && c in symbols;
    assert symbols[a] == 1 && symbols[b] == 1;
  }

  /**
   * The loop at latin_squares.rs:226-232: whether row `i` repeats, in some
   * column, the symbol of an earlier row.
   */
  method ClashesWithEarlierRows(square: array<nat>, i: nat) returns (clash: bool)
    requires square.Length == 9 && i < 3
    ensures clash <==> exists k, j :: 0 <= k < i && 0 <= j < 3 && At(square[..], k, j) == At(square[..], i, j)
  {
    ghost var g := square[..];
    for k := 0 to i
      invariant forall k', j :: 0 <= k' < k && 0 <= j < 3 ==> At(g, k', j) != At(g, i, j)
    {
      for j := 0 to 3
        invariant forall j' :: 0 <= j' < j ==> At(g, k, j') != At(g, i, j')
      {
        if square[3 * k + j] == square[3 * i + j] {
          assert At(g, k, j) == At(g, i, j);
          return true;
        }
      }
    }
    return false;
  }

  /** A row without a clash extends the rows whose columns are distinct by one. */
  lemma NoClashExtends(g: seq<nat>, i: nat)
    requires |g| == 9 && i < 3 && ColumnsDistinctBelow(g, i)
    requires !exists k, j :: 0 <= k < i && 0 <= j < 3 && At(g, k, j) == At(g, i, j)
    ensures ColumnsDistinctBelow(g, i + 1)
  {
  }

  /**
   * Shuffling row `i` keeps every row a permutation of 0, 1, 2 and keeps the
   * other rows as they were.
   */
  lemma ShuffledRow(g: seq<nat>, h: seq<nat>, i: nat)
    requires |g| == 9 && |h| == 9 && i < 3
    requires forall r :: 0 <= r < 3 ==> RowIsPermutation(g, r)
    requires multiset(h[3 * i .. 3 * i + 3]) == multiset(g[3 * i .. 3 * i + 3])
    requires forall k :: 0 <= k < 9 && !(3 * i <= k < 3 * i + 3) ==> h[k] == g[k]
    ensures forall r :: 0 <= r < 3 ==> RowIsPermutation(h, r)
    ensures forall r, c :: 0 <= r < 3 && r != i && 0 <= c < 3 ==> At(h, r, c) == At(g, r, c)
  {
    forall r | 0 <= r < 3
      ensures RowIsPermutation(h, r)
    {
      assert RowIsPermutation(g, r);
      if r != i {
        assert h[3 * r .. 3 * r + 3] == [h[3 * r], h[3 * r + 1], h[3 * r + 2]];
        assert g[3 * r .. 3 * r + 3] == [g[3 * r], g[3 * r + 1], g[3 * r + 2]];
      }
    }
  }

  /** Three different symbols below 3 include every symbol below 3. */
  lemma ThreeCoverAll(a: nat, b: nat, c: nat, v: nat)
    requires a < 3 && b < 3 && c < 3 && v < 3 && a != b && a != c && b != c
    ensures v == a || v == b || v == c
  {
  }

  /** Cell (2, c) holds a symbol below 3 that rows 0 and 1 do not hold in column c. */
  predicate FitsLastRow(g: seq<nat>, c: nat)
    requires |g| == 9 && c < 3
  {
    At(g, 2, c) < 3 && At(g, 2, c) != At(g, 0, c) && At(g, 2, c) != At(g, 1, c)
  }

  /**
   * Two cells of the last row that each avoid their column's symbols hold
   * different symbols: the symbol they shared would sit in rows 0 and 1 of
   * the one remaining column.
   */
  lemma LastRowCellsDiffer(g: seq<nat>, c1: nat, c2: nat)
    requires |g| == 9 && RowIsPermutation(g, 0) && RowIsPermutation(g, 1) && ColumnsDistinctBelow(g, 2)
    requires c1 < 3 && c2 < 3 && c1 != c2 && FitsLastRow(g, c1) && FitsLastRow(g, c2)
    ensures At(g, 2, c1) != At(g, 2, c2)
  {
    if At(g, 2, c1) == At(g, 2, c2) {
      var v := At(g, 2, c1);
      var c3 := 3 - c1 - c2;
      PermutationRow(g, 0);
      PermutationRow(g, 1);
      ThreeCoverAll(At(g, 0, c1), At(g, 0, c2), At(g, 0, c3), v);
      ThreeCoverAll(At(g, 1, c1), At(g, 1, c2), At(g, 1, c3), v);
      assert false;
    }
  }

  /** Writing a fitting symbol into cell (2, j) keeps the earlier cells of the last row fitting. */
  lemma PlaceInLastRow(g: seq<nat>, j: nat, m: nat, h: seq<nat>)
    requires |g| == 9 && j < 3 && forall c :: 0 <= c < j ==> FitsLastRow(g, c)
    requires m < 3 && m != At(g, 0, j) && m != At(g, 1, j) && h == g[6 + j := m]
    ensures forall c :: 0 <= c <= j ==> FitsLastRow(h, c)
  {
    forall c | 0 <= c <= j
      ensures FitsLastRow(h, c)
    {
      assert At(h, 0, c) == At(g, 0, c) && At(h, 1, c) == At(g, 1, c);
      if c < j {
        assert FitsLastRow(g, c);
      }
    }
  }

  /** Two different symbols below 3 leave one of the three unused. */
  lemma SomeSymbolUnused(used: seq<bool>, g: seq<nat>, j: nat)
    requires |g| == 9 && j < 3 && At(g, 0, j) != At(g, 1, j) && |used| == 3
    requires forall m :: 0 <= m < 3 ==> (used[m] <==> exists k :: 0 <= k < 2 && At(g, k, j) == m)
    ensures !used[0] || !used[1] || !used[2]
  {
  }

  /** Rows 0 and 1 carry their properties to any square that agrees with them. */
  lemma TopRowsKept(g: seq<nat>, h: seq<nat>)
    requires |g| == 9 && |h| == 9 && forall k :: 0 <= k < 6 ==> h[k] == g[k]
    requires RowIsPermutation(g, 0) && RowIsPermutation(g, 1) && ColumnsDistinctBelow(g, 2)
    ensures RowIsPermutation(h, 0) && RowIsPermutation(h, 1) && ColumnsDistinctBelow(h, 2)
  {
    assert h[0..3] == g[0..3] && h[3..6] == g[3..6];
    forall r, c | 0 <= r < 2 && 0 <= c < 3
      ensures At(h, r, c) == At(g, r, c)
    {
    }
  }

  /**
   * Filling each column of the last row with the one symbol the first two
   * rows do not use completes a Latin square.
   */
  lemma LastRowCompletes(g: seq<nat>)
    requires |g| == 9 && RowIsPermutation(g, 0) && RowIsPermutation(g, 1) && ColumnsDistinctBelow(g, 2)
    requires forall c :: 0 <= c < 3 ==> FitsLastRow(g, c)
    ensures IsLatin(g)
  {
    PermutationRow(g, 0);
    PermutationRow(g, 1);
    LastRowCellsDiffer(g, 0, 1);
    LastRowCellsDiffer(g, 0, 2);
    LastRowCellsDiffer(g, 1, 2);
  }

  /** Lines 211-216 of `new_random`: every row of the square becomes 0, 1, 2. */
  method InitRows(square: array<nat>)
    requires square.Length == 9
    modifies square
    ensures square[..] == [0, 1, 2, 0, 1, 2, 0, 1, 2]
    ensures forall r :: 0 <= r < 3 ==> RowIsPermutation(square[..], r)
  {
    for row := 0 to SQUARE_SIZE
      invariant forall k :: 0 <= k < 3 * row ==> square[k] == k % 3
    {
      for i := 0 to SQUARE_SIZE
        invariant forall k :: 0 <= k < 3 * row + i ==> square[k] == k % 3
      {
        square[3 * row + i] := i;
      }
    }
    assert square[..] == [0, 1, 2, 0, 1, 2, 0, 1, 2];
    forall r | 0 <= r < 3
      ensures RowIsPermutation(square[..], r)
    {
      assert square[3 * r .. 3 * r + 3] == [0, 1, 2];
    }
  }

  /**
   * Lines 223-235 of `new_random`: reshuffle row `i` until no column repeats the
   * symbol of an earlier row. False when `retries` shuffles did not get
   * there; the source keeps shuffling.
   */
  method ShuffleMiddleRow(square: array<nat>, i: nat, rng: Rng, retries: nat) returns (ok: bool)
    requires square.Length == 9 && 0 < i < 3
    requires forall r :: 0 <= r < 3 ==> RowIsPermutation(square[..], r)
    requires ColumnsDistinctBelow(square[..], i)
    modifies square, rng
    ensures forall r :: 0 <= r < 3 ==> RowIsPermutation(square[..], r)
    ensures ok ==> ColumnsDistinctBelow(square[..], i + 1)
    ensures forall k :: 0 <= k < 9 && !(3 * i <= k < 3 * i + 3) ==> square[k] == old(square[k])
  {
    var budget := retries;
    while true
      invariant forall r :: 0 <= r < 3 ==> RowIsPermutation(square[..], r)
      invariant forall k :: 0 <= k < 9 && !(3 * i <= k < 3 * i + 3) ==> square[k] == old(square[k])
      invariant ColumnsDistinctBelow(square[..], i)
      decreases budget
    {
      if budget == 0 {
        return false;
      }
      budget := budget - 1;
      ghost var g := square[..];
      Shuffle(square, 3 * i, 3 * i + 3, rng);
      ShuffledRow(g, square[..], i);
      var clash := ClashesWithEarlierRows(square, i);
      if !clash {
        NoClashExtends(square[..], i);
        return true;
      }
    }
  }

  /**
   * Lines 239-252 of `new_random`: each cell of the last row takes the least
   * symbol that rows 0 and 1 do not use in its column.
   */
  method FillLastRow(square: array<nat>)
    requires square.Length == 9
    requires RowIsPermutation(square[..], 0) && RowIsPermutation(square[..], 1) && ColumnsDistinctBelow(square[..], 2)
    modifies square
    ensures square[..6] == old(square[..6])
    ensures forall c :: 0 <= c < 3 ==> FitsLastRow(square[..], c)
    ensures IsLatin(square[..])
  {
    ghost var g := square[..];
    for j := 0 to SQUARE_SIZE
      invariant forall k :: 0 <= k < 6 ==> square[k] == g[k]
      invariant forall c :: 0 <= c < j ==> FitsLastRow(square[..], c)
    {
      FillLastCell(square, g, j);
    }
    TopRowsKept(g, square[..]);
    LastRowCompletes(square[..]);
  }

  /**
   * One column of the last-row loop: mark the symbols of rows 0 and 1, then
   * write the least unmarked one into row 2.
   */
  method FillLastCell(square: array<nat>, ghost g: seq<nat>, j: nat)
    requires square.Length == 9 && |g| == 9 && j < 3
    requires RowIsPermutation(g, 0) && RowIsPermutation(g, 1) && ColumnsDistinctBelow(g, 2)
    requires forall k :: 0 <= k < 6 ==> square[k] == g[k]
    requires forall c :: 0 <= c < j ==> FitsLastRow(square[..], c)
    modifies square
    ensures forall k :: 0 <= k < 6 ==> square[k] == g[k]
    ensures forall c :: 0 <= c <= j ==> FitsLastRow(square[..], c)
  {
    PermutationRow(g, 0);
    PermutationRow(g, 1);
    ghost var start := square[..];
    var used := new bool[SQUARE_SIZE](_ => false);
    for i := 0 to SQUARE_SIZE - 1
      modifies used
      invariant forall m :: 0 <= m < 3 ==> (used[m] <==> exists k :: 0 <= k < i && At(g, k, j) == m)
    {
      assert square[3 * i + j] == At(g, i, j);
      used[square[3 * i + j]] := true;
    }
    SomeSymbolUnused(used[..], g, j);
    ghost var before := square[..];
    assert before == start;
    ghost var found := false;
    for m := 0 to SQUARE_SIZE
      invariant forall m' :: 0 <= m' < m ==> used[m']
      invariant square[..] == before
      invariant found ==> false
    {
      if !used[m] {
        square[6 + j] := m;
        assert At(before, 0, j) == At(g, 0, j) && At(before, 1, j) == At(g, 1, j);
        assert m != At(g, 0, j) && m != At(g, 1, j);
        assert square[..] == before[6 + j := m];
        PlaceInLastRow(before, j, m, square[..]);
        found := true;
        break;
      }
    }
    if !found {
      assert false;
    }
  }

  /**
   * `LatinSquare::new_random`: every row starts as 0, 1, 2; the first row is
   * shuffled; each middle row is reshuffled until it clashes with no earlier
   * row in any column; each cell of the last row takes the least symbol its
   * column does not use yet. The result is a Latin square. None when a
   * middle row ran out of `retries` shuffles; the source retries without
   * limit.
   */
  method NewRandom(rng: Rng, retries: nat) returns (r: Option<array<nat>>)
    modifies rng
    ensures r.Some? ==> fresh(r.value) && IsLatin(r.value[..])
  {
    var square := new nat[9](_ => 0);
    var size := SQUARE_SIZE;

    // Initialize square
    InitRows(square);

    // First row
    ghost var g := square[..];
    Shuffle(square, 0, 3, rng);
    ShuffledRow(g, square[..], 0);

    // Middle row(s)
    for i := 1 to size - 1
      invariant forall row :: 0 <= row < 3 ==> RowIsPermutation(square[..], row)
      invariant ColumnsDistinctBelow(square[..], i)
    {
      var ok := ShuffleMiddleRow(square, i, rng, retries);
      if !ok {
        return None;
      }
    }

    // Last row
    FillLastRow(square);
    r := Some(square);
  }
}
