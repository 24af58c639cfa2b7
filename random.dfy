/**
 * The randomness the generator draws on (`rand::Rng`, `SliceRandom::shuffle`
 * and `Coord::random`). A generator is an oracle: an arbitrary infinite
 * stream of numbers fixed when it is made, and the number of draws taken so
 * far. No distribution is modelled, only the ranges the draws fall in.
 */
module Randomness {
  import opened Coords

  class Rng {
    const stream: nat -> nat
    var drawn: nat

    constructor (stream: nat -> nat)
      ensures this.stream == stream && drawn == 0
    {
      this.stream := stream;
      drawn := 0;
    }

    /** `gen_range(0..n)`: the next number of the stream, brought into `0..n`. */
    method GenRange(n: nat) returns (r: nat)
      requires n > 0
      modifies this
      ensures r < n && r == stream(old(drawn)) % n
      ensures drawn == old(drawn) + 1
    {
      r := stream(drawn) % n;
      drawn := drawn + 1;
    }
  }

  /** `Coord::random`: a row and then a column, each drawn from `0..9`. */
  method RandomCoord(rng: Rng) returns (c: Coord)
    modifies rng
    ensures c.row < HOUSE_SIZE && c.col < HOUSE_SIZE
    ensures rng.drawn == old(rng.drawn) + 2
  {
    var row := rng.GenRange(HOUSE_SIZE);
    var col := rng.GenRange(HOUSE_SIZE);
    c := Coord(row, col);
  }

  /** Exchanging two elements of a sequence keeps its multiset. */
  lemma SwapKeepsMultiset<T>(s: seq<T>, x: nat, y: nat)
    requires x < |s| && y < |s|
    ensures multiset(s[x := s[y]][y := s[x]]) == multiset(s)
  {
  }

  /**
   * `shuffle` on the slice `a[lo..hi]` (the Fisher-Yates loop of `rand`):
   * for each position from the last down to the second, swap it with a
   * position drawn from those not after it. The slice ends up a permutation
   * of itself and nothing outside it changes.
   */
  method Shuffle<T>(a: array<T>, lo: nat, hi: nat, rng: Rng)
    requires lo <= hi <= a.Length
    modifies a, rng
    ensures multiset(a[lo..hi]) == multiset(old(a[lo..hi]))
    ensures forall k :: 0 <= k < a.Length && !(lo <= k < hi) ==> a[k] == old(a[k])
  {
    if lo == hi {
      return;
    }
    for i := hi - lo downto 1
      invariant multiset(a[lo..hi]) == multiset(old(a[lo..hi]))
      invariant forall k :: 0 <= k < a.Length && !(lo <= k < hi) ==> a[k] == old(a[k])
    {
      var j := rng.GenRange(i + 1);
      ghost var before := a[lo..hi];
      a[lo + i], a[lo + j] := a[lo + j], a[lo + i];
      assert a[lo..hi] == before[i := before[j]][j := before[i]];
      SwapKeepsMultiset(before, i, j);
    }
  }
}
