/** The outcome of a solution search and how two outcomes combine (src/solve.rs). */
module Solutions {

  /** `Ambiguous(n)` carries a `usize` count; the model leaves it unbounded. */
  datatype Solution = Impossible | Unique | Ambiguous(count: nat)

  /** The count an outcome contributes to an ambiguous union: none unless it is ambiguous. */
  function AmbiguousCount(s: Solution): nat
  {
    if s.Ambiguous? then s.count else 0
  }

  /**
   * `Solution::union`, arm by arm: `Impossible` absorbs everything, two
   * `Unique` stay `Unique`, and ambiguous counts add up, `Unique` adding nothing.
   */
  function Union(a: Solution, b: Solution): (r: Solution)
    ensures r.Impossible? <==> a.Impossible? || b.Impossible?
    ensures r.Unique? <==> a.Unique? && b.Unique?
    ensures r.Ambiguous? ==> r.count == AmbiguousCount(a) + AmbiguousCount(b)
  {
    match (a, b)
    case (Impossible, _) => Impossible
    case (_, Impossible) => Impossible
    case (Unique, Unique) => Unique
    case (Unique, Ambiguous(x)) => Ambiguous(x)
    case (Ambiguous(x), Unique) => Ambiguous(x)
    case (Ambiguous(x), Ambiguous(y)) => Ambiguous(x + y)
  }

  lemma UnionImpossibleAbsorbs(s: Solution)
    ensures Union(Impossible, s) == Impossible && Union(s, Impossible) == Impossible
  {
  }

  lemma UnionUniqueIsIdentity(s: Solution)
    ensures Union(Unique, s) == s && Union(s, Unique) == s
  {
  }

  lemma UnionAmbiguousAdds(x: nat, y: nat)
    ensures Union(Ambiguous(x), Ambiguous(y)) == Ambiguous(x + y)
  {
  }

  lemma UnionCommutative(a: Solution, b: Solution)
    ensures Union(a, b) == Union(b, a)
  {
  }

  lemma UnionAssociative(a: Solution, b: Solution, c: Solution)
    ensures Union(Union(a, b), c) == Union(a, Union(b, c))
  {
  }
}
