/**
 * The candidate set of a cell: a 9-bit mask, bit d-1 standing for digit d
 * (`Candidates` and `CandidatesInner` in src/sudoku.rs). `Candidates` is a
 * `Copy` value, so the mutators `add`, `remove` and `toggle` are modelled as
 * functions returning the updated set: `c.add(d)` is `c := c.Add(d)`.
 */
module CandidateSets {
  import opened Digits

  /** `CandidatesInner::from(Digit)`: the flag of one digit, written out as in the source. */
  function Bit(d: Digit): (b: bv9)
  {
    if d == 1 then 0x001
    else if d == 2 then 0x002
    else if d == 3 then 0x004
    else if d == 4 then 0x008
    else if d == 5 then 0x010
    else if d == 6 then 0x020
    else if d == 7 then 0x040
    else if d == 8 then 0x080
    else 0x100
  }

  /** Distinct digits own distinct bits, and each flag has exactly one bit set. */
  lemma BitsDistinct(d: Digit, e: Digit)
    ensures Bit(d) & Bit(e) != 0 <==> d == e
  {
  }

  /** The flags of all digits other than `d` are disjoint from the flag of `d`. */
  lemma OtherBits(d: Digit)
    ensures forall e: Digit :: e != d ==> Bit(d) & Bit(e) == 0
  {
    forall e: Digit | e != d
      ensures Bit(d) & Bit(e) == 0
    {
      BitsDistinct(d, e);
    }
  }

  /** `ALL`: the union of the nine flags. */
  const ALL_BITS: bv9 := 0x1FF

  datatype Candidates = Candidates(bits: bv9)
  {
    static function Empty(): (c: Candidates)
      ensures forall d: Digit :: !c.Contains(d)
    {
      Candidates(0)
    }

    static function All(): (c: Candidates)
      ensures forall d: Digit :: c.Contains(d)
    {
      Candidates(ALL_BITS)
    }

    /** `From<Digit> for Candidates`: the set holding exactly `d`. */
    static function FromDigit(d: Digit): (c: Candidates)
      ensures forall e: Digit :: c.Contains(e) <==> e == d
    {
      Empty().Add(d)
    }

    predicate Contains(d: Digit)
    {
      bits & Bit(d) != 0
    }

    function Add(d: Digit): (c: Candidates)
      ensures c.Contains(d)
      ensures forall e: Digit :: e != d ==> (c.Contains(e) <==> Contains(e))
    {
      OtherBits(d);
      Candidates(bits | Bit(d))
    }

    function Remove(d: Digit): (c: Candidates)
      ensures !c.Contains(d)
      ensures forall e: Digit :: e != d ==> (c.Contains(e) <==> Contains(e))
    {
      OtherBits(d);
      Candidates(bits & !Bit(d))
    }

    function Toggle(d: Digit): (c: Candidates)
      ensures c.Contains(d) <==> !Contains(d)
      ensures forall e: Digit :: e != d ==> (c.Contains(e) <==> Contains(e))
    {
      OtherBits(d);
      Candidates(bits ^ Bit(d))
    }

    /** The members among `from..=9`, in ascending order (see DigitsFromSpec). */
    function DigitsFrom(from: int): seq<Digit>
      requires 1 <= from <= 10
      decreases 10 - from
    {
      if from == 10 then []
      else
        var rest := DigitsFrom(from + 1);
        if Contains(from as Digit) then [from as Digit] + rest else rest
    }

    /** `digits()`: the members, in ascending order, each once (see DigitsSpec). */
    function Digits(): seq<Digit>
    {
      DigitsFrom(1)
    }

    /** The number of members among `from..=9`, counted one digit at a time. */
    function CountFrom(from: int): (n: nat)
      requires 1 <= from <= 10
      ensures n <= 10 - from
      decreases 10 - from
    {
      if from == 10 then 0
      else (if Contains(from as Digit) then 1 else 0) + CountFrom(from + 1)
    }

    /** `count()`: `digits().count()`, the number of members (see CountIsLength). */
    function Count(): (n: nat)
      ensures n <= 9
    {
      CountFrom(1)
    }
  }

  lemma {:induction false} DigitsFromSpec(c: Candidates, from: int)
    requires 1 <= from <= 10
    ensures forall k :: 0 <= k < |c.DigitsFrom(from)| ==> from <= c.DigitsFrom(from)[k] as int
    ensures forall k, l :: 0 <= k < l < |c.DigitsFrom(from)| ==> c.DigitsFrom(from)[k] < c.DigitsFrom(from)[l]
    ensures forall d: Digit :: d in c.DigitsFrom(from) <==> from <= d as int && c.Contains(d)
    decreases 10 - from
  {
    if from < 10 {
      DigitsFromSpec(c, from + 1);
    }
  }

  /** `digits()` lists exactly the members, strictly ascending. */
  lemma DigitsSpec(c: Candidates)
    ensures forall k, l :: 0 <= k < l < |c.Digits()| ==> c.Digits()[k] < c.Digits()[l]
    ensures forall d: Digit :: d in c.Digits() <==> c.Contains(d)
  {
    DigitsFromSpec(c, 1);
  }

  lemma {:induction false} CountFromIsLength(c: Candidates, from: int)
    requires 1 <= from <= 10
    ensures c.CountFrom(from) == |c.DigitsFrom(from)|
    decreases 10 - from
  {
    if from < 10 {
      CountFromIsLength(c, from + 1);
    }
  }

  /** `count()` is the length of `digits()`. */
  lemma CountIsLength(c: Candidates)
    ensures c.Count() == |c.Digits()|
  {
    CountFromIsLength(c, 1);
  }

  /** A strictly increasing sequence of digits has at most nine elements. */
  lemma {:induction false} CountBound(ds: seq<Digit>)
    requires forall k, l :: 0 <= k < l < |ds| ==> ds[k] < ds[l]
    ensures |ds| <= 9
  {
    IncreasingBound(ds, 1);
  }

  lemma {:induction false} IncreasingBound(ds: seq<Digit>, low: int)
    requires 1 <= low <= 10
    requires forall k, l :: 0 <= k < l < |ds| ==> ds[k] < ds[l]
    requires forall k :: 0 <= k < |ds| ==> low <= ds[k] as int
    ensures |ds| <= 10 - low
  {
    if ds != [] {
      IncreasingBound(ds[1..], ds[0] as int + 1);
    }
  }

  /** The members counted by `count()` are exactly the set of contained digits. */
  lemma {:induction false} CountIsCardinality(c: Candidates)
    ensures c.Count() == |set d: Digit | c.Contains(d)|
  {
    var ds := c.Digits();
    DigitsSpec(c);
    CountIsLength(c);
    DistinctCard(ds);
    assert (set k | 0 <= k < |ds| :: ds[k]) == set d: Digit | c.Contains(d);
  }

  lemma {:induction false} DistinctCard(ds: seq<Digit>)
    requires forall k, l :: 0 <= k < l < |ds| ==> ds[k] < ds[l]
    ensures |set k | 0 <= k < |ds| :: ds[k]| == |ds|
  {
    if ds != [] {
      DistinctCard(ds[1..]);
      var tail := set k | 0 <= k < |ds[1..]| :: ds[1..][k];
      assert (set k | 0 <= k < |ds| :: ds[k]) == {ds[0]} + tail;
      assert ds[0] !in tail;
    }
  }

  lemma AllHasNine()
    ensures Candidates.All().Count() == 9
  {
    AllFrom(1);
    CountIsLength(Candidates.All());
  }

  lemma {:induction false} AllFrom(from: int)
    requires 1 <= from <= 10
    ensures |Candidates.All().DigitsFrom(from)| == 10 - from
    decreases 10 - from
  {
    if from < 10 {
      AllFrom(from + 1);
    }
  }

  lemma EmptyHasNone()
    ensures Candidates.Empty().Count() == 0
  {
    EmptyFrom(1);
    CountIsLength(Candidates.Empty());
  }

  lemma {:induction false} EmptyFrom(from: int)
    requires 1 <= from <= 10
    ensures Candidates.Empty().DigitsFrom(from) == []
    decreases 10 - from
  {
    if from < 10 {
      EmptyFrom(from + 1);
    }
  }
}
