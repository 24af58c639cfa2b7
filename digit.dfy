/**
 * The range-checked board digit (src/digit.rs). The same check is repeated
 * for the `Digit` declared in src/sudoku.rs (`is_valid`, `new`, `try_from`),
 * so both are modelled by this one module.
 */
module Digits {
  import opened Wrappers

  /** A Rust `u8`. */
  newtype u8 = x: int | 0 <= x < 256

  /** The digits 1..=9 (`DIGITS` in src/consts.rs). */
  const MIN_DIGIT: u8 := 1
  const MAX_DIGIT: u8 := 9

  /**
   * A digit of the board. Its field is private in src/digit.rs, so every
   * `Digit` comes out of `TryFrom`; the subset type records that invariant.
   */
  type Digit = v: u8 | MIN_DIGIT <= v <= MAX_DIGIT witness 1

  datatype SudokuError = InvalidDigit(rejected: u8)

  /** `Digit::try_from`: accepts exactly the values 1..=9. */
  function TryFrom(value: u8): (r: Result<Digit, SudokuError>)
    ensures r.Ok? <==> MIN_DIGIT <= value <= MAX_DIGIT
    ensures r.Ok? ==> Deref(r.value) == value
    ensures r.Err? ==> r.error == InvalidDigit(value)
  {
    if MIN_DIGIT <= value <= MAX_DIGIT then Ok(value) else Err(InvalidDigit(value))
  }

  /** `Deref for Digit`: the stored value, always a digit 1..=9. */
  function Deref(d: Digit): (v: u8)
    ensures MIN_DIGIT <= v <= MAX_DIGIT
  {
    d
  }

  /** Wrapping the value a digit derefs to gives back that digit. */
  lemma TryFromDeref(d: Digit)
    ensures TryFrom(Deref(d)) == Ok(d)
  {
  }

  /** Every value outside 1..=9 is rejected with itself as the payload. */
  lemma TryFromRejects(value: u8)
    requires value < MIN_DIGIT || MAX_DIGIT < value
    ensures TryFrom(value) == Err(InvalidDigit(value))
  {
  }
}
