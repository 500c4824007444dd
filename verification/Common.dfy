/** alt_u32, signed 32-bit integers, optional values, and sequences without repeats. */
module Common {

  const WRAP: nat := 0x1_0000_0000

  type Word = n: nat | n < WRAP

  /** The value a signed 32-bit integer holds after an assignment. */
  function Long(x: int): int {
    (x + 0x8000_0000) % WRAP - 0x8000_0000
  }

  lemma LongRange(x: int)
    ensures -0x8000_0000 <= Long(x) < 0x8000_0000
  {
  }

  lemma LongFits(x: int)
    requires -0x8000_0000 <= x < 0x8000_0000
    ensures Long(x) == x
  {
  }

  lemma LongOnceRound(x: int)
    ensures -0x1_8000_0000 <= x < -0x8000_0000 ==> Long(x) == x + 0x1_0000_0000
    ensures 0x8000_0000 <= x < 0x1_8000_0000 ==> Long(x) == x - 0x1_0000_0000
  {
  }

  datatype Option<T> = None | Some(value: T)

  ghost predicate Distinct<T>(xs: seq<T>) {
    forall i, j :: 0 <= i < j < |xs| ==> xs[i] != xs[j]
  }
}
