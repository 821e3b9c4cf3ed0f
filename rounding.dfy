/** Python's built-in `round(x)` with one argument, on exact reals: the
    nearest integer, with ties going to the even neighbour. */
module Rounding {

  predicate IsEven(k: int) {
    k % 2 == 0
  }

  /** The nearest integer to `x`; a tie (`x` exactly half-way) goes to the
      even one of the two neighbours. */
  function Round(x: real): (r: int)
    ensures x - 0.5 <= r as real <= x + 0.5
    ensures (r as real == x - 0.5 || r as real == x + 0.5) ==> IsEven(r)
  {
    var f := x.Floor;
    var d := x - f as real;
    if d < 0.5 then f
    else if d > 0.5 then f + 1
    else if IsEven(f) then f else f + 1
  }

  /** Rounding never reverses the order of two reals. */
  lemma RoundMonotone(x: real, y: real)
    requires x <= y
    ensures Round(x) <= Round(y)
  {
    // Each result is within a half of its argument, so the two can only
    // cross at a shared tie, which would make neighbouring integers both even.
  }

  /** An integer rounds to itself. */
  lemma RoundInteger(k: int)
    ensures Round(k as real) == k
  {
  }

  /** A real between two integers rounds to an integer between them. */
  lemma RoundWithin(x: real, lo: int, hi: int)
    requires lo as real <= x <= hi as real
    ensures lo <= Round(x) <= hi
  {
  }

  /** Two reals more than one apart round to different integers. */
  lemma RoundSeparates(x: real, y: real)
    requires x + 1.0 < y
    ensures Round(x) < Round(y)
  {
  }
}
