/** Go's 64-bit `int`/`int64` arithmetic: two's-complement wrap-around and
    division that truncates toward zero. */
module GoInt {

  const TwoTo63: int := 0x8000_0000_0000_0000
  const TwoTo64: int := 0x1_0000_0000_0000_0000
  const MinInt64: int := -TwoTo63
  const MaxInt64: int := TwoTo63 - 1

  predicate IsInt64(x: int) {
    MinInt64 <= x <= MaxInt64
  }

  /** The value a Go `int` holds after an arithmetic result `x` wraps around. */
  function Wrap64(x: int): (r: int)
    ensures IsInt64(r)
    ensures (x - r) % TwoTo64 == 0
    ensures IsInt64(x) ==> r == x
  {
    var m := (x + TwoTo63) % TwoTo64;
    assert x - (m - TwoTo63) == TwoTo64 * ((x + TwoTo63) / TwoTo64);
    m - TwoTo63
  }

  /** Go's `a / b`: the quotient truncated toward zero. */
  function Quot(a: int, b: int): (q: int)
    requires b != 0
    ensures a >= 0 && b > 0 ==> q == a / b
    ensures a >= 0 && b < 0 ==> q == -(a / -b)
  {
    var m := (if a < 0 then -a else a) / (if b < 0 then -b else b);
    if (a < 0) != (b < 0) then -m else m
  }

  /** Go's `a % b`: the remainder that goes with `Quot`, with the sign of `a`. */
  function Rem(a: int, b: int): (r: int)
    requires b != 0
    ensures a == b * Quot(a, b) + r
    ensures a >= 0 ==> 0 <= r < (if b < 0 then -b else b)
  {
    a - b * Quot(a, b)
  }
}
