/**
  The few JavaScript `Math` functions the geometry pages use, on exact reals:
  `Math.abs`, `Math.max`, `Math.round` and the `clamp` helper that both
  trapezium/script.js and triangle/script.js define the same way.
 */
module RealMath {

  function Abs(x: real): (r: real)
    ensures r >= 0.0 && (r == x || r == -x)
  {
    if x < 0.0 then -x else x
  }

  function Max(x: real, y: real): (r: real)
    ensures r >= x && r >= y && (r == x || r == y)
  {
    if x < y then y else x
  }

  /**
    `Math.round(x)`: the nearest integer, halves rounded up (towards +infinity),
    which is `Math.floor(x + 0.5)`.
   */
  function Round(x: real): (n: int)
    ensures x - 0.5 < n as real <= x + 0.5
  {
    (x + 0.5).Floor
  }

  /** Rounding an integer gives it back. */
  lemma {:induction false} RoundInt(n: int)
    ensures Round(n as real) == n
  {
  }

  /**
    `clamp(v, min, max)` = `Math.max(min, Math.min(max, v))`: inside a proper range
    the value is pulled into it and kept when it is already there; an empty range
    (min > max) gives min.
   */
  function Clamp(v: real, lo: real, hi: real): (r: real)
    ensures lo <= hi ==> lo <= r <= hi
    ensures lo <= v <= hi ==> r == v
    ensures v < lo ==> r == lo
    ensures lo <= hi && hi < v ==> r == hi
    ensures hi < lo ==> r == lo
  {
    var m := if hi < v then hi else v;
    if m < lo then lo else m
  }

  /** Converting to real commutes with multiplication. */
  lemma {:induction false} MulCast(x: int, y: int)
    ensures (x as real) * (y as real) == (x * y) as real
  {
  }
}
