/**
  Base-10 digit sequences as the arithmetic trainers use them: most significant
  digit first, one number per column. `Value` gives the number a sequence stands
  for, and `DigitsOf` is `String(num).padStart(digits, "0").split("").map(Number)`.
 */
module Digits {

  import opened Wrappers
  import opened Arith

  function Pow10(n: nat): (p: nat)
    ensures p >= 1
  {
    if n == 0 then 1 else 10 * Pow10(n - 1)
  }

  predicate IsDigit(d: int) {
    0 <= d <= 9
  }

  predicate IsDigits(ds: seq<int>) {
    forall i :: 0 <= i < |ds| ==> IsDigit(ds[i])
  }

  /** The number written by `ds`, most significant digit first. */
  function Value(ds: seq<int>): int {
    if ds == [] then 0 else Value(ds[..|ds| - 1]) * 10 + ds[|ds| - 1]
  }

  /** A digit sequence of length n writes a number in [0, 10^n). */
  lemma {:induction false} ValueBounds(ds: seq<int>)
    requires IsDigits(ds)
    ensures 0 <= Value(ds) < Pow10(|ds|)
  {
    if ds != [] {
      ValueBounds(ds[..|ds| - 1]);
    }
  }

  /** Writing one more digit in front adds that digit times 10^|tail|. */
  lemma {:induction false} ValuePrepend(x: int, tail: seq<int>)
    ensures Value([x] + tail) == x * Pow10(|tail|) + Value(tail)
  {
    if tail == [] {
      assert [x] + tail == [x];
      assert [x][..0] == [];
    } else {
      var s := [x] + tail;
      assert s[..|s| - 1] == [x] + tail[..|tail| - 1];
      ValuePrepend(x, tail[..|tail| - 1]);
    }
  }

  /** Leading zeros do not change the value. */
  lemma {:induction false} ValueLeadingZeros(k: nat, ds: seq<int>)
    ensures Value(Zeros(k) + ds) == Value(ds)
  {
    if k == 0 {
      assert Zeros(k) + ds == ds;
    } else {
      assert Zeros(k) + ds == [0] + (Zeros(k - 1) + ds);
      ValuePrepend(0, Zeros(k - 1) + ds);
      ValueLeadingZeros(k - 1, ds);
    }
  }

  function Zeros(k: nat): (z: seq<int>)
    ensures |z| == k && forall i :: 0 <= i < k ==> z[i] == 0
  {
    if k == 0 then [] else [0] + Zeros(k - 1)
  }

  /** `String(num).split("").map(Number)`: the decimal digits of a non-negative integer. */
  function Decimal(num: nat): (ds: seq<int>)
    ensures |ds| >= 1 && IsDigits(ds) && Value(ds) == num
    ensures |ds| > 1 ==> ds[0] != 0
  {
    if num < 10 then
      assert [num][..0] == [];
      [num]
    else
      var front := Decimal(num / 10);
      var ds := front + [num % 10];
      assert ds[..|ds| - 1] == front;
      ds
  }

  /** The decimal form of `num` fits in `n` digits exactly when num < 10^n. */
  lemma {:induction false} DecimalLength(num: nat, n: nat)
    requires n >= 1
    ensures |Decimal(num)| <= n <==> num < Pow10(n)
  {
    if num >= 10 {
      if n == 1 {
        assert |Decimal(num)| >= 2;
      } else {
        DecimalLength(num / 10, n - 1);
      }
    }
  }

  /** `digitsOf(num, digits)` of division/script.js and subtraction/script.js. */
  function DigitsOf(num: nat, digits: nat): seq<int> {
    var ds := Decimal(num);
    if |ds| < digits then Zeros(digits - |ds|) + ds else ds
  }

  /** For 0 <= num < 10^digits, `digitsOf` gives exactly `digits` digits that write `num`. */
  lemma {:induction false} DigitsOfSpec(num: nat, digits: nat)
    requires digits >= 1 && num < Pow10(digits)
    ensures |DigitsOf(num, digits)| == digits
    ensures IsDigits(DigitsOf(num, digits))
    ensures Value(DigitsOf(num, digits)) == num
  {
    var ds := Decimal(num);
    DecimalLength(num, digits);
    if |ds| < digits {
      var w := Zeros(digits - |ds|) + ds;
      assert DigitsOf(num, digits) == w;
      ValueLeadingZeros(digits - |ds|, ds);
      forall i | 0 <= i < |w|
        ensures IsDigit(w[i])
      {
        if i >= digits - |ds| {
          assert w[i] == ds[i - (digits - |ds|)];
        }
      }
    } else {
      assert DigitsOf(num, digits) == ds;
    }
  }

  /** A number of exactly `digits` digits (10^(digits-1) <= num) has a non-zero leading digit. */
  lemma {:induction false} LeadingDigitNonZero(num: nat, digits: nat)
    requires digits >= 1 && Pow10(digits - 1) <= num < Pow10(digits)
    ensures |DigitsOf(num, digits)| == digits && DigitsOf(num, digits)[0] != 0
  {
    DigitsOfSpec(num, digits);
    var ds := Decimal(num);
    if digits == 1 {
      assert num >= 1;
      assert ds == [num];
    } else {
      DecimalLength(num, digits - 1);
      assert |ds| == digits;
    }
  }

  /**
    What a learner typed into one answer box: nothing, a string that `parseInt`
    reads as the integer `n`, or a string it reads as NaN.
   */
  datatype Entry = Blank | Parsed(n: int) | NotANumber

  /**
    `parseInt(v || 0, 10)` and `v === "" ? 0 : parseInt(v, 10)`: a blank box reads
    as 0 and an unreadable one as NaN (`None`).
   */
  function ReadOrZero(e: Entry): (r: Option<int>)
    ensures e.Blank? ==> r == Some(0)
    ensures e.NotANumber? <==> r.None?
    ensures forall n :: e == Parsed(n) ==> r == Some(n)
  {
    match e
    case Blank => Some(0)
    case Parsed(n) => Some(n)
    case NotANumber => None
  }

  /**
    `randomInt(min, max)` = `Math.floor(Math.random() * (max - min + 1)) + min`.
    The random source is the oracle `draw`; the result is `min + draw % (max - min + 1)`,
    so every integer of [min, max] is a possible outcome and nothing else is.
   */
  function RandomInt(min: int, max: int, draw: nat): (r: int)
    requires min <= max
    ensures min <= r <= max
  {
    min + draw % (max - min + 1)
  }

  lemma {:induction false} RandomIntReachesAll(min: int, max: int, x: int)
    requires min <= x <= max
    ensures RandomInt(min, max, (x - min) as nat) == x
  {
  }
}
