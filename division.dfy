/**
  Long division trainer (division/script.js): a dividend of exactly `digits`
  digits, the quotient digits, the bring-down steps and the remainder computed
  left to right, and the check of the learner's quotient row (leading blanks
  stand for zeros) and remainder.
 */
module Division {

  import opened Arith
  import opened Digits
  import opened Wrappers

  /** `generateDividendDigits(digits)`: a random number of exactly `digits` digits. */
  function GenerateDividendDigits(digits: nat, draw: nat): (ds: seq<int>)
    requires digits >= 1
    ensures |ds| == digits && IsDigits(ds) && ds[0] != 0
    ensures Pow10(digits - 1) <= Value(ds) < Pow10(digits)
  {
    var dividend := RandomInt(Pow10(digits - 1), Pow10(digits) - 1, draw);
    DigitsOfSpec(dividend, digits);
    LeadingDigitNonZero(dividend, digits);
    DigitsOf(dividend, digits)
  }

  /** One line of the worked solution: bring a digit down, divide, multiply, subtract. */
  datatype Step = Step(bringDown: int, current: int, q: int, product: int, remainder: int)

  /**
    Step k brings down digit k of the dividend next to the previous remainder
    (nothing before the first step), and leaves `current - q * divisor` in [0, divisor).
   */
  predicate StepOk(dd: seq<int>, divisor: int, steps: seq<Step>, k: int)
    requires 0 <= k < |steps| && |steps| <= |dd|
  {
    var st := steps[k];
    var before := if k == 0 then 0 else steps[k - 1].remainder;
    && st.bringDown == dd[k]
    && st.current == before * 10 + dd[k]
    && st.product == st.q * divisor
    && st.remainder == st.current - st.product
    && 0 <= st.remainder < divisor
  }

  /**
    After i digits have been brought down: one quotient digit and one step per
    digit, the remainder is the last step's, below the divisor, and the digits
    brought down write quotient * divisor + remainder.
   */
  predicate Progress(dd: seq<int>, divisor: int, i: int, quotient: seq<int>, steps: seq<Step>, remainder: int)
  {
    && 0 <= i <= |dd| && |quotient| == i && |steps| == i && IsDigits(quotient)
    && (forall k :: 0 <= k < i ==> StepOk(dd, divisor, steps, k))
    && (forall k :: 0 <= k < i ==> steps[k].q == quotient[k])
    && remainder == (if i == 0 then 0 else steps[i - 1].remainder)
    && 0 <= remainder < divisor
    && Divides(dd[..i], quotient, divisor, remainder)
  }

  /**
    `calculateSolution(dividendDigits, divisor)`: the quotient row is the decimal
    quotient of the dividend by the divisor, one digit per dividend digit (with
    leading zeros), and the remainder is the dividend modulo the divisor.
   */
  method CalculateSolution(dd: seq<int>, divisor: int) returns (quotient: seq<int>, remainder: int, steps: seq<Step>)
    requires divisor >= 1 && IsDigits(dd)
    ensures |quotient| == |dd| && |steps| == |dd| && IsDigits(quotient)
    ensures forall k :: 0 <= k < |steps| ==> StepOk(dd, divisor, steps, k)
    ensures forall k :: 0 <= k < |steps| ==> steps[k].q == quotient[k]
    ensures remainder == if |dd| == 0 then 0 else steps[|dd| - 1].remainder
    ensures Value(dd) == Value(quotient) * divisor + remainder
    ensures Value(quotient) == Value(dd) / divisor && remainder == Value(dd) % divisor
  {
    quotient := [];
    steps := [];
    remainder := 0;
    var i := 0;
    while i < |dd|
      invariant Progress(dd, divisor, i, quotient, steps, remainder)
    {
      var current := remainder * 10 + dd[i];
      var q := current / divisor;
      var product := q * divisor;
      var newRemainder := current - product;
      ProgressStep(dd, divisor, i, quotient, steps, remainder, current, q, product, newRemainder);
      quotient := quotient + [q];
      steps := steps + [Step(dd[i], current, q, product, newRemainder)];
      remainder := newRemainder;
      i := i + 1;
    }
    assert dd[..i] == dd;
    assert Value(dd) == Value(quotient) * divisor + remainder;
    DivModUnique(Value(dd), divisor, Value(quotient), remainder);
  }

  /** One iteration of `calculateSolution` keeps `Progress`. */
  lemma {:induction false} ProgressStep(dd: seq<int>, divisor: int, i: int, quotient: seq<int>, steps: seq<Step>, remainder: int,
                     current: int, q: int, product: int, r2: int)
    requires divisor >= 1 && IsDigits(dd) && i < |dd|
    requires Progress(dd, divisor, i, quotient, steps, remainder)
    requires current == remainder * 10 + dd[i] && q == current / divisor
    requires product == q * divisor && r2 == current - product
    ensures Progress(dd, divisor, i + 1, quotient + [q], steps + [Step(dd[i], current, q, product, r2)], r2)
  {
    var st := Step(dd[i], current, q, product, r2);
    assert IsDigit(q) && 0 <= r2 < divisor by {
      QuotientDigit(current, divisor);
    }
    assert IsDigits(quotient + [q]) by {
      DigitsAppend(quotient, q);
    }
    assert Divides(dd[..i + 1], quotient + [q], divisor, r2) by {
      BringDown(dd, i, quotient, divisor, remainder, q, r2);
    }
    assert forall k :: 0 <= k < i + 1 ==> StepOk(dd, divisor, steps + [st], k) by {
      StepsExtend(dd, divisor, steps, st);
    }
    assert forall k :: 0 <= k < i + 1 ==> (steps + [st])[k].q == (quotient + [q])[k];
  }

  /** A well-formed next step extends a well-formed list of steps. */
  lemma {:induction false} StepsExtend(dd: seq<int>, divisor: int, steps: seq<Step>, st: Step)
    requires |steps| < |dd| && forall k :: 0 <= k < |steps| ==> StepOk(dd, divisor, steps, k)
    requires st.bringDown == dd[|steps|]
    requires st.current == (if |steps| == 0 then 0 else steps[|steps| - 1].remainder) * 10 + dd[|steps|]
    requires st.product == st.q * divisor && st.remainder == st.current - st.product
    requires 0 <= st.remainder < divisor
    ensures forall k :: 0 <= k <= |steps| ==> StepOk(dd, divisor, steps + [st], k)
  {
    var s2 := steps + [st];
    forall k | 0 <= k <= |steps|
      ensures StepOk(dd, divisor, s2, k)
    {
      if k < |steps| {
        assert StepOk(dd, divisor, steps, k);
        assert s2[k] == steps[k];
        assert k > 0 ==> s2[k - 1] == steps[k - 1];
      }
    }
  }

  /** A remainder below the divisor with one digit brought down divides to one digit. */
  lemma {:induction false} QuotientDigit(c: int, d: int)
    requires d >= 1 && 0 <= c < 10 * d
    ensures 0 <= c / d <= 9
    ensures 0 <= c - c / d * d < d
  {
    DivModUnique(c, d, c / d, c % d);
    if c / d >= 10 {
      MulAtLeastBy(c / d, 10, d);
    }
  }

  lemma {:induction false} DigitsAppend(ds: seq<int>, x: int)
    requires IsDigits(ds) && IsDigit(x)
    ensures IsDigits(ds + [x])
  {
  }

  /** Appending a digit multiplies the value by ten and adds it. */
  lemma {:induction false} ValueAppend(ds: seq<int>, x: int)
    ensures Value(ds + [x]) == Value(ds) * 10 + x
  {
    assert (ds + [x])[..|ds|] == ds;
  }

  /** The digits `dd` write quotient * divisor + remainder. */
  predicate Divides(dd: seq<int>, quotient: seq<int>, divisor: int, remainder: int) {
    Value(dd) == Value(quotient) * divisor + remainder
  }

  /** Bringing digit i down keeps dividend prefix == quotient * divisor + remainder. */
  lemma {:induction false} BringDown(dd: seq<int>, i: int, quotient: seq<int>, d: int, r: int, q: int, r2: int)
    requires 0 <= i < |dd|
    requires Divides(dd[..i], quotient, d, r)
    requires r2 == r * 10 + dd[i] - q * d
    ensures Divides(dd[..i + 1], quotient + [q], d, r2)
  {
    var vq := Value(quotient);
    assert dd[..i + 1][..i] == dd[..i];
    ValueAppend(quotient, q);
    assert (vq * 10 + q) * d == vq * d * 10 + q * d;
  }

  /** `raw.findIndex(v => v !== "")`, with `numDigits` when every box is blank. */
  function FirstEntered(raw: seq<Entry>): (k: nat)
    ensures k <= |raw|
    ensures forall i :: 0 <= i < k ==> raw[i] == Blank
    ensures k < |raw| ==> raw[k] != Blank
  {
    if raw == [] || raw[0] != Blank then 0 else 1 + FirstEntered(raw[1..])
  }

  /** `parseInt(v, 10) === expected` for a non-blank box; `expected` is absent past the quotient row. */
  predicate SameNumber(v: Entry, expected: Option<int>) {
    match v
    case Parsed(n) => expected == Some(n)
    case _ => false
  }

  /**
    Quotient box i is right: a blank box is accepted only among the leading blanks
    and only where the quotient digit is 0; any other box must hold the digit.
   */
  predicate QuotientBoxOk(raw: seq<Entry>, quotient: seq<int>, i: int)
    requires 0 <= i < |raw|
  {
    if raw[i] == Blank then i < FirstEntered(raw) && i < |quotient| && quotient[i] == 0
    else i < |quotient| && raw[i] == Parsed(quotient[i])
  }

  /** The quotient half of `checkAnswer`. */
  method CheckQuotient(raw: seq<Entry>, quotient: seq<int>) returns (quotientCorrect: bool)
    ensures quotientCorrect <==> forall i :: 0 <= i < |raw| ==> QuotientBoxOk(raw, quotient, i)
  {
    var firstEntered := FirstEntered(raw);
    quotientCorrect := true;
    var i := 0;
    while i < |raw|
      invariant 0 <= i <= |raw|
      invariant quotientCorrect <==> forall k :: 0 <= k < i ==> QuotientBoxOk(raw, quotient, k)
    {
      var expected := if i < |quotient| then Some(quotient[i]) else None;
      var v := raw[i];
      ghost var boxOk := QuotientBoxOk(raw, quotient, i);
      if i < firstEntered {
        if expected != Some(0) && v == Blank {
          quotientCorrect := false;
        }
        if v != Blank {
          if !SameNumber(v, expected) {
            quotientCorrect := false;
          }
        } else if expected != Some(0) {
          quotientCorrect := false;
        }
      } else if v == Blank {
        quotientCorrect := false;
      } else if !SameNumber(v, expected) {
        quotientCorrect := false;
      }
      i := i + 1;
    }
  }

  /** The remainder half of `checkAnswer`: a blank box reads as 0. */
  function CheckRemainder(box: Entry, remainder: int): (ok: bool)
    ensures ok <==> (box == Blank && remainder == 0) || box == Parsed(remainder)
  {
    ReadOrZero(box) == Some(remainder)
  }

  /** A quotient row typed with its first z boxes left blank and the rest filled in. */
  function LeadingBlankRow(quotient: seq<int>, z: nat): (raw: seq<Entry>)
    ensures |raw| == |quotient|
    ensures forall i :: 0 <= i < |raw| ==> raw[i] == if i < z then Blank else Parsed(quotient[i])
  {
    seq(|quotient|, (j: int) requires 0 <= j < |quotient| => if j < z then Blank else Parsed(quotient[j]))
  }

  /**
    Leading blanks are zeros: a row that leaves some leading zeros of the quotient
    blank and writes every other digit is accepted.
   */
  lemma {:induction false} LeadingBlanksAccepted(quotient: seq<int>, z: nat)
    requires z <= |quotient| && forall i :: 0 <= i < z ==> quotient[i] == 0
    ensures forall i :: 0 <= i < |quotient| ==> QuotientBoxOk(LeadingBlankRow(quotient, z), quotient, i)
  {
    FirstEnteredIs(LeadingBlankRow(quotient, z), z);
  }

  /** A blank after the first filled box is rejected, whatever the quotient digit. */
  lemma {:induction false} BlankAfterEntryRejected(raw: seq<Entry>, quotient: seq<int>, i: int)
    requires 0 <= i < |raw| && raw[i] == Blank
    requires exists k :: 0 <= k < i && raw[k] != Blank
    ensures !QuotientBoxOk(raw, quotient, i)
  {
  }

  lemma {:induction false} FirstEnteredIs(raw: seq<Entry>, z: nat)
    requires z <= |raw| && forall i :: 0 <= i < z ==> raw[i] == Blank
    requires z < |raw| ==> raw[z] != Blank
    ensures FirstEntered(raw) == z
  {
    if z > 0 {
      FirstEnteredIs(raw[1..], z - 1);
    }
  }
}
