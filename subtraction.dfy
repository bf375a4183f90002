/**
  Column subtraction trainer (subtraction/script.js): a minuend of exactly
  `digits` digits, a subtrahend no larger than it, the difference computed right
  to left with borrows, and the comparison of the learner's answer row and borrow
  marks with that solution.
 */
module Subtraction {

  import opened Digits
  import opened Wrappers

  /**
    `generateMinuendAndSubtrahend(digits)`: the minuend is drawn from
    [10^(digits-1), 10^digits - 1] and the subtrahend from [0, minuend];
    both are padded to `digits` digits. `drawM` and `drawS` are the two random draws.
   */
  function GenerateMinuendAndSubtrahend(digits: nat, drawM: nat, drawS: nat): (r: (seq<int>, seq<int>))
    requires digits >= 1
    ensures |r.0| == digits && |r.1| == digits && IsDigits(r.0) && IsDigits(r.1)
    ensures r.0[0] != 0
    ensures 0 <= Value(r.1) <= Value(r.0)
  {
    var minuend := RandomInt(Pow10(digits - 1), Pow10(digits) - 1, drawM);
    var subtrahend := RandomInt(0, minuend, drawS);
    DigitsOfSpec(minuend, digits);
    DigitsOfSpec(subtrahend, digits);
    LeadingDigitNonZero(minuend, digits);
    (DigitsOf(minuend, digits), DigitsOf(subtrahend, digits))
  }

  /**
    `calculateSolution(minuendDigits, subtrahendDigits)`. `borrows[i-1]` marks that
    column i had to borrow from column i-1; the rightmost mark is always 0 and a
    borrow by the leftmost column is not recorded. When minuend >= subtrahend the
    difference row writes minuend - subtrahend; otherwise it writes the ten's
    complement minuend - subtrahend + 10^n.
   */
  method CalculateSolution(m: seq<int>, s: seq<int>) returns (diff: seq<int>, borrows: seq<int>)
    requires |s| == |m| && IsDigits(m) && IsDigits(s)
    ensures |diff| == |m| && |borrows| == |m|
    ensures forall j :: 0 <= j < |borrows| ==> borrows[j] == 0 || borrows[j] == 1
    ensures |m| >= 1 ==> borrows[|m| - 1] == 0
    ensures forall j :: 1 <= j < |m| ==> BorrowMark(m, s, borrows, j)
    ensures IsDigits(diff)
    ensures Value(m) >= Value(s) ==> Value(diff) == Value(m) - Value(s)
    ensures Value(m) < Value(s) ==> Value(diff) == Value(m) - Value(s) + Pow10(|m|)
  {
    var n := |m|;
    borrows := Zeros(n);
    diff := [];
    var borrowIn := 0;
    var i := n - 1;
    while i >= 0
      invariant -1 <= i < n && |borrows| == n && |diff| == n - 1 - i
      invariant borrowIn == 0 || borrowIn == 1
      invariant forall j :: 0 <= j < n ==> borrows[j] == 0 || borrows[j] == 1
      invariant forall j :: 0 <= j < i ==> borrows[j] == 0
      invariant n >= 1 ==> borrows[n - 1] == 0
      invariant forall j :: i + 1 <= j < n && j >= 1 ==> BorrowMark(m, s, borrows, j)
      invariant 0 <= i < n - 1 ==> borrowIn == borrows[i]
      invariant i == n - 1 ==> borrowIn == 0
      invariant IsDigits(diff)
      invariant Tracks(m, s, i + 1, diff, borrowIn)
    {
      ghost var oldDiff, oldBorrowIn, oldBorrows := diff, borrowIn, borrows;
      var top := m[i] - borrowIn;
      var bottom := s[i];
      if top < bottom {
        top := top + 10;
        borrowIn := 1;
        if i - 1 >= 0 {
          borrows := borrows[i - 1 := 1];
        }
      } else {
        borrowIn := 0;
      }
      diff := [top - bottom] + diff;
      SuffixStep(m, s, i, oldDiff, oldBorrowIn, borrowIn);
      forall j | i <= j < n && j >= 1
        ensures BorrowMark(m, s, borrows, j)
      {
        if j > i {
          assert BorrowMark(m, s, oldBorrows, j);
        }
      }
      i := i - 1;
    }
    Conclude(m, s, diff, borrowIn);
  }

  /** Once every column is done, the difference row is the difference or its ten's complement. */
  lemma {:induction false} Conclude(m: seq<int>, s: seq<int>, diff: seq<int>, b: int)
    requires |m| == |s| == |diff| && IsDigits(m) && IsDigits(s) && IsDigits(diff)
    requires b == 0 || b == 1
    requires Tracks(m, s, 0, diff, b)
    ensures Value(m) >= Value(s) ==> Value(diff) == Value(m) - Value(s)
    ensures Value(m) < Value(s) ==> Value(diff) == Value(m) - Value(s) + Pow10(|m|)
  {
    assert m[0..] == m && s[0..] == s;
    ValueBounds(diff);
    ValueBounds(m);
    ValueBounds(s);
    FinalBorrow(Value(m), Value(s), Value(diff), Lent(b, |m|), Pow10(|m|));
  }

  /**
    Column j (j >= 1) had to borrow, because its minuend digit less the borrow it
    lent to the right is below its subtrahend digit, exactly when mark j-1 is set.
   */
  predicate BorrowMark(m: seq<int>, s: seq<int>, borrows: seq<int>, j: int)
    requires 1 <= j < |m| == |s| == |borrows|
  {
    borrows[j - 1] == 1 <==> m[j] - borrows[j] < s[j]
  }

  /**
    After the columns from k rightwards: minuend suffix - subtrahend suffix plus the
    pending borrow's worth is what the difference row so far writes.
   */
  predicate Tracks(m: seq<int>, s: seq<int>, k: int, diff: seq<int>, b: int)
    requires 0 <= k <= |m| == |s|
  {
    Value(m[k..]) - Value(s[k..]) + Lent(b, |diff|) == Value(diff)
  }

  /** What a pending borrow of `b` out of a k-digit suffix is worth: b * 10^k. */
  function Lent(b: int, k: nat): int {
    if b == 1 then Pow10(k) else 0
  }

  /** The borrow out of the leftmost column is 1 exactly when the subtrahend is the larger. */
  lemma {:induction false} FinalBorrow(vm: int, vs: int, vd: int, lent: int, p: int)
    requires lent == 0 || lent == p
    requires 0 <= vm < p && 0 <= vs < p && 0 <= vd < p
    requires vm - vs + lent == vd
    ensures lent == 0 <==> vm >= vs
  {
  }

  /** Taking column i into the processed suffix keeps the difference invariant. */
  lemma {:induction false} SuffixStep(m: seq<int>, s: seq<int>, i: int, d: seq<int>, bin: int, bout: int)
    requires 0 <= i < |m| == |s| && |d| == |m| - 1 - i
    requires bin == 0 || bin == 1
    requires bout == 0 || bout == 1
    requires Tracks(m, s, i + 1, d, bin)
    ensures Tracks(m, s, i, [m[i] - bin + 10 * bout - s[i]] + d, bout)
  {
    var p := Pow10(|d|);
    var digit := m[i] - bin + 10 * bout - s[i];
    assert m[i..] == [m[i]] + m[i + 1..];
    assert s[i..] == [s[i]] + s[i + 1..];
    ValuePrepend(m[i], m[i + 1..]);
    ValuePrepend(s[i], s[i + 1..]);
    ValuePrepend(digit, d);
    assert Lent(bin, |d|) == bin * p;
    assert Lent(bout, |d| + 1) == bout * (10 * p);
    ColumnStep(m[i], s[i], bin, bout, p, Value(m[i + 1..]), Value(s[i + 1..]), Value(d));
  }

  /** One column: the borrow-in and borrow-out keep minuend - subtrahend + borrow * 10^k invariant. */
  lemma {:induction false} ColumnStep(mi: int, si: int, bin: int, bout: int, p: int, vm: int, vs: int, vd: int)
    requires vm - vs + bin * p == vd
    ensures (mi * p + vm) - (si * p + vs) + bout * (10 * p) == (mi - bin + 10 * bout - si) * p + vd
  {
    assert (mi - bin + 10 * bout - si) * p == mi * p - bin * p + bout * (10 * p) - si * p;
  }

  /** Answer box k holds digit k of the difference; a blank box reads as NaN and never does. */
  predicate DigitCorrect(answers: seq<Entry>, diff: seq<int>, k: int)
    requires 0 <= k < |answers|
  {
    k < |diff| && answers[k] == Parsed(diff[k])
  }

  /** Borrow box k holds borrow mark k; a blank box reads as 0. */
  predicate BorrowCorrect(boxes: seq<Entry>, borrows: seq<int>, k: int)
    requires 0 <= k < |boxes|
  {
    k < |borrows| && ReadOrZero(boxes[k]) == Some(borrows[k])
  }

  /**
    The comparisons in `checkAnswer`: every answer box must hold the digit of the
    difference (a blank box reads as NaN and never matches), and every borrow box
    must hold the borrow mark (a blank box reads as 0).
   */
  method CheckAnswer(answers: seq<Entry>, borrowBoxes: seq<Entry>, diff: seq<int>, borrows: seq<int>)
    returns (resultCorrect: bool, borrowsCorrect: bool)
    ensures resultCorrect <==> forall i :: 0 <= i < |answers| ==> DigitCorrect(answers, diff, i)
    ensures borrowsCorrect <==> forall i :: 0 <= i < |borrowBoxes| ==> BorrowCorrect(borrowBoxes, borrows, i)
  {
    resultCorrect := true;
    var i := 0;
    while i < |answers|
      invariant 0 <= i <= |answers|
      invariant resultCorrect <==> forall k :: 0 <= k < i ==> DigitCorrect(answers, diff, k)
    {
      if !DigitCorrect(answers, diff, i) {
        resultCorrect := false;
      }
      i := i + 1;
    }
    borrowsCorrect := true;
    var j := 0;
    while j < |borrowBoxes|
      invariant 0 <= j <= |borrowBoxes|
      invariant borrowsCorrect <==> forall k :: 0 <= k < j ==> BorrowCorrect(borrowBoxes, borrows, k)
    {
      if !BorrowCorrect(borrowBoxes, borrows, j) {
        borrowsCorrect := false;
      }
      j := j + 1;
    }
  }
}
