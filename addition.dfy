/**
  Column addition trainer (addition/script.js): two random numbers of the same
  number of digits, the sum computed right to left with carries, and the
  comparison of the learner's answer row with that sum.
 */
module Addition {

  import opened Digits
  import opened Wrappers

  /**
    `generateNumber(digits)`: `digits` values `Math.floor(Math.random() * 10)`.
    The random source is the oracle `draw`; position i gets `draw(i) % 10`.
   */
  function GenerateNumber(digits: nat, draw: nat -> nat): (ds: seq<int>)
    ensures |ds| == digits && IsDigits(ds)
  {
    seq(digits, (i: int) requires 0 <= i => draw(i) % 10)
  }

  /** Every digit sequence is a possible outcome of `generateNumber`. */
  lemma {:induction false} GenerateNumberReachesAll(ds: seq<int>)
    requires IsDigits(ds)
    ensures GenerateNumber(|ds|, (i: nat) => if i < |ds| && 0 <= ds[i] then ds[i] else 0) == ds
  {
    var g := GenerateNumber(|ds|, (i: nat) => if i < |ds| && 0 <= ds[i] then ds[i] else 0);
    forall i | 0 <= i < |ds| ensures g[i] == ds[i] {
      assert ds[i] % 10 == ds[i];
    }
  }

  /**
    `calculateSolution(num1, num2)`: the sum row and the carry out of the leftmost
    column; num1 + num2 == carry * 10^n + sum.
   */
  method CalculateSolution(num1: seq<int>, num2: seq<int>) returns (sum: seq<int>, carry: int)
    requires |num2| == |num1| && IsDigits(num1) && IsDigits(num2)
    ensures |sum| == |num1| && IsDigits(sum)
    ensures carry == 0 || carry == 1
    ensures Value(num1) + Value(num2) == carry * Pow10(|num1|) + Value(sum)
  {
    sum := [];
    carry := 0;
    var i := |num1| - 1;
    while i >= 0
      invariant -1 <= i < |num1|
      invariant |sum| == |num1| - 1 - i && IsDigits(sum)
      invariant carry == 0 || carry == 1
      invariant Value(num1[i + 1..]) + Value(num2[i + 1..]) == carry * Pow10(|sum|) + Value(sum)
    {
      var digitSum := num1[i] + num2[i] + carry;
      ghost var p := Pow10(|sum|);
      ghost var oldSum := sum;
      ghost var oldCarry := carry;
      carry := digitSum / 10;
      sum := [digitSum % 10] + sum;
      assert num1[i..] == [num1[i]] + num1[i + 1..];
      assert num2[i..] == [num2[i]] + num2[i + 1..];
      ValuePrepend(num1[i], num1[i + 1..]);
      ValuePrepend(num2[i], num2[i + 1..]);
      ValuePrepend(digitSum % 10, oldSum);
      ColumnStep(num1[i], num2[i], oldCarry, p, Value(oldSum));
      i := i - 1;
    }
    assert num1[0..] == num1 && num2[0..] == num2;
  }

  /** One column: (a + b + carry-in) * 10^k == carry-out * 10^(k+1) + digit * 10^k. */
  lemma {:induction false} ColumnStep(a: int, b: int, cin: int, p: int, rest: int)
    ensures a * p + b * p + cin * p + rest
            == ((a + b + cin) / 10) * (10 * p) + ((a + b + cin) % 10) * p + rest
  {
    var t := a + b + cin;
    assert t == (t / 10) * 10 + t % 10;
    assert a * p + b * p + cin * p == t * p;
    assert t * p == ((t / 10) * 10) * p + (t % 10) * p;
    assert ((t / 10) * 10) * p == (t / 10) * (10 * p);
  }

  /**
    The comparison in `checkAnswer`: the answer row, read box by box, must equal
    the sum row (JSON equality: same length, same digits; NaN never matches).
    The carry out of the leftmost column is not compared.
   */
  method CheckAnswer(answers: seq<Entry>, sum: seq<int>) returns (correct: bool)
    ensures correct <==> |answers| == |sum| && forall i :: 0 <= i < |sum| ==> ReadOrZero(answers[i]) == Some(sum[i])
  {
    var userSum: seq<Option<int>> := [];
    var i := 0;
    while i < |answers|
      invariant 0 <= i <= |answers| && |userSum| == i
      invariant forall k :: 0 <= k < i ==> userSum[k] == ReadOrZero(answers[k])
    {
      userSum := userSum + [ReadOrZero(answers[i])];
      i := i + 1;
    }
    var expected := seq(|sum|, k requires 0 <= k < |sum| => Some(sum[k]));
    correct := userSum == expected;
  }
}
