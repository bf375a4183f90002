/**
  The trapezium explorer (trapezium/script.js): a shape given by its top base a,
  bottom base b, height h and horizontal shift dx of the top base, its area and
  its name, the sliders and presets that set it, and a ten-question quiz on the
  area formula.
 */
module Trapezium {

  import opened Wrappers
  import opened RealMath
  import Digits

  /** The explorer's `state`: the two parallel sides, the height and the shift, in cm. */
  datatype Dims = Dims(a: real, b: real, h: real, dx: real)

  /** `areaTrapezium(a, b, h)`: (a + b) / 2 * h. */
  function Area(a: real, b: real, h: real): real {
    ((a + b) / 2.0) * h
  }

  /** The area does not depend on which base is on top, and a flat shape has none. */
  lemma {:induction false} AreaProperties(a: real, b: real, h: real)
    ensures Area(a, b, h) == Area(b, a, h)
    ensures Area(a, b, 0.0) == 0.0
    ensures Area(a, b, h) == a * h / 2.0 + b * h / 2.0
  {
  }

  /** With whole-centimetre sides the area is a whole number of half square centimetres. */
  lemma {:induction false} AreaHalves(a: int, b: int, h: int)
    ensures 2.0 * Area(a as real, b as real, h as real) == ((a + b) * h) as real
  {
    calc {
      2.0 * Area(a as real, b as real, h as real);
      (a as real + b as real) * (h as real);
      ((a + b) as real) * (h as real);
      { MulCast(a + b, h); }
      ((a + b) * h) as real;
    }
  }

  /**
    Given the two bases and the area, the height is determined (when a + b > 0);
    given the bottom base, the height and the area, so is the top base (when h > 0).
    So each quiz question has exactly one correct answer.
   */
  lemma {:induction false} AreaDeterminesHeight(a: real, b: real, h: real, x: real)
    requires a + b > 0.0 && Area(a, b, x) == Area(a, b, h)
    ensures x == h
  {
  }

  lemma {:induction false} AreaDeterminesTopBase(a: real, b: real, h: real, x: real)
    requires h > 0.0 && Area(x, b, h) == Area(a, b, h)
    ensures x == a
  {
  }

  /** `approxEqual(a, b)`: |a - b| <= 1e-9. */
  predicate ApproxEqual(x: real, y: real) {
    Abs(x - y) <= 0.000000001
  }

  /** The names `classifyTrapezium` gives. */
  datatype Kind =
    | Square | Rectangle | Rhombus | Parallelogram
    | RightTrapezium | IsoscelesTrapezium | Trapezium

  /**
    `classifyTrapezium(a, b, dx, h)`. Equal bases make a parallelogram, then
    refined to square, rectangle or rhombus; otherwise a leg is vertical (right
    trapezium) when dx is +-(b - a)/2, and the shape is symmetric (isosceles)
    when dx is 0.
   */
  function Classify(a: real, b: real, dx: real, h: real): Kind {
    var d := (b - a) / 2.0;
    if ApproxEqual(a, b) then
      if ApproxEqual(dx, 0.0) then
        if ApproxEqual(h, a) then Square else Rectangle
      else if ApproxEqual(dx * dx + h * h, a * a) then Rhombus
      else Parallelogram
    else if ApproxEqual(dx, d) || ApproxEqual(dx, -d) then RightTrapezium
    else if ApproxEqual(dx, 0.0) then IsoscelesTrapezium
    else Trapezium
  }

  /**
    Equal bases: the four parallelogram names, decided in the order square,
    rectangle, rhombus (slanted side dx^2 + h^2 equal to a^2), parallelogram.
   */
  lemma {:induction false} ClassifyEqualBases(a: real, b: real, dx: real, h: real)
    requires ApproxEqual(a, b)
    ensures var k := Classify(a, b, dx, h);
      && (k == Square <==> ApproxEqual(dx, 0.0) && ApproxEqual(h, a))
      && (k == Rectangle <==> ApproxEqual(dx, 0.0) && !ApproxEqual(h, a))
      && (k == Rhombus <==> !ApproxEqual(dx, 0.0) && ApproxEqual(dx * dx + h * h, a * a))
      && (k == Parallelogram <==> !ApproxEqual(dx, 0.0) && !ApproxEqual(dx * dx + h * h, a * a))
  {
  }

  /**
    Unequal bases: the three trapezium names, with the right-angle test before
    the symmetry test, so a shape passing both is called a right trapezium.
   */
  lemma {:induction false} ClassifyUnequalBases(a: real, b: real, dx: real, h: real)
    requires !ApproxEqual(a, b)
    ensures var k := Classify(a, b, dx, h);
      var right := ApproxEqual(dx, (b - a) / 2.0) || ApproxEqual(dx, -((b - a) / 2.0));
      && (k == RightTrapezium <==> right)
      && (k == IsoscelesTrapezium <==> !right && ApproxEqual(dx, 0.0))
      && (k == Trapezium <==> !right && !ApproxEqual(dx, 0.0))
  {
  }

  /**
    Both tests can pass at once: bases 1.5e-9 apart with no shift are within the
    tolerance of both dx = (b - a)/2 and dx = 0, and the shape is named a right
    trapezium.
   */
  lemma {:induction false} RightBeforeIsosceles()
    ensures var b := 15.0 / 10000000000.0;
      !ApproxEqual(0.0, b) && ApproxEqual(0.0, (b - 0.0) / 2.0) && ApproxEqual(0.0, 0.0)
      && Classify(0.0, b, 0.0, 1.0) == RightTrapezium
  {
  }

  /** `setPreset(name)`: the shape each preset button sets; any other name gives the default. */
  function Preset(name: string): Dims {
    if name == "trapezium" then Dims(6.0, 14.0, 5.0, 2.0)
    else if name == "isosceles" then Dims(6.0, 14.0, 5.0, 0.0)
    else if name == "right" then Dims(6.0, 14.0, 5.0, 4.0)
    else if name == "parallelogram" then Dims(10.0, 10.0, 5.0, 3.0)
    else if name == "rectangle" then Dims(9.0, 9.0, 5.0, 0.0)
    else if name == "square" then Dims(6.0, 6.0, 6.0, 0.0)
    else if name == "rhombus" then Dims(10.0, 10.0, 6.0, 8.0)
    else Dims(8.0, 12.0, 5.0, 0.0)
  }

  function ClassifyDims(s: Dims): Kind {
    Classify(s.a, s.b, s.dx, s.h)
  }

  /** Every preset is classified as the shape it is named after; the default shape is isosceles. */
  lemma {:induction false} PresetKinds()
    ensures ClassifyDims(Preset("trapezium")) == Trapezium
    ensures ClassifyDims(Preset("isosceles")) == IsoscelesTrapezium
    ensures ClassifyDims(Preset("right")) == RightTrapezium
    ensures ClassifyDims(Preset("parallelogram")) == Parallelogram
    ensures ClassifyDims(Preset("rectangle")) == Rectangle
    ensures ClassifyDims(Preset("square")) == Square
    ensures ClassifyDims(Preset("rhombus")) == Rhombus
    ensures ClassifyDims(Preset("default")) == IsoscelesTrapezium
  {
    assert Preset("default") == Dims(8.0, 12.0, 5.0, 0.0);
  }

  /** The widest shift the offset slider may give: floor((b - a) / 2) + 6. */
  function MaxDx(a: real, b: real): real {
    (((b - a) / 2.0).Floor + 6) as real
  }

  /**
    `applySlidersToState()` on slider values `top`, `bottom`, `height` and
    `offset`: a bottom base not longer than the top one becomes top + 1, and the
    shift is clamped to +-MaxDx.
   */
  function SliderState(top: real, bottom: real, height: real, offset: real): (s: Dims)
    ensures s.a == top && s.h == height
    ensures s.b > s.a
    ensures bottom > top ==> s.b == bottom
    ensures -MaxDx(s.a, s.b) <= s.dx <= MaxDx(s.a, s.b)
    ensures -MaxDx(s.a, s.b) <= offset <= MaxDx(s.a, s.b) ==> s.dx == offset
    ensures offset < -MaxDx(s.a, s.b) ==> s.dx == -MaxDx(s.a, s.b)
    ensures offset > MaxDx(s.a, s.b) ==> s.dx == MaxDx(s.a, s.b)
  {
    var b := if bottom <= top then top + 1.0 else bottom;
    var m := MaxDx(top, b);
    Dims(top, b, height, Clamp(offset, -m, m))
  }

  /** With whole-number slider positions the bottom base is at least one longer than the top. */
  lemma {:induction false} SliderGapWhole(top: int, bottom: int, height: real, offset: real)
    ensures SliderState(top as real, bottom as real, height, offset).b >= top as real + 1.0
  {
    if bottom > top {
      assert bottom as real >= (top + 1) as real;
    }
  }

  /** What a quiz question asks for. */
  datatype QuestionKind = FindArea | MissingHeight | MissingTopBase

  /** A generated question: its kind, the shape it shows and the expected answer. */
  datatype Question = Question(kind: QuestionKind, shape: Dims, answer: real)

  /** The `Math.random()` draws one question consumes, each a non-negative oracle value. */
  datatype Draws = Draws(pick: nat, d1: nat, d2: nat, d3: nat, d4: nat)

  /** `choice(arr)` = `arr[randInt(0, arr.length - 1)]`. */
  function Choice(arr: seq<int>, draw: nat): (x: int)
    requires |arr| > 0
    ensures x in arr
  {
    arr[Digits.RandomInt(0, |arr| - 1, draw)]
  }

  /** `[2, 4, 6, 8, 10, 12].filter((x) => x < b)`. */
  function Below(xs: seq<int>, b: int): (r: seq<int>)
    ensures forall x :: x in r <==> x in xs && x < b
  {
    if xs == [] then [] else (if xs[0] < b then [xs[0]] else []) + Below(xs[1..], b)
  }

  /**
    `newQuizQuestion()`'s choice among `genAreaQuestion`, `genMissingHeightQuestion`
    and `genMissingTopBaseQuestion`, each drawing its shape with `randInt`/`choice`.
   */
  function GenQuestion(dr: Draws): (q: Question)
    ensures q.shape.a + 1.0 <= q.shape.b && 2.0 <= q.shape.h <= 10.0
    ensures -2.0 <= q.shape.dx <= 2.0
    ensures q.kind == FindArea ==> q.answer == Area(q.shape.a, q.shape.b, q.shape.h)
    ensures q.kind == MissingHeight ==> q.answer == q.shape.h
    ensures q.kind == MissingTopBase ==> q.answer == q.shape.a
  {
    var make := Choice([0, 1, 2], dr.pick);
    if make == 0 then
      var a := Digits.RandomInt(2, 12, dr.d1);
      var b := Digits.RandomInt(a + 1, 16, dr.d2);
      var h := Digits.RandomInt(2, 10, dr.d3);
      var dx := Choice([0, 0, 1, -1, 2, -2], dr.d4);
      Question(FindArea, Dims(a as real, b as real, h as real, dx as real), Area(a as real, b as real, h as real))
    else if make == 1 then
      var a := Digits.RandomInt(2, 12, dr.d1);
      var b := Digits.RandomInt(a + 1, 16, dr.d2);
      var h := Digits.RandomInt(2, 10, dr.d3);
      var dx := Choice([0, 1, -1, 2, -2], dr.d4);
      Question(MissingHeight, Dims(a as real, b as real, h as real, dx as real), h as real)
    else
      var b := Digits.RandomInt(6, 16, dr.d1);
      var h := Digits.RandomInt(2, 10, dr.d2);
      var evens := Below([2, 4, 6, 8, 10, 12], b);
      assert 2 in evens;
      var a := Choice(evens, dr.d3);
      var dx := Choice([0, 1, -1, 2, -2], dr.d4);
      Question(MissingTopBase, Dims(a as real, b as real, h as real, dx as real), a as real)
  }

  /**
    Every generated question has exactly one correct answer, the stored one: the
    area of the shown shape, the height that gives the stated area, or the top
    base that gives it. The shown shape is one the sliders could produce.
   */
  lemma {:induction false} QuestionAnswerUnique(dr: Draws, x: real)
    ensures var q := GenQuestion(dr); var s := q.shape;
      && (q.kind == MissingHeight && Area(s.a, s.b, x) == Area(s.a, s.b, s.h) ==> x == q.answer)
      && (q.kind == MissingTopBase && Area(x, s.b, s.h) == Area(s.a, s.b, s.h) ==> x == q.answer)
      && SliderState(s.a, s.b, s.h, s.dx) == s
  {
    var q := GenQuestion(dr);
    var s := q.shape;
    if q.kind == MissingHeight && Area(s.a, s.b, x) == Area(s.a, s.b, s.h) {
      AreaDeterminesHeight(s.a, s.b, s.h, x);
    }
    if q.kind == MissingTopBase && Area(x, s.b, s.h) == Area(s.a, s.b, s.h) {
      AreaDeterminesTopBase(s.a, s.b, s.h, x);
    }
    assert s.b - s.a >= 1.0;
    assert MaxDx(s.a, s.b) >= 6.0;
  }

  /** `quiz.total`. */
  const QuizTotal := 10

  /** A quiz answer within 1e-9 of the expected one is correct. */
  predicate AnswerMatches(user: real, answer: real) {
    Abs(user - answer) < 0.000000001
  }

  datatype Mode = Play | Quiz

  /**
    The page: the mode, the shape, and the quiz counters. In play mode the
    sliders, presets and reset button change the shape; in quiz mode they are
    ignored and the quiz panel asks `QuizTotal` questions one after another.
   */
  class Explorer {
    var mode: Mode
    var state: Dims
    var qNo: int
    var correct: int
    var checked: bool
    var answer: real

    /**
      The score never exceeds the number of questions asked, and only an asked
      question that has not been checked yet can still earn a point; in play
      mode no quiz is running.
     */
    ghost predicate Valid()
      reads this
    {
      && 0 <= correct <= qNo <= QuizTotal
      && (!checked && qNo >= 1 ==> correct < qNo)
      && (mode == Play ==> qNo == 0 && !checked)
      && (mode == Quiz ==> qNo >= 1)
    }

    /** Page load: the default shape (`reset()`), play mode, the quiz at rest. */
    constructor ()
      ensures Valid() && mode == Play && state == Preset("default")
      ensures qNo == 0 && correct == 0 && !checked
    {
      mode := Play;
      state := Preset("default");
      qNo := 0;
      correct := 0;
      checked := false;
      answer := 0.0;
    }

    /** `onSliderInput()`: ignored in quiz mode, otherwise `applySlidersToState()`. */
    method OnSliderInput(top: real, bottom: real, height: real, offset: real)
      requires Valid()
      modifies this
      ensures Valid()
      ensures mode == old(mode) && qNo == old(qNo) && correct == old(correct)
      ensures checked == old(checked) && answer == old(answer)
      ensures old(mode) == Quiz ==> state == old(state)
      ensures old(mode) == Play ==> state == SliderState(top, bottom, height, offset)
    {
      if mode == Quiz {
        return;
      }
      state := SliderState(top, bottom, height, offset);
    }

    /** A preset button (ignored in quiz mode); the reset button is the preset "default". */
    method OnPreset(name: string)
      requires Valid()
      modifies this
      ensures Valid()
      ensures mode == old(mode) && qNo == old(qNo) && correct == old(correct)
      ensures checked == old(checked) && answer == old(answer)
      ensures old(mode) == Quiz ==> state == old(state)
      ensures old(mode) == Play ==> state == Preset(name)
    {
      if mode == Quiz {
        return;
      }
      state := Preset(name);
    }

    /**
      `nextQuizQuestion()`: once `QuizTotal` questions have been asked the quiz
      is finished and nothing changes; otherwise the counter moves on and a new
      unchecked question replaces the shape and the expected answer.
     */
    method NextQuizQuestion(dr: Draws)
      requires Valid() && mode == Quiz
      modifies this
      ensures Valid() && mode == Quiz && correct == old(correct)
      ensures old(qNo) >= QuizTotal ==>
        qNo == old(qNo) && checked == old(checked) && state == old(state) && answer == old(answer)
      ensures old(qNo) < QuizTotal ==>
        qNo == old(qNo) + 1 && !checked
        && state == GenQuestion(dr).shape && answer == GenQuestion(dr).answer
    {
      if qNo >= QuizTotal {
        return;
      }
      qNo := qNo + 1;
      checked := false;
      var q := GenQuestion(dr);
      state := q.shape;
      answer := q.answer;
    }

    /** The quiz button (ignored in quiz mode): `startQuiz()` resets the counters and asks question 1. */
    method StartQuiz(dr: Draws)
      requires Valid()
      modifies this
      ensures Valid()
      ensures old(mode) == Quiz ==>
        qNo == old(qNo) && correct == old(correct) && checked == old(checked)
        && state == old(state) && answer == old(answer)
      ensures old(mode) == Play ==>
        mode == Quiz && qNo == 1 && correct == 0 && !checked
        && state == GenQuestion(dr).shape && answer == GenQuestion(dr).answer
    {
      if mode == Quiz {
        return;
      }
      mode := Quiz;
      qNo := 0;
      correct := 0;
      // nextQuizQuestion() with qNo = 0 < QuizTotal: ask question 1
      qNo := qNo + 1;
      checked := false;
      var q := GenQuestion(dr);
      state := q.shape;
      answer := q.answer;
    }

    /** `exitQuiz()`: back to play mode with the counters cleared and the default shape. */
    method ExitQuiz()
      requires Valid()
      modifies this
      ensures Valid() && mode == Play && qNo == 0 && correct == 0 && !checked
      ensures state == Preset("default") && answer == old(answer)
    {
      mode := Play;
      qNo := 0;
      correct := 0;
      checked := false;
      state := Preset("default");
    }

    /**
      `checkQuizAnswer()` with the typed value (`None` when `Number(...)` is not
      finite): a question is scored at most once, a non-number only prompts for
      a number, and a matching answer earns one point.
     */
    method CheckQuizAnswer(user: Option<real>)
      requires Valid() && mode == Quiz
      modifies this
      ensures Valid()
      ensures mode == old(mode) && qNo == old(qNo) && state == old(state) && answer == old(answer)
      ensures old(checked) || user.None? ==> checked == old(checked) && correct == old(correct)
      ensures !old(checked) && user.Some? ==>
        checked && correct == old(correct) + (if AnswerMatches(user.value, answer) then 1 else 0)
    {
      if checked {
        return;
      }
      if user.None? {
        return;
      }
      var ok := AnswerMatches(user.value, answer);
      checked := true;
      if ok {
        correct := correct + 1;
      }
    }
  }
}
