/**
  The instruction step of the equation solver (equation-solver/app.js): an
  equation typed as text is split at `=` into its two sides, an instruction
  such as "subtract 3" or "divide by x" is turned into a transform such as
  `-(3)` or `/(x)`, and the same transform is appended to both sides before
  each side is handed to a symbolic simplifier.

  The simplifier is a third-party library; here it is a parameter that either
  returns the simplified text or fails.
 */
module EquationSolver {

  import opened Wrappers
  import opened Text

  /**
    `inputEq.split('=')`, of which only the first two parts are kept, each
    trimmed: `None` when there is no `=` at all.
   */
  function SplitSides(equation: string): (sides: Option<(string, string)>)
    ensures sides.None? <==> '=' !in equation
  {
    match IndexOf(equation, '=')
    case None => None
    case Some(i) =>
      var rest := equation[i + 1..];
      var j := match IndexOf(rest, '=') case None => |rest| case Some(k) => k;
      Some((Trim(equation[..i]), Trim(rest[..j])))
  }

  /**
    The sides are the trimmed text before the first `=` and the trimmed text
    between it and the next `=` (or the end): whatever follows a second `=` is
    dropped.
   */
  lemma {:induction false} SplitSidesOf(left: string, right: string, tail: string)
    requires '=' !in left && '=' !in right && (tail == [] || tail[0] == '=')
    ensures SplitSides(left + "=" + right + tail) == Some((Trim(left), Trim(right)))
  {
    var e := left + "=" + right + tail;
    assert e[..|left|] == left && e[|left|] == '=';
    IndexOfAt(e, '=', |left|);
    var rest := e[|left| + 1..];
    assert rest == right + tail;
    assert rest[..|right|] == right;
    if tail == [] {
      assert '=' !in rest;
    } else {
      IndexOfAt(rest, '=', |right|);
    }
  }

  /** A second `=` and anything after it change neither side. */
  lemma {:induction false} SecondEqualsIgnored(left: string, right: string, more: string)
    requires '=' !in left && '=' !in right
    ensures SplitSides(left + "=" + right + "=" + more) == SplitSides(left + "=" + right)
  {
    assert left + "=" + right + "=" + more == left + "=" + right + ("=" + more);
    SplitSidesOf(left, right, "=" + more);
    assert left + "=" + right == left + "=" + right + [];
    SplitSidesOf(left, right, []);
  }

  /** The four supported operations, by the operator they append. */
  datatype Op = Sub | Add | Mul | Div

  /** The transform `${op}(${operand})` appended to each side. */
  datatype Transform = Transform(op: Op, operand: string)

  /** The word an instruction for an operation starts with. */
  function Keyword(op: Op): (k: string)
    ensures |k| >= 3
  {
    match op
    case Sub => "subtract"
    case Add => "add"
    case Mul => "multiply by"
    case Div => "divide by"
  }

  function Symbol(op: Op): char {
    match op
    case Sub => '-'
    case Add => '+'
    case Mul => '*'
    case Div => '/'
  }

  /** The text of a transform, as appended to a side. */
  function Render(t: Transform): (r: string)
    ensures |r| == |t.operand| + 3 && r[0] == Symbol(t.op) && r[1] == '(' && r[|r| - 1] == ')'
    ensures r[2..|r| - 1] == t.operand
  {
    [Symbol(t.op)] + "(" + t.operand + ")"
  }

  /**
    The operation an instruction asks for: the first of "subtract", "add",
    "multiply by", "divide by" that it starts with, tried in that order.
   */
  function FirstKeyword(instruction: string): (op: Option<Op>)
    ensures op.Some? ==> StartsWith(instruction, Keyword(op.value))
    ensures op.None? <==>
      && !StartsWith(instruction, "subtract") && !StartsWith(instruction, "add")
      && !StartsWith(instruction, "multiply by") && !StartsWith(instruction, "divide by")
    ensures op.Some? && op.value != Sub ==> !StartsWith(instruction, "subtract")
  {
    if StartsWith(instruction, "subtract") then Some(Sub)
    else if StartsWith(instruction, "add") then Some(Add)
    else if StartsWith(instruction, "multiply by") then Some(Mul)
    else if StartsWith(instruction, "divide by") then Some(Div)
    else None
  }

  /**
    No instruction starts with two of the keywords (their first letters differ),
    so the order in which they are tried decides nothing.
   */
  lemma {:induction false} KeywordsExclusive(instruction: string, a: Op, b: Op)
    requires StartsWith(instruction, Keyword(a)) && StartsWith(instruction, Keyword(b))
    ensures a == b
  {
    assert instruction[..|Keyword(a)|][0] == instruction[0];
    assert instruction[..|Keyword(b)|][0] == instruction[0];
  }

  /**
    The instruction (already trimmed) as a transform: the operation of its
    keyword, and as operand what follows that keyword, trimmed. Any other
    instruction is unsupported.
   */
  function ParseInstruction(instruction: string): (t: Option<Transform>)
    ensures t.Some? <==> FirstKeyword(instruction).Some?
    ensures t.Some? ==>
      && t.value.op == FirstKeyword(instruction).value
      && StartsWith(instruction, Keyword(t.value.op))
      && t.value.operand == Trim(instruction[|Keyword(t.value.op)|..])
  {
    match FirstKeyword(instruction)
    case None => None
    case Some(op) => Some(Transform(op, Trim(instruction[|Keyword(op)|..])))
  }

  /** The instruction a transform is read back from: its keyword, a blank, its operand. */
  function Phrase(t: Transform): string {
    Keyword(t.op) + " " + t.operand
  }

  /** Text without white space at either end. */
  predicate Clean(s: string) {
    s == [] || (!IsSpace(s[0]) && !IsSpace(s[|s| - 1]))
  }

  /** Reading the phrase of a transform gives the transform back, for an operand without surrounding blanks. */
  lemma {:induction false} ParsePhrase(t: Transform)
    requires Clean(t.operand)
    ensures ParseInstruction(Phrase(t)) == Some(t)
  {
    var w := Phrase(t);
    var k := Keyword(t.op);
    assert w[..|k|] == k && w[|k|..] == " " + t.operand;
    TrimBlankBefore(t.operand);
    match t.op
    case Sub =>
    case Add =>
      NotPrefix(w, "subtract", 0);
    case Mul =>
      NotPrefix(w, "subtract", 0);
      NotPrefix(w, "add", 0);
    case Div =>
      NotPrefix(w, "subtract", 0);
      NotPrefix(w, "add", 0);
      NotPrefix(w, "multiply by", 0);
  }

  /** Trimming a blank followed by clean text gives that text. */
  lemma {:induction false} TrimBlankBefore(v: string)
    requires Clean(v)
    ensures Trim(" " + v) == v
  {
    var w := " " + v;
    assert w[1..] == v;
    if v == [] {
      assert LeadingSpaces(w) == 1;
    } else {
      assert LeadingSpaces(w[1..]) == 0;
      assert LeadingSpaces(w) == 1;
      assert TrailingSpaces(w) == 0;
      assert w[1..|w|] == v;
    }
  }

  /** One side with the transform appended: `(${side}) ${transform}`. */
  function Transformed(side: string, t: Transform): string {
    "(" + side + ") " + Render(t)
  }

  /** What the output shows: one of three messages, or the equation before and after. */
  datatype Output =
    | NotAnEquation
    | Unsupported
    | ApplyError
    | Steps(left: string, right: string, newLeft: string, newRight: string)

  /** The text of the output element. */
  function Display(o: Output): string {
    match o
    case NotAnEquation => "Please enter a valid equation (e.g., 2x + 1 = 5)"
    case Unsupported => "Unsupported instruction."
    case ApplyError => "Error applying instruction."
    case Steps(left, right, newLeft, newRight) =>
      left + " = " + right + "\n↓\n" + newLeft + " = " + newRight
  }

  /**
    `applyInstruction`: without `=` the equation is refused; an unsupported
    instruction is refused; otherwise `(side) transform` is simplified for each
    side with the same transform, and a failure of either simplification gives
    the error message.
   */
  function ApplyInstruction(equation: string, instruction: string, simplify: string -> Option<string>): (out: Output)
    ensures out == NotAnEquation <==> '=' !in equation
    ensures out == Unsupported <==> '=' in equation && ParseInstruction(Trim(instruction)).None?
    ensures out.Steps? || out == ApplyError ==>
      SplitSides(equation).Some? && ParseInstruction(Trim(instruction)).Some?
    ensures out.Steps? || out == ApplyError ==>
      var t := ParseInstruction(Trim(instruction)).value;
      var sides := SplitSides(equation).value;
      (out.Steps? <==>
        simplify(Transformed(sides.0, t)).Some? && simplify(Transformed(sides.1, t)).Some?)
    ensures out.Steps? ==>
      var t := ParseInstruction(Trim(instruction)).value;
      && SplitSides(equation) == Some((out.left, out.right))
      && simplify(Transformed(out.left, t)) == Some(out.newLeft)
      && simplify(Transformed(out.right, t)) == Some(out.newRight)
  {
    match SplitSides(equation)
    case None => NotAnEquation
    case Some((left, right)) =>
      match ParseInstruction(Trim(instruction))
      case None => Unsupported
      case Some(t) =>
        match (simplify(Transformed(left, t)), simplify(Transformed(right, t)))
        case (Some(newLeft), Some(newRight)) => Steps(left, right, newLeft, newRight)
        case _ => ApplyError
  }
}
