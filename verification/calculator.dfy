/** The evaluation engine: bracket groups are collapsed left to right into
    their values, then the bracket-free text is split at the operator the
    precedence rule chooses and both sides are evaluated in turn. The three
    functions call each other; every call lowers the pair (number of `(`,
    length), so the recursion ends even though splicing a formatted number
    in can make the text longer ("(1/3)" becomes "0.33333334"). */
module Calculator {
  import opened Results
  import opened Numbers
  import opened Operators
  import opened OperatorSelector
  import opened Brackets

  /** The one assumption about number formatting: the text of a number
      contains no bracket, so splicing it in never creates a group. */
  ghost predicate FormatsWithoutBrackets<V(!new)>(a: Arith<V>) {
    forall v :: NoBrackets(a.format(v))
  }

  /** Formatting loses nothing and yields plain numbers: the text of every
      value parses back to that value and holds no operator the precedence
      rule would split on. */
  ghost predicate FormatsPlainNumbers<V(!new)>(a: Arith<V>) {
    forall v :: a.parse(a.format(v)) == Some(v) && FindOperatorIndex(a.format(v)) == -1
  }

  /** The termination order of the engine: fewer opening brackets, or as
      many and a shorter text. */
  ghost predicate Smaller(x: string, y: string) {
    OpenCount(x) < OpenCount(y) || (OpenCount(x) == OpenCount(y) && |x| < |y|)
  }

  /** float.Parse: the number `text` denotes, or a not-a-number error
      naming the text. */
  function ParseNumber<V>(a: Arith<V>, text: string): (r: Result<V>)
    ensures r.Ok? <==> a.parse(text).Some?
    ensures r.Ok? ==> Some(r.value) == a.parse(text)
    ensures r.Err? ==> r.error == NotANumber(text)
  {
    match a.parse(text)
    case Some(v) => Ok(v)
    case None => Err(NotANumber(text))
  }

  /** Cuts `s` at position `i` into the text before and the text after it;
      the character at `i` belongs to neither side, the two sides and that
      character rebuild `s`, and each side is strictly shorter than `s`. */
  function SplitAt(s: string, i: int): (parts: (string, string))
    requires 0 <= i < |s|
    ensures parts.0 + [s[i]] + parts.1 == s
    ensures |parts.0| == i && |parts.1| == |s| - i - 1
    ensures |parts.0| < |s| && |parts.1| < |s|
  {
    assert s == s[..i] + [s[i]] + s[i + 1..];
    (s[..i], s[i + 1..])
  }

  /** Collapses the first top-level bracket group into the text of its
      value and repeats until the scan finds no group. The result has no
      group left; it is the input itself exactly when the input has none,
      and otherwise it has fewer opening brackets. The only way it fails is
      a number that does not parse inside a group. */
  function EvaluateBrackets<V(!new)>(a: Arith<V>, expression: string): (r: Result<string>)
    requires FormatsWithoutBrackets(a)
    ensures r.Err? ==> r.error.NotANumber?
    ensures (forall j :: 0 <= j < |expression| ==> !ClosesToZero(expression, j)) ==> r == Ok(expression)
    ensures r.Ok? ==> FirstGroup(r.value).None?
    ensures r.Ok? ==> (r.value == expression <==> FirstGroup(expression).None?)
    ensures r.Ok? && r.value != expression ==> OpenCount(r.value) < OpenCount(expression)
    decreases OpenCount(expression), |expression|, 0
  {
    match FirstGroup(expression)
    case None => Ok(expression)
    case Some(g) =>
      var inner := Inner(expression, g);
      var value :- Calculate(a, inner);
      var text := a.format(value);
      assert NoBrackets(text);
      EvaluateBrackets(a, Splice(expression, g, text))
  }

  /** The value of `expression`: its bracket groups are resolved first and
      the resolved text is then evaluated. An operator error never escapes,
      so the only failure is a substring that is not a number. */
  function Calculate<V(!new)>(a: Arith<V>, expression: string): (r: Result<V>)
    requires FormatsWithoutBrackets(a)
    ensures r.Err? ==> r.error.NotANumber?
    decreases OpenCount(expression), |expression|, 2
  {
    var simplified :- EvaluateBrackets(a, expression);
    CalculateResolved(a, simplified)
  }

  /** The value of text after bracket resolution: a plain number when no
      operator is chosen, otherwise the chosen operator applied to the
      values of the two sides, the left side first. The operator applied is
      always a character FindOperatorIndex chose, which is always one of the
      operator table, so an operator error never escapes. */
  function CalculateResolved<V(!new)>(a: Arith<V>, simplified: string): (r: Result<V>)
    requires FormatsWithoutBrackets(a)
    ensures r.Err? ==> r.error.NotANumber?
    decreases OpenCount(simplified), |simplified|, 1
  {
    var operatorIndex := FindOperatorIndex(simplified);
    if operatorIndex == -1 then ParseNumber(a, simplified)
    else
      SplitOperandsAreSmaller(simplified, operatorIndex);
      var (leftText, rightText) := SplitAt(simplified, operatorIndex);
      var left :- Operand(a, leftText);
      var right :- Operand(a, rightText);
      PerformOperation(a, left, right, simplified[operatorIndex])
  }

  /** One side of a split: taken as a number when it parses as one, and
      evaluated as an expression of its own otherwise. */
  function Operand<V(!new)>(a: Arith<V>, text: string): (r: Result<V>)
    requires FormatsWithoutBrackets(a)
    ensures a.parse(text).Some? ==> r == Ok(a.parse(text).value)
    ensures r.Err? ==> r.error.NotANumber?
    decreases OpenCount(text), |text|, 3
  {
    match a.parse(text)
    case Some(v) => Ok(v)
    case None => Calculate(a, text)
  }

  /** The scan leaves an expression alone when it has no `(` at all, or
      when no `)` ever closes what was opened, as in "(1+2". */
  lemma EvaluateBracketsUnchanged<V(!new)>(a: Arith<V>, expression: string)
    requires FormatsWithoutBrackets(a)
    requires '(' !in expression || ')' !in expression
    ensures EvaluateBrackets(a, expression) == Ok(expression)
  {
    if '(' !in expression {
      NoOpenNoGroup(expression);
    }
  }

  /** Each collapse of a balanced expression leaves a balanced expression,
      so bracket resolution of a balanced expression either fails or ends
      with no bracket left. */
  lemma {:induction false} EvaluateBracketsClearsBalanced<V(!new)>(a: Arith<V>, expression: string)
    requires FormatsWithoutBrackets(a) && Balanced(expression)
    requires EvaluateBrackets(a, expression).Ok?
    ensures Balanced(EvaluateBrackets(a, expression).value)
    ensures NoBrackets(EvaluateBrackets(a, expression).value)
    decreases OpenCount(expression)
  {
    match FirstGroup(expression)
    case None =>
      BalancedWithoutGroupHasNoBrackets(expression);
    case Some(g) =>
      var value := Calculate(a, Inner(expression, g)).value;
      var text := a.format(value);
      SplicePreservesBalance(expression, g, text);
      EvaluateBracketsClearsBalanced(a, Splice(expression, g, text));
  }

  /** An expression with no bracket group in which the precedence rule
      finds no operator is a plain number: its value is what parsing it
      gives, and it fails exactly when parsing fails. */
  lemma PlainNumber<V(!new)>(a: Arith<V>, text: string)
    requires FormatsWithoutBrackets(a)
    requires FirstGroup(text).None? && FindOperatorIndex(text) == -1
    ensures Calculate(a, text).Ok? <==> a.parse(text).Some?
    ensures a.parse(text).Some? ==> Calculate(a, text).value == a.parse(text).value
    ensures a.parse(text).None? ==> Calculate(a, text) == Err(NotANumber(text))
  {
    assert EvaluateBrackets(a, text) == Ok(text);
  }

  /** Evaluating the text of a number gives that number back, whenever
      formatting and parsing round-trip on it and its text holds no
      operator the precedence rule would split on (a leading sign or an
      exponent sign after a letter is not one). */
  lemma FormattedNumberEvaluatesToItself<V(!new)>(a: Arith<V>, v: V)
    requires FormatsWithoutBrackets(a)
    requires a.parse(a.format(v)) == Some(v)
    requires FindOperatorIndex(a.format(v)) == -1
    ensures Calculate(a, a.format(v)) == Ok(v)
  {
    assert NoBrackets(a.format(v));
    NoOpenNoGroup(a.format(v));
    PlainNumber(a, a.format(v));
  }

  /** Evaluation first resolves every bracket group: the value of an
      expression is the value of its resolved text. */
  lemma CalculateResolvesFirst<V(!new)>(a: Arith<V>, expression: string)
    requires FormatsWithoutBrackets(a)
    requires EvaluateBrackets(a, expression).Ok?
    ensures Calculate(a, expression) == Calculate(a, EvaluateBrackets(a, expression).value)
  {
    var s := EvaluateBrackets(a, expression).value;
    assert FirstGroup(s).None?;
    assert EvaluateBrackets(a, s) == Ok(s);
    assert Calculate(a, s) == CalculateResolved(a, s);
  }

  /** Collapsing the first group keeps the value: when the group's inner
      text evaluates to `v`, the expression has the value of the text with
      the group replaced by the formatted `v`. */
  lemma CollapsePreservesValue<V(!new)>(a: Arith<V>, expression: string, g: Group, v: V)
    requires FormatsWithoutBrackets(a)
    requires FirstGroup(expression) == Some(g)
    requires Calculate(a, Inner(expression, g)) == Ok(v)
    ensures Calculate(a, expression) == Calculate(a, Splice(expression, g, a.format(v)))
  {
    assert NoBrackets(a.format(v));
    assert EvaluateBrackets(a, expression) == EvaluateBrackets(a, Splice(expression, g, a.format(v)));
  }

  /** On text with no bracket group the value is decided by the precedence
      rule: the text is cut at the position the rule singles out, the two
      sides are evaluated left first, and their values are combined by the
      operator found there. Unmatched brackets stay part of the sides. */
  lemma CalculateAtSplitPoint<V(!new)>(a: Arith<V>, s: string, i: int)
    requires FormatsWithoutBrackets(a)
    requires FirstGroup(s).None? && i >= 0 && IsSplitPoint(s, i)
    ensures Calculate(a, s)
      == match Operand(a, s[..i])
         case Err(e) => Err(e)
         case Ok(left) =>
           match Operand(a, s[i + 1..])
           case Err(e) => Err(e)
           case Ok(right) => PerformOperation(a, left, right, s[i])
  {
    FindOperatorIndexIsSplitPoint(s, i);
    assert EvaluateBrackets(a, s) == Ok(s);
  }

  /** The value at a split point once both operands have values. */
  lemma SplitPointValue<V(!new)>(a: Arith<V>, s: string, i: int, left: V, right: V)
    requires FormatsWithoutBrackets(a)
    requires FirstGroup(s).None? && i >= 0 && IsSplitPoint(s, i)
    requires Operand(a, s[..i]) == Ok(left) && Operand(a, s[i + 1..]) == Ok(right)
    ensures Calculate(a, s) == PerformOperation(a, left, right, s[i])
  {
    CalculateAtSplitPoint(a, s, i);
  }

  /** An unclosed bracket survives resolution and is split like any other
      character: `(1+2` is cut at `+` into `(1` and `2`. */
  lemma UnclosedBracketSplits<V(!new)>(a: Arith<V>, left: V, right: V)
    requires FormatsWithoutBrackets(a)
    requires Operand(a, "(1") == Ok(left) && Operand(a, "2") == Ok(right)
    ensures Calculate(a, "(1+2") == Ok(a.add(left, right))
  {
    var s := "(1+2";
    UnclosedBracketSplitPoint();
    assert s[..2] == "(1" && s[3..] == "2" && s[2] == '+';
    SplitPointValue(a, s, 2, left, right);
  }

  /** `(1+2` has no bracket group, and its split point is the `+`. */
  lemma UnclosedBracketSplitPoint()
    ensures FirstGroup("(1+2").None? && IsSplitPoint("(1+2", 2)
  {
    var s := "(1+2";
    assert ')' !in s;
    assert IsAdditiveAt(s, 2);
    FindOperatorIndexIsSplitPoint(s, 2);
  }

  /** A group whose inner text fails to evaluate makes the whole
      evaluation fail with that same error. */
  lemma CollapseFailurePropagates<V(!new)>(a: Arith<V>, expression: string, g: Group)
    requires FormatsWithoutBrackets(a)
    requires FirstGroup(expression) == Some(g)
    requires Calculate(a, Inner(expression, g)).Err?
    ensures Calculate(a, expression) == Err(Calculate(a, Inner(expression, g)).error)
  {
    assert EvaluateBrackets(a, expression) == Err(Calculate(a, Inner(expression, g)).error);
  }

  /** A failure during bracket resolution is the failure of the whole
      evaluation. */
  lemma ResolutionFailurePropagates<V(!new)>(a: Arith<V>, expression: string)
    requires FormatsWithoutBrackets(a)
    requires EvaluateBrackets(a, expression).Err?
    ensures Calculate(a, expression) == Err(EvaluateBrackets(a, expression).error)
  {
  }

  /** Both sides of a split are smaller than the split text in the
      termination order: neither holds more opening brackets, and each is
      shorter. Together with EvaluateBrackets, whose result is either its
      input or holds fewer opening brackets, this orders every recursive
      call below its caller, even when resolution made the text longer. */
  lemma SplitOperandsAreSmaller(s: string, i: int)
    requires 0 <= i < |s|
    ensures Smaller(SplitAt(s, i).0, s)
    ensures Smaller(SplitAt(s, i).1, s)
  {
    var parts := SplitAt(s, i);
    assert multiset(s) == multiset(parts.0) + multiset([s[i]]) + multiset(parts.1);
  }

  /** Brackets around a whole balanced expression change nothing when
      formatting round-trips: the group is evaluated, its value formatted,
      and the formatted text parses back to the same value. */
  lemma RedundantBracketsAreTransparent<V(!new)>(a: Arith<V>, t: string)
    requires FormatsWithoutBrackets(a) && FormatsPlainNumbers(a)
    requires Balanced(t)
    ensures Calculate(a, "(" + t + ")") == Calculate(a, t)
  {
    var e := "(" + t + ")";
    var g := Group(0, |t| + 1);
    WrappedGroup(t);
    assert Inner(e, g) == t;
    match Calculate(a, t)
    case Err(_) =>
    case Ok(v) =>
      var text := a.format(v);
      assert Splice(e, g, text) == text;
      assert NoBrackets(text);
      EvaluateBracketsUnchanged(a, text);
      assert EvaluateBrackets(a, e) == Ok(text);
  }
}
