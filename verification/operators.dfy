/** The calculator's fixed operator table and the apply step that maps an
    operator character to its arithmetic operation. */
module Operators {
  import opened Results
  import opened Numbers

  /** The additive operators; they are only split on when a digit stands
      directly to their left. */
  const FirstOperations: seq<char> := ['+', '-']

  /** The multiplicative operators, used when no additive split exists. */
  const SecondOperations: seq<char> := ['*', '/']

  /** A character of the operator table. */
  predicate IsOperator(c: char) {
    c in FirstOperations || c in SecondOperations
  }

  /** A decimal digit: one of the ten characters '0' to '9'. */
  predicate IsDigit(c: char): (b: bool)
    ensures b <==> c in "0123456789"
  {
    '0' <= c <= '9'
  }

  /** Applies the operator `op` to `left` and `right`. The operation is
      defined on exactly the four characters of the operator table; any
      other character is an invalid-operator error naming that character. */
  function PerformOperation<V>(a: Arith<V>, left: V, right: V, op: char): (r: Result<V>)
    ensures r.Ok? <==> IsOperator(op)
    ensures r.Err? ==> r.error == InvalidOperator(op)
    ensures op == '+' ==> r == Ok(a.add(left, right))
    ensures op == '-' ==> r == Ok(a.sub(left, right))
    ensures op == '*' ==> r == Ok(a.mul(left, right))
    ensures op == '/' ==> r == Ok(a.div(left, right))
  {
    match op
    case '+' => Ok(a.add(left, right))
    case '-' => Ok(a.sub(left, right))
    case '*' => Ok(a.mul(left, right))
    case '/' => Ok(a.div(left, right))
    case _ => Err(InvalidOperator(op))
  }
}
