/** Choosing the operator a bracket-free expression is split on. Additive
    operators bind loosest, so the rightmost genuine `+` or `-` is chosen;
    a `+` or `-` counts as genuine only when a digit stands directly to its
    left, which keeps the sign of a negative literal ("-5", "2*-3") from
    being taken for a binary operator. Without one, the rightmost `*` or
    `/` is chosen, and without that the expression is a plain number. */
module OperatorSelector {
  import opened Operators

  /** Position `i` holds an additive operator with a digit to its left. */
  predicate IsAdditiveAt(s: string, i: int) {
    0 < i < |s| && s[i] in FirstOperations && IsDigit(s[i - 1])
  }

  /** `s` has a digit-gated additive operator somewhere. */
  ghost predicate HasAdditive(s: string) {
    exists i :: IsAdditiveAt(s, i)
  }

  /** The precedence rule stated declaratively: `r` is the rightmost
      digit-gated additive operator when there is one; otherwise `r` is the
      rightmost multiplicative operator, or -1 when there is none. */
  ghost predicate IsSplitPoint(s: string, r: int) {
    && -1 <= r < |s|
    && if HasAdditive(s) then
         IsAdditiveAt(s, r) && forall j :: r < j < |s| ==> !IsAdditiveAt(s, j)
       else
         && (r >= 0 ==> s[r] in SecondOperations)
         && forall j :: r < j < |s| ==> s[j] !in SecondOperations
  }

  /** The right-to-left scan over positions `index` down to 0: the first
      digit-gated additive operator met, or -1 when the scan runs out. */
  function LastAdditive(s: string, index: int): (r: int)
    requires -1 <= index < |s|
    ensures -1 <= r <= index
    ensures r >= 0 ==> IsAdditiveAt(s, r)
    ensures forall j :: r < j <= index ==> !IsAdditiveAt(s, j)
    decreases index + 1
  {
    if index < 0 then -1
    else if s[index] in FirstOperations && index > 0 && IsDigit(s[index - 1]) then index
    else LastAdditive(s, index - 1)
  }

  /** The last position of `s` holding one of `chars`, or -1 when no
      character of `s` is among them. */
  function LastIndexOfAny(s: string, chars: seq<char>): (r: int)
    ensures -1 <= r < |s|
    ensures r >= 0 ==> s[r] in chars
    ensures forall j :: r < j < |s| ==> s[j] !in chars
  {
    if |s| == 0 then -1
    else if s[|s| - 1] in chars then |s| - 1
    else LastIndexOfAny(s[..|s| - 1], chars)
  }

  /** The index of the operator to split `s` on, or -1 when `s` is to be
      read as a plain number. The chosen character is always one of the
      operator table, and a sign at index 0 is never chosen. */
  function FindOperatorIndex(s: string): (r: int)
    ensures -1 <= r < |s|
    ensures r >= 0 ==> IsOperator(s[r])
    ensures r == 0 ==> s[0] in SecondOperations
    ensures IsSplitPoint(s, r)
  {
    var additive := LastAdditive(s, |s| - 1);
    if additive >= 0 then additive
    else LastIndexOfAny(s, SecondOperations)
  }

  /** At most one position satisfies the precedence rule. */
  lemma SplitPointUnique(s: string, r1: int, r2: int)
    requires IsSplitPoint(s, r1) && IsSplitPoint(s, r2)
    ensures r1 == r2
  {
  }

  /** FindOperatorIndex answers exactly the position the precedence rule
      describes. */
  lemma FindOperatorIndexIsSplitPoint(s: string, r: int)
    ensures FindOperatorIndex(s) == r <==> IsSplitPoint(s, r)
  {
    if IsSplitPoint(s, r) {
      SplitPointUnique(s, r, FindOperatorIndex(s));
    }
  }

  /** The split makes chains associate to the left: the right operand holds
      no operator that would be chosen at the same level. After a split on
      `+` or `-` the right side has no digit-gated `+` or `-`, so "2-3-4"
      is read as (2-3)-4; after a split on `*` or `/` the right side has no
      split point at all, so "8/4/2" is read as (8/4)/2. */
  lemma RightOperandIsTighter(s: string)
    requires FindOperatorIndex(s) >= 0
    ensures !HasAdditive(s[FindOperatorIndex(s) + 1..])
    ensures s[FindOperatorIndex(s)] in SecondOperations ==> FindOperatorIndex(s[FindOperatorIndex(s) + 1..]) == -1
  {
    var i := FindOperatorIndex(s);
    var right := s[i + 1..];
    forall j | 0 <= j < |right|
      ensures !IsAdditiveAt(right, j)
      ensures s[i] in SecondOperations ==> right[j] !in SecondOperations
    {
      assert right[j] == s[i + 1 + j];
      if j > 0 {
        assert right[j - 1] == s[i + j];
        assert IsAdditiveAt(right, j) ==> IsAdditiveAt(s, i + 1 + j);
      }
    }
  }

  /** Worked cases of the precedence rule: a leading sign is skipped, a
      trailing additive operator beats an earlier product, an additive
      operator beats a later product, an exponent sign is no operator, and
      in "3--2" (what "3-(-2)" becomes once its group is collapsed) the
      second `-` is read as the sign of the right operand. */
  lemma PrecedenceExamples()
    ensures FindOperatorIndex("-5*3") == 2
    ensures FindOperatorIndex("2*3+4") == 3
    ensures FindOperatorIndex("2+3*4") == 1
    ensures FindOperatorIndex("5e-3") == -1
    ensures FindOperatorIndex("3--2") == 1
  {
    assert IsAdditiveAt("3--2", 1);
    assert IsAdditiveAt("2*3+4", 3);
    assert IsAdditiveAt("2+3*4", 1);
    assert LastAdditive("2+3*4", 2) == 1;
  }
}
