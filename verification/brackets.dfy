/** The bracket scan of the calculator: a left-to-right pass that tracks the
    nesting depth and stops at the first `)` that brings the depth back to
    zero, together with the splice that replaces that group by text. */
module Brackets {
  import opened Results

  /** The number of opening brackets in `t`. */
  function OpenCount(t: string): nat {
    multiset(t)['(']
  }

  /** The nesting depth after reading `t` from depth zero: opening brackets
      minus closing brackets. */
  function Depth(t: string): int {
    multiset(t)['('] as int - multiset(t)[')'] as int
  }

  /** `t` contains neither kind of bracket. */
  predicate NoBrackets(t: string) {
    '(' !in t && ')' !in t
  }

  /** Every prefix of `s` has a non-negative depth and `s` ends at depth
      zero: each bracket is closed by a later one. */
  ghost predicate Balanced(s: string) {
    && (forall k :: 0 <= k <= |s| ==> Depth(s[..k]) >= 0)
    && Depth(s) == 0
  }

  /** Position `p` holds a `(` read at depth zero. */
  ghost predicate OpensAtZero(s: string, p: int) {
    0 <= p < |s| && s[p] == '(' && Depth(s[..p]) == 0
  }

  /** Position `j` holds a `)` that brings the depth back to zero. */
  ghost predicate ClosesToZero(s: string, j: int) {
    0 <= j < |s| && s[j] == ')' && Depth(s[..j + 1]) == 0
  }

  /** A bracket group by the indices of its `(` and its `)`. */
  datatype Group = Group(open: nat, close: nat)

  /** `g` is the group the scan collapses: it closes at the first `)` that
      returns the depth to zero, it opens at the first `(` read at depth
      zero, and the depth stays positive in between, so nested pairs inside
      it are skipped. */
  ghost predicate IsFirstGroup(s: string, g: Group) {
    && g.open < g.close
    && OpensAtZero(s, g.open)
    && ClosesToZero(s, g.close)
    && (forall k :: g.open < k <= g.close ==> Depth(s[..k]) > 0)
    && (forall p :: 0 <= p < g.open ==> !OpensAtZero(s, p))
    && (forall j :: 0 <= j < g.close ==> !ClosesToZero(s, j))
  }

  /** Reading one more character changes the depth by that character's
      contribution. */
  lemma DepthStep(s: string, k: int)
    requires 0 <= k < |s|
    ensures Depth(s[..k + 1]) == Depth(s[..k]) + (if s[k] == '(' then 1 else if s[k] == ')' then -1 else 0)
  {
    assert s[..k + 1] == s[..k] + [s[k]];
  }

  /** What the scan knows after reading `s[..index]`: `depth` is the
      nesting depth there; while it is positive, `start` is the `(` read at
      depth zero that opened the current group and the depth has stayed
      positive since; otherwise `start` is -1; no `(` has been read at depth
      zero except `start`, and no `)` has returned the depth to zero. */
  ghost predicate ScanState(s: string, index: int, depth: int, start: int) {
    && 0 <= index <= |s|
    && depth == Depth(s[..index])
    && (depth > 0 ==> 0 <= start < index && OpensAtZero(s, start))
    && (depth > 0 ==> forall k :: start < k <= index ==> Depth(s[..k]) > 0)
    && (depth <= 0 ==> start == -1)
    && (forall p :: 0 <= p < index && OpensAtZero(s, p) ==> depth > 0 && p == start)
    && (forall j :: 0 <= j < index ==> !ClosesToZero(s, j))
  }

  /** Reading a `(`: the depth grows, and a `(` read at depth zero becomes
      the start of the group. */
  lemma {:induction false} OpenStep(s: string, index: int, depth: int, start: int)
    requires ScanState(s, index, depth, start) && index < |s| && s[index] == '('
    ensures ScanState(s, index + 1, depth + 1, if depth == 0 then index else start)
  {
    DepthStep(s, index);
  }

  /** Reading a `)` that does not return the depth to zero. */
  lemma {:induction false} CloseStep(s: string, index: int, depth: int, start: int)
    requires ScanState(s, index, depth, start) && index < |s| && s[index] == ')'
    requires depth - 1 != 0
    ensures ScanState(s, index + 1, depth - 1, start)
  {
    DepthStep(s, index);
  }

  /** Reading any character other than a bracket. */
  lemma {:induction false} OtherStep(s: string, index: int, depth: int, start: int)
    requires ScanState(s, index, depth, start) && index < |s|
    requires s[index] != '(' && s[index] != ')'
    ensures ScanState(s, index + 1, depth, start)
  {
    DepthStep(s, index);
  }

  /** Reading the `)` that returns the depth to zero closes the first
      group, and its start is a real index, never the initial -1. */
  lemma {:induction false} GroupFound(s: string, index: int, depth: int, start: int)
    requires ScanState(s, index, depth, start) && index < |s| && s[index] == ')'
    requires depth - 1 == 0
    ensures 0 <= start < index
    ensures IsFirstGroup(s, Group(start, index))
  {
    DepthStep(s, index);
  }

  /** The scan loop from position `index`, at nesting depth `depth`, with
      `start` the position of the `(` that opened the current top-level
      group, or -1 while the depth is not positive. It answers the group
      closed by the first `)` that returns the depth to zero, or None when
      the scan reaches the end without one. */
  function ScanGroup(s: string, index: nat, depth: int, start: int): (g: Option<Group>)
    requires ScanState(s, index, depth, start)
    ensures g.Some? ==> IsFirstGroup(s, g.value)
    ensures g.None? <==> forall j :: index <= j < |s| ==> !ClosesToZero(s, j)
    decreases |s| - index
  {
    if index == |s| then None
    else if s[index] == '(' then
      OpenStep(s, index, depth, start);
      ScanGroup(s, index + 1, depth + 1, if depth == 0 then index else start)
    else if s[index] == ')' then
      if depth - 1 == 0 then
        GroupFound(s, index, depth, start);
        Some(Group(start, index))
      else
        CloseStep(s, index, depth, start);
        ScanGroup(s, index + 1, depth - 1, start)
    else
      OtherStep(s, index, depth, start);
      ScanGroup(s, index + 1, depth, start)
  }

  /** The first top-level bracket group of `s`, or None when the depth
      never returns to zero after a `)`. */
  function FirstGroup(s: string): (g: Option<Group>)
    ensures g.Some? ==> IsFirstGroup(s, g.value)
    ensures g.None? <==> forall j :: 0 <= j < |s| ==> !ClosesToZero(s, j)
  {
    assert s[..0] == [];
    ScanGroup(s, 0, 0, -1)
  }

  /** The text strictly between the brackets of `g`; it holds fewer opening
      brackets than `s` because the group's own `(` is left out. */
  function Inner(s: string, g: Group): (r: string)
    requires g.open < g.close < |s|
    ensures [s[g.open]] + r + [s[g.close]] == s[g.open..g.close + 1]
    ensures s[g.open] == '(' ==> OpenCount(r) < OpenCount(s)
  {
    var r := s[g.open + 1..g.close];
    assert s == s[..g.open] + [s[g.open]] + r + s[g.close..];
    r
  }

  /** `s` with the span of `g`, both brackets included, replaced by `text`;
      the text before and after the span is kept verbatim. Replacing a group
      by bracket-free text removes at least one opening bracket. */
  function Splice(s: string, g: Group, text: string): (r: string)
    requires g.open <= g.close < |s|
    ensures |r| == |s| - (g.close - g.open + 1) + |text|
    ensures r[..g.open] == s[..g.open]
    ensures r[g.open..g.open + |text|] == text
    ensures r[g.open + |text|..] == s[g.close + 1..]
    ensures OpenCount(r) == OpenCount(s) - OpenCount(s[g.open..g.close + 1]) + OpenCount(text)
    ensures s[g.open] == '(' && '(' !in text ==> OpenCount(r) < OpenCount(s)
  {
    assert s == s[..g.open] + s[g.open..g.close + 1] + s[g.close + 1..];
    var r := s[..g.open] + text + s[g.close + 1..];
    assert r[..g.open] == s[..g.open];
    assert r[g.open..g.open + |text|] == text;
    assert r[g.open + |text|..] == s[g.close + 1..];
    r
  }

  /** Without any `(` no prefix has positive depth, so no `)` can return
      the depth to zero and the scan finds no group. */
  lemma NoOpenNoGroup(s: string)
    requires '(' !in s
    ensures FirstGroup(s) == None
  {
    forall j | 0 <= j < |s|
      ensures !ClosesToZero(s, j)
    {
      assert '(' !in s[..j + 1];
      if s[j] == ')' {
        assert ')' in s[..j + 1];
      }
    }
  }

  /** The depth moves by at most one per character, so when it falls from
      at least one to at most zero, some `)` in between brings it back to
      exactly zero. */
  lemma {:induction false} DepthReturnsToZero(s: string, a: int, b: int)
    requires 0 <= a < b <= |s|
    requires Depth(s[..a]) >= 1 && Depth(s[..b]) <= 0
    ensures exists j :: a <= j < b && ClosesToZero(s, j)
    decreases b - a
  {
    DepthStep(s, a);
    if Depth(s[..a + 1]) <= 0 {
      assert ClosesToZero(s, a);
    } else {
      DepthReturnsToZero(s, a + 1, b);
    }
  }

  /** In a balanced expression every bracket belongs to some group, so when
      the scan finds no group there are no brackets at all. */
  lemma BalancedWithoutGroupHasNoBrackets(s: string)
    requires Balanced(s) && FirstGroup(s).None?
    ensures NoBrackets(s)
  {
    if !NoBrackets(s) {
      var p :| 0 <= p < |s| && (s[p] == '(' || s[p] == ')');
      DepthStep(s, p);
      assert s[..|s|] == s;
      if s[p] == '(' {
        DepthReturnsToZero(s, p + 1, |s|);
      } else {
        DepthReturnsToZero(s, p, |s|);
      }
    }
  }

  /** Bracket-free text does not change the depth. */
  lemma FlatTextDepth(text: string, k: int)
    requires NoBrackets(text) && 0 <= k <= |text|
    ensures Depth(text[..k]) == 0
  {
    assert '(' !in text[..k] && ')' !in text[..k];
  }

  /** The depth of a prefix of `s[..o] + text + s[c + 1..]`, where the
      depth is zero both before `o` and after `c`: the prefix before the
      text keeps its depths, the text sits at depth zero, and each prefix
      ending in the suffix has the depth of the matching prefix of `s`. */
  lemma SpliceDepth(s: string, o: int, c: int, text: string, k: int)
    requires 0 <= o <= c < |s| && NoBrackets(text)
    requires Depth(s[..o]) == 0 && Depth(s[..c + 1]) == 0
    requires 0 <= k <= |s| - (c - o + 1) + |text|
    ensures Depth((s[..o] + text + s[c + 1..])[..k])
      == if k <= o then Depth(s[..k])
         else if k <= o + |text| then 0
         else Depth(s[..k - |text| + (c - o + 1)])
  {
    var r := s[..o] + text + s[c + 1..];
    if k <= o {
      assert r[..k] == s[..k];
    } else if k <= o + |text| {
      assert r[..k] == s[..o] + text[..k - o];
      FlatTextDepth(text, k - o);
    } else {
      var m := k - o - |text|;
      assert r[..k] == s[..o] + text + s[c + 1..c + 1 + m];
      FlatTextDepth(text, |text|);
      assert text[..|text|] == text;
      assert s[..c + 1 + m] == s[..c + 1] + s[c + 1..c + 1 + m];
    }
  }

  /** The balance argument on plain facts: a balanced `s` with depth zero
      before `o` and after `c` stays balanced when `s[o..c + 1]` is replaced
      by bracket-free text. */
  lemma SpliceBalanceCore(s: string, o: int, c: int, text: string)
    requires 0 <= o <= c < |s| && NoBrackets(text)
    requires Depth(s[..o]) == 0 && Depth(s[..c + 1]) == 0
    requires forall k :: 0 <= k <= |s| ==> Depth(s[..k]) >= 0
    requires Depth(s) == 0
    ensures Balanced(s[..o] + text + s[c + 1..])
  {
    var r := s[..o] + text + s[c + 1..];
    forall k | 0 <= k <= |r|
      ensures Depth(r[..k]) >= 0
    {
      SpliceDepth(s, o, c, text, k);
      if k > o + |text| {
        var k' := k - |text| + (c - o + 1);
        assert 0 <= k' <= |s| && Depth(s[..k']) >= 0;
      }
    }
    SpliceDepth(s, o, c, text, |r|);
    assert r[..|r|] == r;
    assert s[..|s|] == s;
  }

  /** Replacing the first group of a balanced expression by bracket-free
      text leaves a balanced expression. */
  lemma SplicePreservesBalance(s: string, g: Group, text: string)
    requires Balanced(s) && IsFirstGroup(s, g) && NoBrackets(text)
    ensures Balanced(Splice(s, g, text))
  {
    var o, c := g.open, g.close;
    assert Depth(s[..o]) == 0 && Depth(s[..c + 1]) == 0;
    SpliceBalanceCore(s, o, c, text);
    assert Splice(s, g, text) == s[..o] + text + s[c + 1..];
  }

  /** A balanced expression wrapped in one more pair of brackets is a
      single group spanning the whole text. */
  lemma WrappedGroup(t: string)
    requires Balanced(t)
    ensures FirstGroup("(" + t + ")") == Some(Group(0, |t| + 1))
  {
    var e := "(" + t + ")";
    forall k | 1 <= k <= |t| + 1
      ensures Depth(e[..k]) == 1 + Depth(t[..k - 1])
    {
      assert e[..k] == "(" + t[..k - 1];
    }
    assert e[..|t| + 2] == e;
    assert t[..|t|] == t;
    assert e[..0] == [];
    assert OpensAtZero(e, 0);
    assert ClosesToZero(e, |t| + 1);
  }
}
