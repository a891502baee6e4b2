/**
  The trailing operand of the expression buffer: the backward scans behind
  `currentNumberHasDecimal` and the "current entry" display `expForEntry`.
 */
module Operands {
  import opened Chars

  /**
    The maximal operator-free suffix of `s`, i.e. the operand being typed. The
    three clauses determine it uniquely (see TrailingRunUnique).
   */
  function TrailingRun(s: string): (r: string)
    ensures |r| <= |s| && r == s[|s| - |r|..]
    ensures OperatorFree(r)
    ensures |r| == |s| || IsOperator(s[|s| - |r| - 1])
  {
    if |s| == 0 || IsOperator(s[|s| - 1]) then [] else TrailingRun(s[..|s| - 1]) + [s[|s| - 1]]
  }

  /** Whether the operand being typed already holds a decimal point. */
  predicate HasDecimal(s: string) {
    '.' in TrailingRun(s)
  }

  /** Any operator-free suffix that starts right after an operator (or at 0) is the trailing run. */
  lemma {:induction false} TrailingRunUnique(s: string, start: nat)
    requires start <= |s|
    requires OperatorFree(s[start..])
    requires start == 0 || IsOperator(s[start - 1])
    ensures TrailingRun(s) == s[start..]
  {
  }

  /** An operator-free buffer is its own trailing run. */
  lemma {:induction false} TrailingRunOfOperatorFree(s: string)
    requires OperatorFree(s)
    ensures TrailingRun(s) == s
  {
    TrailingRunUnique(s, 0);
  }

  /** Appending a non-operator extends the trailing run by that character. */
  lemma {:induction false} TrailingRunExtend(s: string, c: char)
    requires !IsOperator(c)
    ensures TrailingRun(s + [c]) == TrailingRun(s) + [c]
  {
    assert (s + [c])[..|s|] == s;
  }

  /** Appending an operator empties the trailing run. */
  lemma {:induction false} TrailingRunAfterOperator(s: string, c: char)
    requires IsOperator(c)
    ensures TrailingRun(s + [c]) == []
  {
  }

  /**
    The backward scan of `currentNumberHasDecimal`: walk left from the end
    until an operator or the start, answering true at the first '.'.
   */
  method CurrentNumberHasDecimal(s: string) returns (found: bool)
    ensures found <==> '.' in TrailingRun(s)
  {
    var i := |s| - 1;
    while i >= 0 && !IsOperator(s[i])
      invariant -1 <= i < |s|
      invariant OperatorFree(s[i + 1..])
      invariant '.' !in s[i + 1..]
    {
      if s[i] == '.' {
        assert s[i..] == [s[i]] + s[i + 1..];
        TrailingRunUnique(s, FirstOfRun(s, i));
        assert s[i] == s[FirstOfRun(s, i)..][i - FirstOfRun(s, i)];
        return true;
      }
      i := i - 1;
    }
    TrailingRunUnique(s, i + 1);
    return false;
  }

  /** The start of the operator-free run that contains position i. */
  function FirstOfRun(s: string, i: nat): (start: nat)
    requires i < |s| && OperatorFree(s[i..])
    ensures start <= i
    ensures OperatorFree(s[start..])
    ensures start == 0 || IsOperator(s[start - 1])
    decreases i
  {
    if i == 0 || IsOperator(s[i - 1]) then i
    else
      assert s[i - 1..] == [s[i - 1]] + s[i..];
      FirstOfRun(s, i - 1)
  }

  /**
    The "current entry" display: "0" for an empty buffer, otherwise the
    operand being typed (the longest operator-free suffix, so by
    TrailingRunUnique it is `TrailingRun(s)`), or the trailing operator itself
    when the buffer ends in one. The result is always a non-empty suffix.
   */
  method ExpForEntry(s: string) returns (entry: string)
    ensures s == [] ==> entry == "0"
    ensures s != [] ==> 0 < |entry| <= |s| && entry == s[|s| - |entry|..]
    ensures s != [] && !IsOperator(s[|s| - 1]) ==>
              OperatorFree(entry) && (|entry| == |s| || IsOperator(s[|s| - |entry| - 1]))
    ensures s != [] && IsOperator(s[|s| - 1]) ==> entry == [s[|s| - 1]]
    ensures s != [] && OperatorFree(s) ==> entry == s
    ensures '.' in entry <==> HasDecimal(s)
  {
    if s == [] {
      return "0";
    }
    var i := |s| - 1;
    var buf := "";
    while i >= 0 && !IsOperator(s[i])
      invariant -1 <= i < |s|
      invariant buf == s[i + 1..]
      invariant OperatorFree(buf)
    {
      buf := [s[i]] + buf;
      i := i - 1;
    }
    TrailingRunUnique(s, i + 1);
    if s != [] && OperatorFree(s) {
      TrailingRunOfOperatorFree(s);
    }
    if buf != [] {
      return buf;
    }
    return [s[|s| - 1]];
  }
}
