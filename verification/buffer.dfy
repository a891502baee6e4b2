/**
  The expression buffer and its editing intents: `appendDigit`,
  `appendOperator`, `appendDecimal`, `del` and `clearAll`. Each intent is one
  pure transition from the (expression, justEvaluated) pair to the next.
 */
module ExpressionBuffer {
  import opened Chars
  import opened Operands

  /** The calculator's state: the text typed so far and whether it holds a freshly computed result. */
  datatype State = State(expr: string, justEvaluated: bool)

  /** The state of a new session and the state `clearAll` returns to. */
  const Initial := State("", false)

  function Last(s: string): char
    requires |s| > 0
  {
    s[|s| - 1]
  }

  /**
    A digit key: right after an evaluation it starts a fresh expression made of
    the key alone; otherwise the key is appended.
   */
  function AppendDigit(st: State, d: string): (r: State)
    ensures !r.justEvaluated
    ensures st.justEvaluated ==> r.expr == d
    ensures !st.justEvaluated ==> r.expr == st.expr + d
  {
    if st.justEvaluated then State(d, false) else State(st.expr + d, st.justEvaluated)
  }

  /**
    An operator key. On an empty buffer only '-' is taken (it seeds a negative
    operand); the flag is left alone there. Otherwise the flag is cleared and
    the operator replaces a trailing operator or is appended.
   */
  function AppendOperator(st: State, op: char): (r: State)
    ensures st.expr == [] && op == '-' ==> r == State("-", st.justEvaluated)
    ensures st.expr == [] && op != '-' ==> r == st
    ensures st.expr != [] ==> !r.justEvaluated && |r.expr| > 0 && Last(r.expr) == op
    ensures st.expr != [] && IsOperator(Last(st.expr)) ==>
              |r.expr| == |st.expr| && r.expr[..|r.expr| - 1] == st.expr[..|st.expr| - 1]
    ensures st.expr != [] && !IsOperator(Last(st.expr)) ==> r.expr == st.expr + [op]
  {
    if |st.expr| == 0 then
      if op == '-' then State("-", st.justEvaluated) else st
    else if IsOperator(Last(st.expr)) then
      State(st.expr[..|st.expr| - 1] + [op], false)
    else
      State(st.expr + [op], false)
  }

  /**
    The decimal-point key. Right after an evaluation the buffer becomes "0.";
    a new operand starts as "0."; a second point in the same operand is
    ignored; otherwise the point is appended.
   */
  function AppendDecimal(st: State): (r: State)
    ensures !r.justEvaluated
    ensures HasDecimal(r.expr)
    ensures st.justEvaluated ==> r.expr == "0."
    ensures !st.justEvaluated && (st.expr == [] || IsOperator(Last(st.expr))) ==> r.expr == st.expr + "0."
    ensures !st.justEvaluated && st.expr != [] && !IsOperator(Last(st.expr)) ==>
              if HasDecimal(st.expr) then r == st else r.expr == st.expr + "."
  {
    if st.justEvaluated then
      ZeroPointStartsOperand([]);
      State("0.", false)
    else if |st.expr| == 0 || IsOperator(Last(st.expr)) then
      ZeroPointStartsOperand(st.expr);
      State(st.expr + "0.", st.justEvaluated)
    else if HasDecimal(st.expr) then
      st
    else
      PointJoinsOperand(st.expr);
      State(st.expr + ".", st.justEvaluated)
  }

  /** "0." typed at the start or after an operator is the whole new operand. */
  lemma {:induction false} ZeroPointStartsOperand(e: string)
    requires e == [] || IsOperator(e[|e| - 1])
    ensures TrailingRun(e + "0.") == "0."
    ensures HasDecimal(e + "0.")
  {
    var s := e + "0.";
    assert s[|e|..] == "0.";
    TrailingRunUnique(s, |e|);
  }

  /** A point typed after an operand character joins that operand. */
  lemma {:induction false} PointJoinsOperand(e: string)
    ensures TrailingRun(e + ".") == TrailingRun(e) + "."
    ensures HasDecimal(e + ".")
  {
    TrailingRunExtend(e, '.');
  }

  /** The delete key: drops the last character, if any, and keeps the flag as it is. */
  function Del(st: State): (r: State)
    ensures r.justEvaluated == st.justEvaluated
    ensures st.expr == [] ==> r == st
    ensures st.expr != [] ==> r.expr + [Last(st.expr)] == st.expr
  {
    if |st.expr| == 0 then st else State(st.expr[..|st.expr| - 1], st.justEvaluated)
  }

  /** The clear key: back to the initial state. */
  function ClearAll(): (r: State)
    ensures r.expr == [] && !r.justEvaluated
  {
    Initial
  }

  // ---------------------------------------------------------------------------
  // Buffer invariants

  /** No operator is immediately followed by another operator. */
  ghost predicate NoAdjacentOperators(e: string) {
    forall i | 0 <= i < |e| - 1 :: !(IsOperator(e[i]) && IsOperator(e[i + 1]))
  }

  /** Between any two decimal points there is an operator: at most one point per operand. */
  ghost predicate OnePointPerOperand(e: string) {
    forall i, j | 0 <= i < j < |e| && e[i] == '.' && e[j] == '.' :: exists k | i < k < j :: IsOperator(e[k])
  }

  ghost predicate WellFormed(e: string) {
    NoAdjacentOperators(e) && OnePointPerOperand(e)
  }

  lemma {:induction false} WellFormedPrefix(e: string, n: nat)
    requires WellFormed(e) && n <= |e|
    ensures WellFormed(e[..n])
  {
    var p := e[..n];
    forall i, j | 0 <= i < j < |p| && p[i] == '.' && p[j] == '.'
      ensures exists k | i < k < j :: IsOperator(p[k])
    {
      var k :| i < k < j && IsOperator(e[k]);
      assert p[k] == e[k];
    }
  }

  /** Appending a character that is neither an operator nor a point keeps a buffer well formed. */
  lemma {:induction false} WellFormedAppendPlain(e: string, c: char)
    requires WellFormed(e) && !IsOperator(c) && c != '.'
    ensures WellFormed(e + [c])
  {
    var e' := e + [c];
    forall i, j | 0 <= i < j < |e'| && e'[i] == '.' && e'[j] == '.'
      ensures exists k | i < k < j :: IsOperator(e'[k])
    {
      assert e'[i] == e[i] && e'[j] == e[j];
      var k :| i < k < j && IsOperator(e[k]);
      assert e'[k] == e[k];
    }
  }

  /** Appending a point to an operand that has none keeps a buffer well formed. */
  lemma {:induction false} WellFormedAppendPoint(e: string)
    requires WellFormed(e) && !HasDecimal(e)
    requires e == [] || !IsOperator(Last(e))
    ensures WellFormed(e + ".")
  {
    var e' := e + ".";
    var run := TrailingRun(e);
    var start := |e| - |run|;
    forall i, j | 0 <= i < j < |e'| && e'[i] == '.' && e'[j] == '.'
      ensures exists k | i < k < j :: IsOperator(e'[k])
    {
      if j < |e| {
        var k :| i < k < j && IsOperator(e[k]);
        assert e'[k] == e[k];
      } else {
        assert e[i] == '.';
        assert i < start;
        assert IsOperator(e'[start - 1]);
      }
    }
  }

  /** Appending an operator after a non-operator keeps a buffer well formed. */
  lemma {:induction false} WellFormedAppendOperator(e: string, op: char)
    requires WellFormed(e) && IsOperator(op)
    requires e == [] || !IsOperator(Last(e))
    ensures WellFormed(e + [op])
  {
    var e' := e + [op];
    forall i, j | 0 <= i < j < |e'| && e'[i] == '.' && e'[j] == '.'
      ensures exists k | i < k < j :: IsOperator(e'[k])
    {
      var k :| i < k < j && IsOperator(e[k]);
      assert e'[k] == e[k];
    }
  }

  /** Every editing intent keeps the buffer well formed. */
  lemma {:induction false} AppendDigitKeepsWellFormed(st: State, d: char)
    requires WellFormed(st.expr) && IsDigit(d)
    ensures WellFormed(AppendDigit(st, [d]).expr)
  {
    if !st.justEvaluated {
      WellFormedAppendPlain(st.expr, d);
    }
  }

  lemma {:induction false} AppendOperatorKeepsWellFormed(st: State, op: char)
    requires WellFormed(st.expr) && IsOperator(op)
    ensures WellFormed(AppendOperator(st, op).expr)
  {
    var e := st.expr;
    if |e| > 0 {
      if IsOperator(Last(e)) {
        var p := e[..|e| - 1];
        WellFormedPrefix(e, |e| - 1);
        assert p == [] || !IsOperator(Last(p)) by {
          if p != [] {
            assert Last(p) == e[|e| - 2];
          }
        }
        WellFormedAppendOperator(p, op);
      } else {
        WellFormedAppendOperator(e, op);
      }
    }
  }

  /** A new operand "0." after an operator (or at the start) keeps a buffer well formed. */
  lemma {:induction false} WellFormedAppendZeroPoint(e: string)
    requires WellFormed(e)
    requires e == [] || IsOperator(Last(e))
    ensures WellFormed(e + "0.")
  {
    var e' := e + "0.";
    forall i, j | 0 <= i < j < |e'| && e'[i] == '.' && e'[j] == '.'
      ensures exists k | i < k < j :: IsOperator(e'[k])
    {
      if j < |e| {
        var k :| i < k < j && IsOperator(e[k]);
        assert e'[k] == e[k];
      } else {
        assert e[i] == '.' && IsOperator(e'[|e| - 1]);
      }
    }
    assert NoAdjacentOperators(e') by {
      forall i | 0 <= i < |e'| - 1
        ensures !(IsOperator(e'[i]) && IsOperator(e'[i + 1]))
      {
        if i + 1 < |e| {
          assert e'[i] == e[i] && e'[i + 1] == e[i + 1];
        }
      }
    }
  }

  lemma {:induction false} AppendDecimalKeepsWellFormed(st: State)
    requires WellFormed(st.expr)
    ensures WellFormed(AppendDecimal(st).expr)
  {
    var e := st.expr;
    if st.justEvaluated {
      assert WellFormed("0.");
    } else if |e| == 0 || IsOperator(Last(e)) {
      WellFormedAppendZeroPoint(e);
    } else if !HasDecimal(e) {
      WellFormedAppendPoint(e);
    }
  }

  lemma {:induction false} DelKeepsWellFormed(st: State)
    requires WellFormed(st.expr)
    ensures WellFormed(Del(st).expr)
  {
    if |st.expr| > 0 {
      WellFormedPrefix(st.expr, |st.expr| - 1);
    }
  }

  // ---------------------------------------------------------------------------
  // Relations between intents

  /** Deleting right after typing a digit restores the buffer. */
  lemma {:induction false} DelUndoesDigit(st: State, d: char)
    requires !st.justEvaluated
    ensures Del(AppendDigit(st, [d])) == st
  {
    assert (st.expr + [d])[..|st.expr|] == st.expr;
  }

  /** Deleting right after an operator that was appended (not substituted) restores the buffer, flag aside. */
  lemma {:induction false} DelUndoesOperator(st: State, op: char)
    requires st.expr != [] && !IsOperator(Last(st.expr))
    ensures Del(AppendOperator(st, op)) == State(st.expr, false)
  {
    assert (st.expr + [op])[..|st.expr|] == st.expr;
  }

  /**
    Operator coalescing: two operator keys in a row act like the second one
    alone, except that a '-' on an empty buffer is itself an operand sign that
    the second key then replaces ("-" then "+" gives "+").
   */
  lemma {:induction false} OperatorCoalescing(st: State, first: char, second: char)
    requires IsOperator(first)
    requires st.expr != [] || first != '-'
    ensures AppendOperator(AppendOperator(st, first), second) == AppendOperator(st, second)
  {
    var e := st.expr;
    if |e| > 0 && IsOperator(Last(e)) {
      assert (e[..|e| - 1] + [first])[..|e| - 1] == e[..|e| - 1];
    } else if |e| > 0 {
      assert (e + [first])[..|e|] == e;
    }
  }

  /** The replacement of a leading '-': the code keeps no unary sign before another operator. */
  lemma {:induction false} LeadingMinusReplaced(flag: bool)
    ensures AppendOperator(AppendOperator(State("", flag), '-'), '+') == State("+", false)
  {
  }

  /** A second decimal point in a row changes nothing: the intent is idempotent. */
  lemma {:induction false} AppendDecimalIdempotent(st: State)
    ensures AppendDecimal(AppendDecimal(st)) == AppendDecimal(st)
  {
    var r := AppendDecimal(st);
    assert r.expr != [] && !IsOperator(Last(r.expr)) by {
      if st.justEvaluated {
      } else if |st.expr| == 0 || IsOperator(Last(st.expr)) {
        assert Last(r.expr) == '.';
      } else if !HasDecimal(st.expr) {
        assert Last(r.expr) == '.';
      }
    }
  }

  /**
    Deleting right after an evaluation keeps the flag, so the next digit still
    discards what is left of the result.
   */
  lemma {:induction false} DelAfterEvaluation(e: string, d: char)
    ensures AppendDigit(Del(State(e, true)), [d]) == State([d], false)
  {
  }
}
