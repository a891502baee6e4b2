/**
  Worked examples. Arithmetic is shown on token sequences, which is what the
  scanner produces from the buffer (the scanner's side is the general chain
  lemma `Tokenizer.TokenizeExpression`); the error and no-op paths are shown on
  whole buffers and key sequences.
 */
module Examples {
  import opened Numbers
  import opened ExpressionBuffer
  import opened Tokenizer
  import opened Reducer
  import opened Calculator

  /** '*' binds tighter than '+': the tokens of 2+3*4 reduce to 14. */
  lemma {:induction false} MultiplicationFirst()
    ensures Reduce([Num(Some(2.0)), Op('+'), Num(Some(3.0)), Op('*'), Num(Some(4.0))]) == Finished(Some(14.0))
  {
  }

  /** The tokens of 2*3+4 reduce to 10. */
  lemma {:induction false} MultiplicationBeforeAddition()
    ensures Reduce([Num(Some(2.0)), Op('*'), Num(Some(3.0)), Op('+'), Num(Some(4.0))]) == Finished(Some(10.0))
  {
  }

  /** Subtraction is left-associative: the tokens of 8-3-2 reduce to 3. */
  lemma {:induction false} SubtractionLeftToRight()
    ensures Reduce([Num(Some(8.0)), Op('-'), Num(Some(3.0)), Op('-'), Num(Some(2.0))]) == Finished(Some(3.0))
  {
  }

  /** A signed operand, as the scanner reads 2*-3: the product is -6. */
  lemma {:induction false} SignAfterOperator()
    ensures Reduce([Num(Some(2.0)), Op('*'), Num(Some(-3.0))]) == Finished(Some(-6.0))
  {
  }

  /** A division whose right operand is zero takes the error exit. */
  lemma {:induction false} DivisionByZero()
    ensures Reduce([Num(Some(5.0)), Op('/'), Num(Some(0.0))]) == Cleared
  {
  }

  /** A '/' by zero inside a longer sum still takes the error exit. */
  lemma {:induction false} DivisionByZeroInSum()
    ensures Reduce([Num(Some(1.0)), Op('+'), Num(Some(5.0)), Op('/'), Num(Some(0.0))]) == Cleared
  {
  }

  /** Trailing operators are ignored: "7+" evaluates to 7. */
  lemma {:induction false} TrailingOperator()
    ensures Evaluate("7+") == Finished(Some(7.0))
  {
    TrailingOperatorIgnored("7", '+');
    LexOperand("7", "", true);
    assert Lex("7") == [NumberText("7")];
  }

  /** A buffer opening with '+' (reachable as "-" then "+") has no number in front: the result shows "Error". */
  lemma {:induction false} LeadingPlusIsError(render: real -> string)
    ensures Compute(State("+5", false), render) == State("Error", true)
  {
    LexOperand("5", "", true);
    LexOperator('+', "5", true);
    assert Lex("+5") == [OperatorChar('+'), NumberText("5")];
  }

  /** A buffer opening with '*' has no left operand: the error exit clears the calculator. */
  lemma {:induction false} LeadingTimesClears(render: real -> string)
    ensures Compute(State("*5", false), render) == Initial
  {
    LexOperand("5", "", true);
    LexOperator('*', "5", true);
    assert Lex("*5") == [OperatorChar('*'), NumberText("5")];
  }

  /** A lone "-" trims to nothing, so '=' leaves the state as it is. */
  lemma {:induction false} LoneMinusUnchanged(render: real -> string, flag: bool)
    ensures Compute(State("-", flag), render) == State("-", flag)
  {
  }

  /** After a result, an operator continues from it and a digit starts afresh. */
  lemma {:induction false} ContinueOrRestart(render: real -> string)
    ensures Run(State("4", true), ["+", "5"], render) == State("4+5", false)
    ensures Run(State("4", true), ["7"], render) == State("7", false)
  {
  }
}
