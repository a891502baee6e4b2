/**
  `compute` and `handleKey`: evaluating the buffer and writing the result back
  into the state, the dispatch from key names to intents, and what holds over
  a whole session of keys.
 */
module Calculator {
  import opened Chars
  import opened Numbers
  import opened Operands
  import opened ExpressionBuffer
  import opened Tokenizer
  import opened Reducer

  /**
    What `compute` decides for a buffer: nothing to do for an empty buffer or
    one with no token once trailing operators are trimmed, the error exit, or
    the value of both passes.
   */
  function Evaluate(e: string): Outcome {
    if |e| == 0 then Unchanged else Reduce(Tokenize(TrimOperators(e)))
  }

  /**
    How `compute` writes an outcome into the state. With nothing to evaluate
    the state is kept; the error exit clears it; a finite result is shown
    through `render` (the JavaScript number-to-string conversion, which this
    model leaves open) and a non-numeric one as "Error", and the flag is set.
   */
  function Commit(st: State, o: Outcome, render: real -> string): (r: State)
    ensures o.Unchanged? ==> r == st
    ensures o.Cleared? ==> r == Initial
    ensures o.Finished? ==> r.justEvaluated
    ensures forall x :: o == Finished(Some(x)) ==> r.expr == render(x)
    ensures o == Finished(None) ==> r.expr == "Error"
  {
    match o
    case Unchanged => st
    case Cleared => ClearAll()
    case Finished(v) => State(if v.Some? then render(v.value) else "Error", true)
  }

  /** `compute`: evaluate the buffer and commit the outcome. */
  function Compute(st: State, render: real -> string): State {
    Commit(st, Evaluate(st.expr), render)
  }

  /** The key names `handleKey` understands; any other name is appended like a digit. */
  function HandleKey(st: State, k: string, render: real -> string): State {
    if k == "clear" then ClearAll()
    else if k == "del" then Del(st)
    else if k == "=" then Compute(st, render)
    else if k == "." then AppendDecimal(st)
    else if |k| == 1 && IsOperator(k[0]) then AppendOperator(st, k[0])
    else AppendDigit(st, k)
  }

  /** A session: the keys handled one after the other. */
  function Run(st: State, keys: seq<string>, render: real -> string): State
    decreases |keys|
  {
    if |keys| == 0 then st else Run(HandleKey(st, keys[0], render), keys[1..], render)
  }

  /** The keys the calculator's buttons and keyboard send. */
  predicate IsKey(k: string) {
    || k == "clear" || k == "del" || k == "=" || k == "."
    || (|k| == 1 && (IsOperator(k[0]) || IsDigit(k[0])))
  }

  /** What every buffer reachable by keys satisfies. */
  ghost predicate Reachable(e: string) {
    WellFormed(e) && NoSpaces(e)
  }

  // ---------------------------------------------------------------------------
  // Evaluation of buffers

  /** Trailing operators are dropped before tokenizing, so "7+" evaluates like "7". */
  lemma {:induction false} TrailingOperatorIgnored(e: string, op: char)
    requires IsOperator(op)
    ensures Evaluate(e + [op]) == Evaluate(e)
  {
    assert (e + [op])[..|e|] == e;
  }

  /** Without spaces, evaluation does nothing exactly when the buffer holds operators only (or nothing). */
  lemma {:induction false} UnchangedExactly(e: string)
    requires NoSpaces(e)
    ensures Evaluate(e).Unchanged? <==> forall k | 0 <= k < |e| :: IsOperator(e[k])
  {
    var t := TrimOperators(e);
    assert NoSpaces(t) by {
      assert forall k | 0 <= k < |t| :: t[k] == e[k];
    }
    LexEmpty(t, true);
  }

  /** The scanner's output on a buffer without spaces or adjacent operators: number, operator, number, ... */
  ghost predicate LexChain(ls: seq<Lexeme>) {
    && |ls| % 2 == 1
    && forall k | 0 <= k < |ls| :: ls[k].NumberText? <==> k % 2 == 0
  }

  lemma {:induction false} SuffixReachable(s: string, m: nat)
    requires NoSpaces(s) && NoAdjacentOperators(s) && m <= |s|
    ensures NoSpaces(s[m..]) && NoAdjacentOperators(s[m..])
  {
    var t := s[m..];
    assert forall k | 0 <= k < |t| :: t[k] == s[m + k];
  }

  lemma {:induction false} ConsLexChain(n: Lexeme, o: Lexeme, tail: seq<Lexeme>)
    requires n.NumberText? && o.OperatorChar? && LexChain(tail)
    ensures LexChain([n] + ([o] + tail))
  {
    var ls := [n] + ([o] + tail);
    forall k | 2 <= k < |ls|
      ensures ls[k] == tail[k - 2]
    {
    }
  }

  /** The number lexeme at the start of a chain and what follows it. */
  lemma {:induction false} LeadingNumber(s: string) returns (t: string, rest: string)
    requires |s| > 0 && NoSpaces(s) && !IsOperator(s[|s| - 1])
    requires !IsOperator(s[0]) || s[0] == '-'
    ensures |rest| < |s| && rest == s[|s| - |rest|..]
    ensures rest == [] || IsOperator(rest[0])
    ensures LexFrom(s, true) == [NumberText(t)] + LexFrom(rest, false)
  {
    var body := if s[0] == '-' then s[1..] else s;
    assert NoSpaces(body) by {
      assert forall k | 0 <= k < |body| :: body[k] == s[k + |s| - |body|];
    }
    var d := OperandPrefix(body);
    rest := body[|d|..];
    assert body == d + rest;
    assert OperatorFree(d) && NoSpaces(d);
    if s[0] == '-' {
      assert s == ['-'] + (d + rest);
      LexSigned(d, rest);
      t := ['-'] + d;
    } else {
      assert d[0] == s[0];
      LexOperand(d, rest, true);
      t := d;
    }
  }

  /** After the number, an operator and then the rest of the chain, which again starts with a number. */
  lemma {:induction false} OperatorThenNumber(s: string, rest: string) returns (next: string)
    requires |s| > 0 && NoSpaces(s) && NoAdjacentOperators(s) && !IsOperator(s[|s| - 1])
    requires 0 < |rest| < |s| && rest == s[|s| - |rest|..] && IsOperator(rest[0])
    ensures |next| > 0 && NoSpaces(next) && NoAdjacentOperators(next) && !IsOperator(next[|next| - 1])
    ensures !IsOperator(next[0]) && |next| < |s|
    ensures LexFrom(rest, false) == [OperatorChar(rest[0])] + LexFrom(next, true)
  {
    var m := |s| - |rest|;
    assert rest[|rest| - 1] == s[|s| - 1];
    assert rest[0] == s[m];
    assert |rest| >= 2;
    assert rest[1] == s[m + 1];
    next := rest[1..];
    assert rest == [rest[0]] + next;
    LexOperator(rest[0], next, false);
    assert next == s[m + 1..];
    SuffixReachable(s, m + 1);
  }

  /** A buffer without spaces or adjacent operators that starts with a number and ends with one lexes as a chain. */
  lemma {:induction false} LexAlternates(s: string)
    requires |s| > 0 && NoSpaces(s) && NoAdjacentOperators(s) && !IsOperator(s[|s| - 1])
    requires !IsOperator(s[0]) || s[0] == '-'
    ensures LexChain(LexFrom(s, true))
    decreases |s|
  {
    var t, rest := LeadingNumber(s);
    if rest == [] {
      assert LexFrom(s, true) == [NumberText(t)];
    } else {
      var next := OperatorThenNumber(s, rest);
      LexAlternates(next);
      ConsLexChain(NumberText(t), OperatorChar(rest[0]), LexFrom(next, true));
    }
  }

  lemma {:induction false} TokensAlternate(s: string)
    requires |s| > 0 && NoSpaces(s) && NoAdjacentOperators(s) && !IsOperator(s[|s| - 1])
    requires !IsOperator(s[0]) || s[0] == '-'
    ensures Alternating(Tokenize(s))
  {
    LexAlternates(s);
    LexFollowsSignRule(s, true);
    var ls := Lex(s);
    var ts := Tokenize(s);
    forall k | 0 <= k < |ts|
      ensures (k % 2 == 0 ==> ts[k].Num?) && (k % 2 == 1 ==> ts[k].Op? && IsOperator(ts[k].symbol))
    {
      assert ts[k] == ToToken(ls[k]);
    }
    AlternatingByIndex(ts);
  }

  /**
    Evaluation of a reachable buffer that starts with a number: the error exit
    exactly when some '/' has a zero divisor, otherwise the value of the
    expression with the usual precedence, trailing operators ignored.
   */
  lemma {:induction false} EvaluateReachable(e: string)
    requires Reachable(e)
    requires TrimOperators(e) != []
    requires !IsOperator(e[0]) || e[0] == '-'
    ensures Alternating(Tokenize(TrimOperators(e)))
    ensures Evaluate(e) ==
      var ts := Tokenize(TrimOperators(e));
      if ZeroDivisor(ts) then Cleared else Finished(ExprValue(Parse(ts)))
  {
    var t := TrimOperators(e);
    WellFormedPrefix(e, |t|);
    assert NoSpaces(t) by {
      assert forall k | 0 <= k < |t| :: t[k] == e[k];
    }
    TokensAlternate(t);
    ReduceAlternating(Tokenize(t));
  }

  /** A buffer that opens with an operator other than '-' scans to that operator followed by an alternating list. */
  lemma {:induction false} LeadingOperatorTokens(t: string)
    requires |t| > 0 && NoSpaces(t) && NoAdjacentOperators(t) && !IsOperator(t[|t| - 1])
    requires IsOperator(t[0]) && t[0] != '-'
    ensures Tokenize(t) == [Op(t[0])] + Tokenize(t[1..])
    ensures Alternating(Tokenize(t[1..]))
  {
    var op := t[0];
    var rest := t[1..];
    assert |t| >= 2;
    SuffixReachable(t, 1);
    assert rest[0] == t[1] && rest[|rest| - 1] == t[|t| - 1];
    TokensAlternate(rest);
    assert t == [op] + rest;
    LexOperator(op, rest, true);
    TokensAppend([OperatorChar(op)], Lex(rest));
  }

  /**
    A reachable buffer that opens with '+', '*' or '/' (a leading '-' replaced
    by another operator). After that operator the tokens alternate. An opening
    '*' or '/' has no left operand, so the calculator clears. An opening '+'
    is read by the second pass as its first operand, which is not a number, so
    the result shows "Error" unless a zero divisor clears the calculator first.
   */
  lemma {:induction false} EvaluateLeadingOperator(e: string)
    requires Reachable(e)
    requires TrimOperators(e) != []
    requires IsOperator(e[0]) && e[0] != '-'
    ensures Tokenize(TrimOperators(e)) == [Op(e[0])] + Tokenize(TrimOperators(e)[1..])
    ensures Alternating(Tokenize(TrimOperators(e)[1..]))
    ensures IsMulDiv(e[0]) ==> Evaluate(e) == Cleared
    ensures e[0] == '+' ==>
      Evaluate(e) == if ZeroDivisor(Tokenize(TrimOperators(e))) then Cleared else Finished(None)
  {
    var t := TrimOperators(e);
    var op := e[0];
    assert t[0] == op;
    WellFormedPrefix(e, |t|);
    assert NoSpaces(t) by {
      assert forall k | 0 <= k < |t| :: t[k] == e[k];
    }
    LeadingOperatorTokens(t);
    var ts := Tokenize(t[1..]);
    if IsMulDiv(op) {
      OperandMissingClears([], op, ts);
      assert [] + ([Op(op)] + ts) == [Op(op)] + ts;
    } else {
      LeadingPlusReduce(ts);
      ZeroDivisorAfterOperator(op, ts);
    }
  }

  // ---------------------------------------------------------------------------
  // Sessions

  lemma {:induction false} NoSpacesAppend(a: string, b: string)
    requires NoSpaces(a) && NoSpaces(b)
    ensures NoSpaces(a + b)
  {
    assert forall k | 0 <= k < |a + b| :: (a + b)[k] == if k < |a| then a[k] else b[k - |a|];
  }

  lemma {:induction false} NoSpacesPrefix(a: string, n: nat)
    requires NoSpaces(a) && n <= |a|
    ensures NoSpaces(a[..n])
  {
    assert forall k | 0 <= k < n :: a[..n][k] == a[k];
  }

  lemma {:induction false} AppendDigitKeepsReachable(st: State, d: char)
    requires Reachable(st.expr) && IsDigit(d)
    ensures Reachable(AppendDigit(st, [d]).expr)
  {
    AppendDigitKeepsWellFormed(st, d);
    NoSpacesAppend(st.expr, [d]);
  }

  lemma {:induction false} AppendOperatorKeepsReachable(st: State, op: char)
    requires Reachable(st.expr) && IsOperator(op)
    ensures Reachable(AppendOperator(st, op).expr)
  {
    AppendOperatorKeepsWellFormed(st, op);
    var e := st.expr;
    if |e| > 0 {
      if IsOperator(Last(e)) {
        NoSpacesPrefix(e, |e| - 1);
        NoSpacesAppend(e[..|e| - 1], [op]);
      } else {
        NoSpacesAppend(e, [op]);
      }
    }
  }

  lemma {:induction false} AppendDecimalNoSpaces(st: State)
    requires NoSpaces(st.expr)
    ensures NoSpaces(AppendDecimal(st).expr)
  {
    var e := st.expr;
    if st.justEvaluated {
      assert NoSpaces("0.");
    } else if |e| == 0 || IsOperator(Last(e)) {
      NoSpacesAppend(e, "0.");
    } else if !HasDecimal(e) {
      NoSpacesAppend(e, ".");
    }
  }

  lemma {:induction false} AppendDecimalKeepsReachable(st: State)
    requires Reachable(st.expr)
    ensures Reachable(AppendDecimal(st).expr)
  {
    AppendDecimalKeepsWellFormed(st);
    AppendDecimalNoSpaces(st);
  }

  lemma {:induction false} DelKeepsReachable(st: State)
    requires Reachable(st.expr)
    ensures Reachable(Del(st).expr)
  {
    DelKeepsWellFormed(st);
    if |st.expr| > 0 {
      NoSpacesPrefix(st.expr, |st.expr| - 1);
    }
  }

  /** The text shown for a non-numeric result. */
  lemma {:induction false} ErrorReachable()
    ensures Reachable("Error")
  {
    var e := "Error";
    assert forall k | 0 <= k < |e| :: !IsOperator(e[k]) && e[k] != '.' && e[k] != ' ';
  }

  lemma {:induction false} ComputeKeepsReachable(st: State, render: real -> string)
    requires Reachable(st.expr)
    requires forall v :: Reachable(render(v))
    ensures Reachable(Compute(st, render).expr)
  {
    match Evaluate(st.expr)
    case Unchanged =>
    case Cleared =>
      assert Reachable(Initial.expr);
    case Finished(v) =>
      if v.Some? {
        var x := v.value;
        assert Reachable(render(x));
        assert Compute(st, render).expr == render(x);
      } else {
        ErrorReachable();
      }
  }

  /** Every key keeps the buffer reachable, provided that every rendered result is. */
  lemma {:induction false} HandleKeyKeepsReachable(st: State, k: string, render: real -> string)
    requires Reachable(st.expr) && IsKey(k)
    requires k == "=" ==> forall v :: Reachable(render(v))
    ensures Reachable(HandleKey(st, k, render).expr)
  {
    if k == "clear" {
    } else if k == "del" {
      DelKeepsReachable(st);
    } else if k == "=" {
      ComputeKeepsReachable(st, render);
    } else if k == "." {
      AppendDecimalKeepsReachable(st);
    } else if IsOperator(k[0]) {
      AppendOperatorKeepsReachable(st, k[0]);
    } else {
      assert k == [k[0]];
      AppendDigitKeepsReachable(st, k[0]);
    }
  }

  /**
    Over any session of keys, the buffer never holds two adjacent operators, a
    second point in one operand, or a space. Results of '=' are shown through
    `render`, so they must be reachable buffers too when '=' is pressed.
   */
  lemma {:induction false} RunKeepsReachable(st: State, keys: seq<string>, render: real -> string)
    requires Reachable(st.expr)
    requires forall i | 0 <= i < |keys| :: IsKey(keys[i])
    requires "=" in keys ==> forall v :: Reachable(render(v))
    ensures Reachable(Run(st, keys, render).expr)
    decreases |keys|
  {
    if |keys| > 0 {
      HandleKeyKeepsReachable(st, keys[0], render);
      assert forall i | 0 <= i < |keys| - 1 :: keys[1..][i] == keys[i + 1];
      assert "=" in keys[1..] ==> "=" in keys;
      RunKeepsReachable(HandleKey(st, keys[0], render), keys[1..], render);
    }
  }

  /** From a fresh calculator, keys other than '=' only ever produce reachable buffers. */
  lemma {:induction false} EditingKeepsReachable(keys: seq<string>, render: real -> string)
    requires forall i | 0 <= i < |keys| :: IsKey(keys[i]) && keys[i] != "="
    ensures Reachable(Run(Initial, keys, render).expr)
  {
    assert Reachable(Initial.expr);
    RunKeepsReachable(Initial, keys, render);
  }

  /** A key that is a single decimal digit. */
  predicate IsDigitKey(k: string) {
    |k| == 1 && IsDigit(k[0])
  }

  /** The keys written one after the other. */
  function Typed(keys: seq<string>): string {
    if |keys| == 0 then [] else keys[0] + Typed(keys[1..])
  }

  lemma {:induction false} DigitsConcat(a: string, b: string)
    requires AllDigits(a) && AllDigits(b)
    ensures AllDigits(a + b)
  {
    assert forall k | 0 <= k < |a + b| :: (a + b)[k] == if k < |a| then a[k] else b[k - |a|];
  }

  /**
    Outside an evaluation, digit keys append their digits in order: the buffer
    grows by exactly the typed digits and the flag stays clear.
   */
  lemma {:induction false} DigitKeysAppend(st: State, keys: seq<string>, render: real -> string)
    requires !st.justEvaluated
    requires forall i | 0 <= i < |keys| :: IsDigitKey(keys[i])
    ensures Run(st, keys, render) == State(st.expr + Typed(keys), false)
    ensures |Typed(keys)| == |keys| && AllDigits(Typed(keys))
    decreases |keys|
  {
    if |keys| == 0 {
      assert st.expr + [] == st.expr;
    } else {
      var k := keys[0];
      var next := State(st.expr + k, false);
      assert HandleKey(st, k, render) == next;
      assert forall i | 0 <= i < |keys| - 1 :: keys[1..][i] == keys[i + 1];
      DigitKeysAppend(next, keys[1..], render);
      assert (st.expr + k) + Typed(keys[1..]) == st.expr + Typed(keys);
      assert AllDigits(k);
      DigitsConcat(k, Typed(keys[1..]));
    }
  }

  /**
    Digit keys alone from a fresh calculator: the buffer is the digits in the
    order typed, and the current-entry display shows that whole buffer ("0"
    before any key).
   */
  method DigitSession(keys: seq<string>, render: real -> string) returns (st: State, entry: string)
    requires forall i | 0 <= i < |keys| :: IsDigitKey(keys[i])
    ensures st == Run(Initial, keys, render)
    ensures st == State(Typed(keys), false) && AllDigits(st.expr)
    ensures entry == if |keys| == 0 then "0" else st.expr
  {
    DigitKeysAppend(Initial, keys, render);
    assert Initial.expr + Typed(keys) == Typed(keys);
    st := Run(Initial, keys, render);
    assert OperatorFree(st.expr) by {
      assert forall k | 0 <= k < |st.expr| :: IsDigit(st.expr[k]);
    }
    entry := ExpForEntry(st.expr);
  }
}
