/**
  The front of `compute`: stripping trailing operators, then `tokenize`, a
  left-to-right scanner that splits the text into numeric lexemes and
  operator symbols, reading a '-' as a sign when it opens the expression or
  follows an operator.
 */
module Tokenizer {
  import opened Chars
  import opened Numbers

  /** What `tokenize` pushes: a parsed number (possibly NaN) or an operator symbol. */
  datatype Token = Num(value: Option<real>) | Op(symbol: char)

  /** A token before parsing: the text handed to `parseFloat`, or an operator symbol. */
  datatype Lexeme = NumberText(text: string) | OperatorChar(symbol: char)

  /**
    `compute`'s first step: remove every trailing operator. The result is the
    longest prefix that does not end in an operator and leaves only operators
    behind it.
   */
  function TrimOperators(s: string): (r: string)
    ensures |r| <= |s| && r == s[..|r|]
    ensures r == [] || !IsOperator(r[|r| - 1])
    ensures forall k | |r| <= k < |s| :: IsOperator(s[k])
  {
    if |s| > 0 && IsOperator(s[|s| - 1]) then TrimOperators(s[..|s| - 1]) else s
  }

  /** The longest prefix holding neither an operator nor a space: what the inner loops collect. */
  function OperandPrefix(s: string): (r: string)
    ensures |r| <= |s| && r == s[..|r|]
    ensures forall k | 0 <= k < |r| :: !IsOperator(r[k]) && r[k] != ' '
    ensures |r| == |s| || IsOperator(s[|r|]) || s[|r|] == ' '
  {
    if |s| > 0 && !IsOperator(s[0]) && s[0] != ' ' then [s[0]] + OperandPrefix(s[1..]) else []
  }

  /**
    The scanner. `signAllowed` holds when no token has been produced yet or the
    last one is an operator: only then does a '-' start a negative number.
    Spaces are skipped and do not change `signAllowed`. Every step consumes at
    least one character, which is the termination argument.
   */
  function LexFrom(s: string, signAllowed: bool): seq<Lexeme>
    decreases |s|
  {
    if |s| == 0 then []
    else if s[0] == ' ' then LexFrom(s[1..], signAllowed)
    else if IsOperator(s[0]) then
      if s[0] == '-' && signAllowed then
        var digits := OperandPrefix(s[1..]);
        [NumberText(['-'] + digits)] + LexFrom(s[1 + |digits|..], false)
      else
        [OperatorChar(s[0])] + LexFrom(s[1..], true)
    else
      var digits := OperandPrefix(s);
      [NumberText(digits)] + LexFrom(s[|digits|..], false)
  }

  function Lex(s: string): seq<Lexeme> {
    LexFrom(s, true)
  }

  function ToToken(l: Lexeme): Token {
    match l
    case NumberText(t) => Num(ParseNumber(t))
    case OperatorChar(c) => Op(c)
  }

  /** Each lexeme turned into the token `tokenize` pushes for it, in order. */
  function Tokens(ls: seq<Lexeme>): (ts: seq<Token>)
    ensures |ts| == |ls|
    ensures forall k | 0 <= k < |ls| :: ts[k] == ToToken(ls[k])
  {
    if |ls| == 0 then [] else [ToToken(ls[0])] + Tokens(ls[1..])
  }

  /** `tokenize`: the lexemes with every numeric text parsed by `parseFloat`. */
  function Tokenize(s: string): seq<Token> {
    Tokens(Lex(s))
  }

  // ---------------------------------------------------------------------------
  // What the scanner guarantees

  /** The characters the lexemes spell, in order. */
  function Spelling(ls: seq<Lexeme>): string {
    if |ls| == 0 then []
    else
      (match ls[0] case NumberText(t) => t case OperatorChar(c) => [c]) + Spelling(ls[1..])
  }

  function WithoutSpaces(s: string): string {
    if |s| == 0 then [] else (if s[0] == ' ' then [] else [s[0]]) + WithoutSpaces(s[1..])
  }

  lemma {:induction false} SpellingAppend(a: seq<Lexeme>, b: seq<Lexeme>)
    ensures Spelling(a + b) == Spelling(a) + Spelling(b)
  {
    if |a| > 0 {
      assert (a + b)[1..] == a[1..] + b;
      SpellingAppend(a[1..], b);
    } else {
      assert a + b == b;
    }
  }

  lemma {:induction false} WithoutSpacesOfOperand(digits: string, rest: string)
    requires forall k | 0 <= k < |digits| :: digits[k] != ' '
    ensures WithoutSpaces(digits + rest) == digits + WithoutSpaces(rest)
  {
    if |digits| > 0 {
      assert (digits + rest)[1..] == digits[1..] + rest;
      WithoutSpacesOfOperand(digits[1..], rest);
    } else {
      assert digits + rest == rest;
    }
  }

  /** Nothing is lost or reordered: the lexemes spell the input without its spaces. */
  lemma {:induction false} LexSpellsInput(s: string, signAllowed: bool)
    ensures Spelling(LexFrom(s, signAllowed)) == WithoutSpaces(s)
    decreases |s|
  {
    if |s| == 0 {
    } else if s[0] == ' ' {
      LexSpellsInput(s[1..], signAllowed);
      assert LexFrom(s, signAllowed) == LexFrom(s[1..], signAllowed);
      assert WithoutSpaces(s) == WithoutSpaces(s[1..]);
    } else if IsOperator(s[0]) {
      if s[0] == '-' && signAllowed {
        var digits := OperandPrefix(s[1..]);
        LexSpellsInput(s[1 + |digits|..], false);
        SignedNumberSpelling(s, digits);
      } else {
        LexSpellsInput(s[1..], true);
        OperatorSpelling(s, signAllowed);
      }
    } else {
      var digits := OperandPrefix(s);
      LexSpellsInput(s[|digits|..], false);
      PlainNumberSpelling(s, digits, signAllowed);
    }
  }

  lemma {:induction false} SpellingOfNumber(t: string, tail: seq<Lexeme>)
    ensures Spelling([NumberText(t)] + tail) == t + Spelling(tail)
  {
    SpellingAppend([NumberText(t)], tail);
    assert [NumberText(t)][1..] == [];
  }

  lemma {:induction false} SignedNumberSpelling(s: string, digits: string)
    requires |s| > 0 && s[0] == '-'
    requires digits == OperandPrefix(s[1..])
    requires Spelling(LexFrom(s[1 + |digits|..], false)) == WithoutSpaces(s[1 + |digits|..])
    ensures Spelling(LexFrom(s, true)) == WithoutSpaces(s)
  {
    SignedNumberLexemes(s, digits);
    SignedNumberText(s, digits);
  }

  lemma {:induction false} SignedNumberLexemes(s: string, digits: string)
    requires |s| > 0 && s[0] == '-'
    requires digits == OperandPrefix(s[1..])
    ensures Spelling(LexFrom(s, true)) == ['-'] + (digits + Spelling(LexFrom(s[1 + |digits|..], false)))
  {
    var tail := LexFrom(s[1 + |digits|..], false);
    LexSignStep(s, digits);
    SpellingOfSigned(digits, tail);
  }

  lemma {:induction false} SpellingOfSigned(digits: string, tail: seq<Lexeme>)
    ensures Spelling([NumberText(['-'] + digits)] + tail) == ['-'] + (digits + Spelling(tail))
  {
    SpellingOfNumber(['-'] + digits, tail);
  }

  /** Where a sign is allowed, a leading '-' and the operand after it are one lexeme. */
  lemma {:induction false} LexSignStep(s: string, digits: string)
    requires |s| > 0 && s[0] == '-'
    requires digits == OperandPrefix(s[1..])
    ensures LexFrom(s, true) == [NumberText(['-'] + digits)] + LexFrom(s[1 + |digits|..], false)
  {
  }

  lemma {:induction false} SignedNumberText(s: string, digits: string)
    requires |s| > 0 && s[0] == '-'
    requires digits == OperandPrefix(s[1..])
    ensures WithoutSpaces(s) == ['-'] + (digits + WithoutSpaces(s[1 + |digits|..]))
  {
    var rest := s[1 + |digits|..];
    assert s[1..] == digits + rest;
    WithoutSpacesOfOperand(digits, rest);
    assert WithoutSpaces(s) == ['-'] + WithoutSpaces(s[1..]);
  }

  lemma {:induction false} OperatorSpelling(s: string, signAllowed: bool)
    requires |s| > 0 && IsOperator(s[0]) && !(s[0] == '-' && signAllowed)
    requires Spelling(LexFrom(s[1..], true)) == WithoutSpaces(s[1..])
    ensures Spelling(LexFrom(s, signAllowed)) == WithoutSpaces(s)
  {
    var tail := LexFrom(s[1..], true);
    assert LexFrom(s, signAllowed) == [OperatorChar(s[0])] + tail;
    SpellingAppend([OperatorChar(s[0])], tail);
    assert [OperatorChar(s[0])][1..] == [];
    assert WithoutSpaces(s) == [s[0]] + WithoutSpaces(s[1..]);
  }

  lemma {:induction false} PlainNumberSpelling(s: string, digits: string, signAllowed: bool)
    requires |s| > 0 && s[0] != ' ' && !IsOperator(s[0])
    requires digits == OperandPrefix(s)
    requires Spelling(LexFrom(s[|digits|..], false)) == WithoutSpaces(s[|digits|..])
    ensures Spelling(LexFrom(s, signAllowed)) == WithoutSpaces(s)
  {
    var rest := s[|digits|..];
    var tail := LexFrom(rest, false);
    assert Spelling(LexFrom(s, signAllowed)) == digits + Spelling(tail) by {
      assert LexFrom(s, signAllowed) == [NumberText(digits)] + tail;
      SpellingOfNumber(digits, tail);
    }
    assert WithoutSpaces(s) == digits + WithoutSpaces(rest) by {
      assert s == digits + rest;
      WithoutSpacesOfOperand(digits, rest);
    }
  }

  /** A numeric lexeme: non-empty, no space, and no operator except a leading '-'. */
  predicate NumberShaped(t: string) {
    && |t| > 0
    && t[0] != ' '
    && (IsOperator(t[0]) ==> t[0] == '-')
    && forall k | 0 < k < |t| :: !IsOperator(t[k]) && t[k] != ' '
  }

  /**
    The sign rule. An operator lexeme '-' always follows a number, and a numeric
    lexeme that begins with '-' always opens the expression or follows an
    operator; `signAllowed` says what precedes the first lexeme.
   */
  ghost predicate SignRule(ls: seq<Lexeme>, signAllowed: bool) {
    && (forall k | 0 <= k < |ls| && ls[k] == OperatorChar('-') ::
          (k == 0 ==> !signAllowed) && (k > 0 ==> ls[k - 1].NumberText?))
    && (forall k | 0 <= k < |ls| && ls[k].NumberText? && |ls[k].text| > 0 && ls[k].text[0] == '-' ::
          (k == 0 ==> signAllowed) && (k > 0 ==> ls[k - 1].OperatorChar?))
  }

  ghost predicate WellShaped(ls: seq<Lexeme>) {
    forall k | 0 <= k < |ls| ::
      match ls[k]
      case NumberText(t) => NumberShaped(t)
      case OperatorChar(c) => IsOperator(c)
  }

  /** Putting one lexeme in front of a well-shaped tail that obeys the sign rule. */
  lemma {:induction false} ConsSignRule(head: Lexeme, tail: seq<Lexeme>, signAllowed: bool, next: bool)
    requires WellShaped(tail) && SignRule(tail, next)
    requires head.NumberText? ==> NumberShaped(head.text)
    requires head.OperatorChar? ==> IsOperator(head.symbol)
    requires next == head.OperatorChar?
    requires head == OperatorChar('-') ==> !signAllowed
    requires head.NumberText? && head.text[0] == '-' ==> signAllowed
    ensures WellShaped([head] + tail) && SignRule([head] + tail, signAllowed)
  {
    var ls := [head] + tail;
    forall k | 0 < k < |ls|
      ensures ls[k] == tail[k - 1]
    {
    }
    forall k | 0 <= k < |ls| && ls[k] == OperatorChar('-')
      ensures (k == 0 ==> !signAllowed) && (k > 0 ==> ls[k - 1].NumberText?)
    {
      if k == 1 {
        assert ls[0] == head && tail[0] == OperatorChar('-');
      } else if k > 1 {
        assert tail[k - 1] == OperatorChar('-');
      }
    }
    forall k | 0 <= k < |ls| && ls[k].NumberText? && |ls[k].text| > 0 && ls[k].text[0] == '-'
      ensures (k == 0 ==> signAllowed) && (k > 0 ==> ls[k - 1].OperatorChar?)
    {
      if k == 1 {
        assert ls[0] == head && ls[1] == tail[0];
      } else if k > 1 {
        assert ls[k] == tail[k - 1];
      }
    }
  }

  lemma {:induction false} LexFollowsSignRule(s: string, signAllowed: bool)
    ensures WellShaped(LexFrom(s, signAllowed))
    ensures SignRule(LexFrom(s, signAllowed), signAllowed)
    decreases |s|
  {
    if |s| == 0 {
    } else if s[0] == ' ' {
      LexFollowsSignRule(s[1..], signAllowed);
      assert LexFrom(s, signAllowed) == LexFrom(s[1..], signAllowed);
    } else if IsOperator(s[0]) {
      if s[0] == '-' && signAllowed {
        var digits := OperandPrefix(s[1..]);
        var rest := s[1 + |digits|..];
        LexFollowsSignRule(rest, false);
        assert LexFrom(s, signAllowed) == [NumberText(['-'] + digits)] + LexFrom(rest, false);
        assert NumberShaped(['-'] + digits);
        ConsSignRule(NumberText(['-'] + digits), LexFrom(rest, false), signAllowed, false);
      } else {
        LexFollowsSignRule(s[1..], true);
        assert LexFrom(s, signAllowed) == [OperatorChar(s[0])] + LexFrom(s[1..], true);
        ConsSignRule(OperatorChar(s[0]), LexFrom(s[1..], true), signAllowed, true);
      }
    } else {
      var digits := OperandPrefix(s);
      var rest := s[|digits|..];
      LexFollowsSignRule(rest, false);
      assert LexFrom(s, signAllowed) == [NumberText(digits)] + LexFrom(rest, false);
      assert digits[0] == s[0];
      assert NumberShaped(digits);
      ConsSignRule(NumberText(digits), LexFrom(rest, false), signAllowed, false);
    }
  }

  // ---------------------------------------------------------------------------
  // One scanner step at a time

  /** An operand run followed by an operator (or nothing) is collected whole. */
  lemma {:induction false} OperandPrefixOfRun(d: string, rest: string)
    requires OperatorFree(d) && NoSpaces(d)
    requires rest == [] || IsOperator(rest[0])
    ensures OperandPrefix(d + rest) == d
  {
    if |d| > 0 {
      assert (d + rest)[0] == d[0];
      assert (d + rest)[1..] == d[1..] + rest;
      OperandPrefixOfRun(d[1..], rest);
    } else {
      assert d + rest == rest;
    }
  }

  /** A number that does not start with an operator is one lexeme, and no sign may follow it. */
  lemma {:induction false} LexOperand(d: string, rest: string, signAllowed: bool)
    requires |d| > 0 && OperatorFree(d) && NoSpaces(d)
    requires rest == [] || IsOperator(rest[0])
    ensures LexFrom(d + rest, signAllowed) == [NumberText(d)] + LexFrom(rest, false)
  {
    OperandPrefixOfRun(d, rest);
    assert (d + rest)[0] == d[0];
    assert (d + rest)[|d|..] == rest;
  }

  /** A '-' where a sign is allowed starts a negative number made of the run after it. */
  lemma {:induction false} LexSigned(d: string, rest: string)
    requires OperatorFree(d) && NoSpaces(d)
    requires rest == [] || IsOperator(rest[0])
    ensures LexFrom(['-'] + (d + rest), true) == [NumberText(['-'] + d)] + LexFrom(rest, false)
  {
    OperandPrefixOfRun(d, rest);
    var s := ['-'] + (d + rest);
    assert s[1..] == d + rest;
    assert s[1 + |d|..] == rest;
  }

  /** An operator that is not read as a sign is an operator lexeme, and a sign may follow it. */
  lemma {:induction false} LexOperator(op: char, rest: string, signAllowed: bool)
    requires IsOperator(op) && !(op == '-' && signAllowed)
    ensures LexFrom([op] + rest, signAllowed) == [OperatorChar(op)] + LexFrom(rest, true)
  {
    assert ([op] + rest)[1..] == rest;
  }

  /** Without spaces, the scanner produces no lexeme exactly when there is no text. */
  lemma {:induction false} LexEmpty(s: string, signAllowed: bool)
    requires NoSpaces(s)
    ensures |LexFrom(s, signAllowed)| == 0 <==> |s| == 0
  {
  }

  // ---------------------------------------------------------------------------
  // Writing a chain of operands and reading it back

  /** An operand as a number key sequence writes it: no operator, no space, and not empty. */
  ghost predicate PlainOperand(d: string) {
    |d| > 0 && OperatorFree(d) && NoSpaces(d)
  }

  /** An operand that may carry a leading '-' sign. */
  ghost predicate SignedOperand(d: string) {
    PlainOperand(d) || (|d| > 1 && d[0] == '-' && PlainOperand(d[1..]))
  }

  /** The text of operator/operand pairs written one after the other. */
  function ChainText(pairs: seq<(char, string)>): string {
    if |pairs| == 0 then [] else [pairs[0].0] + (pairs[0].1 + ChainText(pairs[1..]))
  }

  /** The lexemes such a text should scan to: each operator, then its operand. */
  function ChainLexemes(pairs: seq<(char, string)>): seq<Lexeme> {
    if |pairs| == 0 then [] else [OperatorChar(pairs[0].0), NumberText(pairs[0].1)] + ChainLexemes(pairs[1..])
  }

  /** The tokens of the pairs: each operator, then its operand parsed. */
  function ChainTokens(pairs: seq<(char, string)>): seq<Token> {
    if |pairs| == 0 then [] else [Op(pairs[0].0), Num(ParseNumber(pairs[0].1))] + ChainTokens(pairs[1..])
  }

  /** A signed or plain operand followed by nothing or by an operator is one lexeme. */
  lemma {:induction false} LexSignedOperand(d: string, rest: string)
    requires SignedOperand(d)
    requires rest == [] || IsOperator(rest[0])
    ensures LexFrom(d + rest, true) == [NumberText(d)] + LexFrom(rest, false)
  {
    if PlainOperand(d) {
      LexOperand(d, rest, true);
    } else {
      assert d == ['-'] + d[1..];
      assert d + rest == ['-'] + (d[1..] + rest);
      LexSigned(d[1..], rest);
    }
  }

  /** Scanning inverts writing: the text of the pairs scans to the pairs' lexemes. */
  lemma {:induction false} LexChainText(pairs: seq<(char, string)>)
    requires forall i | 0 <= i < |pairs| :: IsOperator(pairs[i].0) && SignedOperand(pairs[i].1)
    ensures LexFrom(ChainText(pairs), false) == ChainLexemes(pairs)
  {
    if |pairs| > 0 {
      var (op, d) := pairs[0];
      var tail := ChainText(pairs[1..]);
      assert tail == [] || IsOperator(tail[0]);
      LexChainText(pairs[1..]);
      LexSignedOperand(d, tail);
      LexOperator(op, d + tail, false);
    }
  }

  /** A whole expression: a first operand, then operator/operand pairs. */
  lemma {:induction false} LexExpression(first: string, pairs: seq<(char, string)>)
    requires SignedOperand(first)
    requires forall i | 0 <= i < |pairs| :: IsOperator(pairs[i].0) && SignedOperand(pairs[i].1)
    ensures Lex(first + ChainText(pairs)) == [NumberText(first)] + ChainLexemes(pairs)
  {
    var tail := ChainText(pairs);
    assert tail == [] || IsOperator(tail[0]);
    LexSignedOperand(first, tail);
    LexChainText(pairs);
  }

  lemma {:induction false} TokensAppend(a: seq<Lexeme>, b: seq<Lexeme>)
    ensures Tokens(a + b) == Tokens(a) + Tokens(b)
  {
    if |a| > 0 {
      assert (a + b)[1..] == a[1..] + b;
      TokensAppend(a[1..], b);
    } else {
      assert a + b == b;
    }
  }

  lemma {:induction false} TokensOfChain(pairs: seq<(char, string)>)
    ensures Tokens(ChainLexemes(pairs)) == ChainTokens(pairs)
  {
    if |pairs| > 0 {
      var head := [OperatorChar(pairs[0].0), NumberText(pairs[0].1)];
      TokensAppend(head, ChainLexemes(pairs[1..]));
      TokensOfChain(pairs[1..]);
    }
  }

  /** Converting the lexemes of a written expression gives its first operand parsed, then the pairs' tokens. */
  lemma {:induction false} TokensOfExpression(first: string, pairs: seq<(char, string)>)
    ensures Tokens([NumberText(first)] + ChainLexemes(pairs)) == [Num(ParseNumber(first))] + ChainTokens(pairs)
  {
    TokensAppend([NumberText(first)], ChainLexemes(pairs));
    TokensOfChain(pairs);
  }

  /** Tokenizing a written expression parses each operand and keeps each operator. */
  lemma {:induction false} TokenizeExpression(first: string, pairs: seq<(char, string)>)
    requires SignedOperand(first)
    requires forall i | 0 <= i < |pairs| :: IsOperator(pairs[i].0) && SignedOperand(pairs[i].1)
    ensures Tokenize(first + ChainText(pairs)) == [Num(ParseNumber(first))] + ChainTokens(pairs)
  {
    LexExpression(first, pairs);
    TokensOfExpression(first, pairs);
  }
}
