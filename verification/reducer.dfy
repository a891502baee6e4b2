/**
  The two passes of `compute` over the token list: the first pass folds every
  '*' and '/' into the number before it, the second applies '+' and '-' from
  left to right. A reference semantics (a left-associative grammar tree with
  the usual precedence) states what the two passes compute.
 */
module Reducer {
  import opened Chars
  import opened Numbers
  import opened Tokenizer

  /** What the first pass leaves: an error exit (the state is cleared) or the stack `md`. */
  datatype Pass = Fatal | Stack(md: seq<Token>)

  /** What evaluating a buffer does to the state. */
  datatype Outcome = Unchanged | Cleared | Finished(value: Option<real>)

  predicate IsMulDivToken(t: Token) {
    t.Op? && IsMulDiv(t.symbol)
  }

  /** No '*' or '/' token: the shape the second pass expects. */
  ghost predicate NoMulDiv(ts: seq<Token>) {
    forall k | 0 <= k < |ts| :: !IsMulDivToken(ts[k])
  }

  function Apply(op: char, a: Option<real>, b: Option<real>): Option<real> {
    if op == '*' then Times(a, b) else Over(a, b)
  }

  /**
    The first pass. At a '*' or '/' the top of the stack and the next token must
    both be numbers (NaN counts as a number) and a '/' must not meet a divisor
    that is exactly 0; otherwise the pass gives up. Every other token is pushed.
   */
  function MulDiv(ts: seq<Token>, md: seq<Token>): (r: Pass)
    ensures r.Stack? ==> |r.md| >= |md| && (|ts| > 0 ==> |r.md| > 0)
    ensures r.Stack? && NoMulDiv(md) ==> NoMulDiv(r.md)
    decreases |ts|
  {
    if |ts| == 0 then Stack(md)
    else if IsMulDivToken(ts[0]) then
      if |md| == 0 || !md[|md| - 1].Num? || |ts| < 2 || !ts[1].Num? then Fatal
      else if ts[0].symbol == '/' && ts[1].value == Some(0.0) then Fatal
      else MulDiv(ts[2..], md[..|md| - 1] + [Num(Apply(ts[0].symbol, md[|md| - 1].value, ts[1].value))])
    else
      MulDiv(ts[1..], md + [ts[0]])
  }

  /** A token read where the second pass expects a number: an operator there is not a number. */
  function Operand(t: Token): Option<real> {
    if t.Num? then t.value else None
  }

  /**
    The second pass, from the accumulated value `res` over the stack after its
    first entry: each step reads an operator and the entry after it (missing
    means NaN); '+' adds, '-' subtracts, anything else is stepped over.
   */
  function AddSubFrom(res: Option<real>, rest: seq<Token>): Option<real>
    decreases |rest|
  {
    if |rest| == 0 then res
    else
      var b := if |rest| > 1 then Operand(rest[1]) else None;
      var next := if rest[0] == Op('+') then Plus(res, b) else if rest[0] == Op('-') then Minus(res, b) else res;
      if |rest| <= 2 then next else AddSubFrom(next, rest[2..])
  }

  function AddSub(md: seq<Token>): Option<real>
    requires |md| > 0
  {
    AddSubFrom(Operand(md[0]), md[1..])
  }

  /** Both passes over a token list; an empty list leaves the state alone. */
  function Reduce(ts: seq<Token>): (r: Outcome)
    ensures r.Unchanged? <==> |ts| == 0
  {
    if |ts| == 0 then Unchanged
    else
      match MulDiv(ts, [])
      case Fatal => Cleared
      case Stack(md) => Finished(AddSub(md))
  }

  // ---------------------------------------------------------------------------
  // Reference semantics: expressions as left-associative grammar trees

  /** A product chain: a number, or a product chain times or over a number. */
  datatype Term = Factor(value: Option<real>) | Product(left: Term, op: char, right: Option<real>)

  /** A sum chain: a product chain, or a sum chain plus or minus a product chain. */
  datatype Expr = Single(term: Term) | Sum(left: Expr, op: char, right: Term)

  predicate ValidTerm(t: Term) {
    match t
    case Factor(_) => true
    case Product(l, op, _) => IsMulDiv(op) && ValidTerm(l)
  }

  predicate ValidExpr(e: Expr) {
    match e
    case Single(t) => ValidTerm(t)
    case Sum(l, op, t) => IsAddSub(op) && ValidExpr(l) && ValidTerm(t)
  }

  /** The tokens a product chain is written with: numbers at even positions, operators between. */
  function TermTokens(t: Term): (r: seq<Token>)
    ensures |r| % 2 == 1 && r[0].Num? && r[|r| - 1].Num?
  {
    match t
    case Factor(v) => [Num(v)]
    case Product(l, op, v) => TermTokens(l) + [Op(op), Num(v)]
  }

  function ExprTokens(e: Expr): (r: seq<Token>)
    ensures |r| % 2 == 1 && r[0].Num? && r[|r| - 1].Num?
  {
    match e
    case Single(t) => TermTokens(t)
    case Sum(l, op, t) => ExprTokens(l) + ([Op(op)] + TermTokens(t))
  }

  function TermValue(t: Term): Option<real> {
    match t
    case Factor(v) => v
    case Product(l, op, v) => Apply(op, TermValue(l), v)
  }

  function ExprValue(e: Expr): Option<real> {
    match e
    case Single(t) => TermValue(t)
    case Sum(l, op, t) => if op == '+' then Plus(ExprValue(l), TermValue(t)) else Minus(ExprValue(l), TermValue(t))
  }

  /** Some '/' in the chain has a divisor that is exactly 0. */
  predicate TermDividesByZero(t: Term) {
    match t
    case Factor(_) => false
    case Product(l, op, v) => TermDividesByZero(l) || (op == '/' && v == Some(0.0))
  }

  predicate ExprDividesByZero(e: Expr) {
    match e
    case Single(t) => TermDividesByZero(t)
    case Sum(l, _, t) => ExprDividesByZero(l) || TermDividesByZero(t)
  }

  /** The second-pass stack a sum chain leaves: one number per product chain. */
  function SumStack(e: Expr): (r: seq<Token>)
    ensures |r| % 2 == 1 && r[0].Num?
  {
    match e
    case Single(t) => [Num(TermValue(t))]
    case Sum(l, op, t) => SumStack(l) + [Op(op), Num(TermValue(t))]
  }

  // ---------------------------------------------------------------------------
  // The first pass agrees with the reference

  /** The first pass is a left-to-right fold: it can be split after any token that is not '*' or '/'. */
  lemma {:induction false} MulDivConcat(p: seq<Token>, q: seq<Token>, md: seq<Token>)
    requires p == [] || !IsMulDivToken(p[|p| - 1])
    ensures MulDiv(p + q, md) == match MulDiv(p, md) case Fatal => Fatal case Stack(m) => MulDiv(q, m)
    decreases |p|
  {
    if p == [] {
      assert p + q == q;
    } else if IsMulDivToken(p[0]) {
      assert (p + q)[0] == p[0] && (p + q)[1] == p[1];
      if !(|md| == 0 || !md[|md| - 1].Num? || !p[1].Num? || (p[0].symbol == '/' && p[1].value == Some(0.0))) {
        var m := md[..|md| - 1] + [Num(Apply(p[0].symbol, md[|md| - 1].value, p[1].value))];
        assert (p + q)[2..] == p[2..] + q;
        MulDivConcat(p[2..], q, m);
      }
    } else {
      assert (p + q)[0] == p[0];
      assert (p + q)[1..] == p[1..] + q;
      MulDivConcat(p[1..], q, md + [p[0]]);
    }
  }

  /** A product chain collapses onto the stack as its value, unless it divides by zero. */
  lemma {:induction false} MulDivTerm(t: Term, md: seq<Token>)
    requires ValidTerm(t)
    ensures MulDiv(TermTokens(t), md) == if TermDividesByZero(t) then Fatal else Stack(md + [Num(TermValue(t))])
  {
    match t
    case Factor(v) =>
    case Product(l, op, v) =>
      MulDivConcat(TermTokens(l), [Op(op), Num(v)], md);
      MulDivTerm(l, md);
      if !TermDividesByZero(l) {
        var m := md + [Num(TermValue(l))];
        assert m[..|m| - 1] == md;
      }
  }

  /** A sum chain leaves its second-pass stack on top of `md`, unless it divides by zero. */
  lemma {:induction false} MulDivExpr(e: Expr, md: seq<Token>)
    requires ValidExpr(e)
    ensures MulDiv(ExprTokens(e), md) == if ExprDividesByZero(e) then Fatal else Stack(md + SumStack(e))
  {
    match e
    case Single(t) =>
      MulDivTerm(t, md);
    case Sum(l, op, t) =>
      MulDivConcat(ExprTokens(l), [Op(op)] + TermTokens(t), md);
      MulDivExpr(l, md);
      if !ExprDividesByZero(l) {
        var m := md + SumStack(l);
        assert ([Op(op)] + TermTokens(t))[1..] == TermTokens(t);
        MulDivTerm(t, m + [Op(op)]);
        assert (m + [Op(op)]) + [Num(TermValue(t))] == md + SumStack(e);
      }
  }

  // ---------------------------------------------------------------------------
  // The second pass agrees with the reference

  /** One more operator/number pair at the end of an even-length tail is one more step of the fold. */
  lemma {:induction false} AddSubSnoc(res: Option<real>, p: seq<Token>, op: char, v: Option<real>)
    requires |p| % 2 == 0
    ensures AddSubFrom(res, p + [Op(op), Num(v)]) ==
      var acc := AddSubFrom(res, p);
      if op == '+' then Plus(acc, v) else if op == '-' then Minus(acc, v) else acc
    decreases |p|
  {
    if |p| > 0 {
      var b := Operand(p[1]);
      var next := if p[0] == Op('+') then Plus(res, b) else if p[0] == Op('-') then Minus(res, b) else res;
      assert (p + [Op(op), Num(v)])[2..] == p[2..] + [Op(op), Num(v)];
      AddSubSnoc(next, p[2..], op, v);
    }
  }

  lemma {:induction false} AddSubStack(e: Expr)
    requires ValidExpr(e)
    ensures AddSub(SumStack(e)) == ExprValue(e)
  {
    match e
    case Single(t) =>
    case Sum(l, op, t) =>
      AddSubStack(l);
      var s := SumStack(l);
      assert SumStack(e)[1..] == s[1..] + [Op(op), Num(TermValue(t))];
      AddSubSnoc(Operand(s[0]), s[1..], op, TermValue(t));
  }

  /** Precedence: the two passes compute the grammar tree's value, or clear on a zero divisor. */
  lemma {:induction false} ReduceMatchesGrammar(e: Expr)
    requires ValidExpr(e)
    ensures Reduce(ExprTokens(e)) == if ExprDividesByZero(e) then Cleared else Finished(ExprValue(e))
  {
    MulDivExpr(e, []);
    if !ExprDividesByZero(e) {
      assert [] + SumStack(e) == SumStack(e);
      AddSubStack(e);
    }
  }

  // ---------------------------------------------------------------------------
  // Every alternating token list is written by exactly one grammar tree

  /**
    A number, or an alternating list followed by an operator and a number:
    numbers at even positions, operators at odd positions.
   */
  predicate Alternating(ts: seq<Token>)
    decreases |ts|
  {
    if |ts| < 3 then |ts| == 1 && ts[0].Num?
    else Alternating(ts[..|ts| - 2]) && ts[|ts| - 2].Op? && IsOperator(ts[|ts| - 2].symbol) && ts[|ts| - 1].Num?
  }

  /** The alternation read position by position. */
  lemma {:induction false} AlternatingByIndex(ts: seq<Token>)
    requires |ts| % 2 == 1
    requires forall k | 0 <= k < |ts| ::
               (k % 2 == 0 ==> ts[k].Num?) && (k % 2 == 1 ==> ts[k].Op? && IsOperator(ts[k].symbol))
    ensures Alternating(ts)
    decreases |ts|
  {
    if |ts| >= 3 {
      var prefix := ts[..|ts| - 2];
      assert forall k | 0 <= k < |prefix| :: prefix[k] == ts[k];
      AlternatingByIndex(prefix);
    }
  }

  /** Some '/' is immediately followed by a divisor that is exactly 0. */
  ghost predicate ZeroDivisor(ts: seq<Token>) {
    exists k | 0 <= k < |ts| - 1 :: ts[k] == Op('/') && ts[k + 1] == Num(Some(0.0))
  }

  /** Reading one more operator and number: '*' and '/' bind to the last product chain. */
  function Extend(e: Expr, op: char, v: Option<real>): (r: Expr)
    requires ValidExpr(e) && IsOperator(op)
    ensures ValidExpr(r)
    ensures ExprTokens(r) == ExprTokens(e) + [Op(op), Num(v)]
  {
    if IsAddSub(op) then
      assert [Op(op)] + TermTokens(Factor(v)) == [Op(op), Num(v)];
      Sum(e, op, Factor(v))
    else
      match e
      case Single(t) => Single(Product(t, op, v))
      case Sum(l, o, t) =>
        assert ExprTokens(l) + ([Op(o)] + (TermTokens(t) + [Op(op), Num(v)])) ==
               (ExprTokens(l) + ([Op(o)] + TermTokens(t))) + [Op(op), Num(v)];
        Sum(l, o, Product(t, op, v))
  }

  /** The grammar tree of an alternating token list, built from the left. */
  function Parse(ts: seq<Token>): (e: Expr)
    requires Alternating(ts)
    ensures ValidExpr(e) && ExprTokens(e) == ts
    decreases |ts|
  {
    if |ts| == 1 then Single(Factor(ts[0].value))
    else
      var prefix := ts[..|ts| - 2];
      assert ts == prefix + [Op(ts[|ts| - 2].symbol), Num(ts[|ts| - 1].value)];
      Extend(Parse(prefix), ts[|ts| - 2].symbol, ts[|ts| - 1].value)
  }

  function TermSize(t: Term): nat {
    match t
    case Factor(_) => 1
    case Product(l, _, _) => 1 + TermSize(l)
  }

  function ExprSize(e: Expr): nat {
    match e
    case Single(t) => TermSize(t)
    case Sum(l, _, t) => ExprSize(l) + TermSize(t)
  }

  /** The grammar is unambiguous: parsing the tokens of a tree gives the tree back. */
  lemma {:induction false} ParseTokens(e: Expr)
    requires ValidExpr(e)
    ensures Alternating(ExprTokens(e))
    ensures Parse(ExprTokens(e)) == e
    decreases ExprSize(e)
  {
    match e
    case Single(Factor(v)) =>
    case Single(Product(t, op, v)) =>
      ParseTokens(Single(t));
      ParseExtended(Single(t), op, v, e);
    case Sum(l, o, Factor(v)) =>
      ParseTokens(l);
      ParseExtended(l, o, v, e);
    case Sum(l, o, Product(t, op, v)) =>
      ParseTokens(Sum(l, o, t));
      ParseExtended(Sum(l, o, t), op, v, e);
  }

  /** One `Extend` step of a tree that parses back keeps parsing back. */
  lemma {:induction false} ParseExtended(p: Expr, op: char, v: Option<real>, e: Expr)
    requires ValidExpr(p) && IsOperator(op)
    requires Alternating(ExprTokens(p)) && Parse(ExprTokens(p)) == p
    requires e == Extend(p, op, v)
    ensures Alternating(ExprTokens(e)) && Parse(ExprTokens(e)) == e
  {
    ParseLastPair(p, op, v);
  }

  /** Parsing a token list whose prefix parses back to `e` ends with one `Extend` of `e`. */
  lemma {:induction false} ParseLastPair(e: Expr, op: char, v: Option<real>)
    requires ValidExpr(e) && IsOperator(op)
    requires Alternating(ExprTokens(e)) && Parse(ExprTokens(e)) == e
    ensures Alternating(ExprTokens(e) + [Op(op), Num(v)])
    ensures Parse(ExprTokens(e) + [Op(op), Num(v)]) == Extend(e, op, v)
  {
    var ts := ExprTokens(e) + [Op(op), Num(v)];
    assert ts == ExprTokens(Extend(e, op, v));
    assert ts[..|ts| - 2] == ExprTokens(e);
  }

  // ---------------------------------------------------------------------------
  // Error exits of the first pass

  /** A '*' or '/' with no number on one side ends the first pass with the error exit. */
  lemma {:induction false} OperandMissingFails(p: seq<Token>, op: char, q: seq<Token>, md: seq<Token>)
    requires IsMulDiv(op)
    requires || (p == [] && (md == [] || md[|md| - 1].Op?))
             || (p != [] && p[|p| - 1].Op?)
             || q == [] || q[0].Op?
    ensures MulDiv(p + ([Op(op)] + q), md) == Fatal
    decreases |p|
  {
    var ts := p + ([Op(op)] + q);
    if p == [] {
      assert ts == [Op(op)] + q;
      if |q| > 0 {
        assert ts[1] == q[0];
      }
    } else if IsMulDivToken(p[0]) {
      assert ts[0] == p[0];
      if |p| == 1 {
        assert ts[1] == Op(op);
      } else {
        assert ts[1] == p[1];
        if !(|md| == 0 || !md[|md| - 1].Num? || !p[1].Num? || (p[0].symbol == '/' && p[1].value == Some(0.0))) {
          var m := md[..|md| - 1] + [Num(Apply(p[0].symbol, md[|md| - 1].value, p[1].value))];
          assert ts[2..] == p[2..] + ([Op(op)] + q);
          OperandMissingFails(p[2..], op, q, m);
        }
      }
    } else {
      assert ts[0] == p[0];
      assert ts[1..] == p[1..] + ([Op(op)] + q);
      OperandMissingFails(p[1..], op, q, md + [p[0]]);
    }
  }

  lemma {:induction false} OperandMissingClears(p: seq<Token>, op: char, q: seq<Token>)
    requires IsMulDiv(op)
    requires p == [] || p[|p| - 1].Op? || q == [] || q[0].Op?
    ensures Reduce(p + ([Op(op)] + q)) == Cleared
  {
    OperandMissingFails(p, op, q, []);
  }

  /** A '/' right before a number that is exactly 0 ends the first pass with the error exit, wherever it is. */
  lemma {:induction false} ZeroDivisorFails(p: seq<Token>, q: seq<Token>, md: seq<Token>)
    ensures MulDiv(p + ([Op('/'), Num(Some(0.0))] + q), md) == Fatal
    decreases |p|
  {
    var ts := p + ([Op('/'), Num(Some(0.0))] + q);
    if p == [] {
      assert ts[0] == Op('/') && ts[1] == Num(Some(0.0));
    } else if IsMulDivToken(p[0]) {
      assert ts[0] == p[0];
      if |p| == 1 {
        assert ts[1] == Op('/');
      } else {
        assert ts[1] == p[1];
        if !(|md| == 0 || !md[|md| - 1].Num? || !p[1].Num? || (p[0].symbol == '/' && p[1].value == Some(0.0))) {
          var m := md[..|md| - 1] + [Num(Apply(p[0].symbol, md[|md| - 1].value, p[1].value))];
          assert ts[2..] == p[2..] + ([Op('/'), Num(Some(0.0))] + q);
          ZeroDivisorFails(p[2..], q, m);
        }
      }
    } else {
      assert ts[0] == p[0];
      assert ts[1..] == p[1..] + ([Op('/'), Num(Some(0.0))] + q);
      ZeroDivisorFails(p[1..], q, md + [p[0]]);
    }
  }

  lemma {:induction false} ZeroDivisorClears(ts: seq<Token>)
    requires ZeroDivisor(ts)
    ensures Reduce(ts) == Cleared
  {
    var k :| 0 <= k < |ts| - 1 && ts[k] == Op('/') && ts[k + 1] == Num(Some(0.0));
    assert ts == ts[..k] + ([Op('/'), Num(Some(0.0))] + ts[k + 2..]);
    ZeroDivisorFails(ts[..k], ts[k + 2..], []);
  }

  lemma {:induction false} ZeroDivisorLeft(a: seq<Token>, b: seq<Token>)
    requires ZeroDivisor(a)
    ensures ZeroDivisor(a + b)
  {
    var k :| 0 <= k < |a| - 1 && a[k] == Op('/') && a[k + 1] == Num(Some(0.0));
    assert (a + b)[k] == a[k] && (a + b)[k + 1] == a[k + 1];
  }

  lemma {:induction false} ZeroDivisorRight(a: seq<Token>, b: seq<Token>)
    requires ZeroDivisor(b)
    ensures ZeroDivisor(a + b)
  {
    var k :| 0 <= k < |b| - 1 && b[k] == Op('/') && b[k + 1] == Num(Some(0.0));
    assert (a + b)[|a| + k] == b[k] && (a + b)[|a| + k + 1] == b[k + 1];
  }

  lemma {:induction false} TermZeroDivisor(t: Term)
    requires TermDividesByZero(t)
    ensures ZeroDivisor(TermTokens(t))
  {
    match t
    case Product(l, op, v) =>
      if TermDividesByZero(l) {
        TermZeroDivisor(l);
        ZeroDivisorLeft(TermTokens(l), [Op(op), Num(v)]);
      } else {
        var pair := [Op(op), Num(v)];
        assert pair[0] == Op('/') && pair[1] == Num(Some(0.0));
        ZeroDivisorRight(TermTokens(l), [Op(op), Num(v)]);
      }
  }

  lemma {:induction false} ExprZeroDivisor(e: Expr)
    requires ExprDividesByZero(e)
    ensures ZeroDivisor(ExprTokens(e))
  {
    match e
    case Single(t) =>
      TermZeroDivisor(t);
    case Sum(l, op, t) =>
      if ExprDividesByZero(l) {
        ExprZeroDivisor(l);
        ZeroDivisorLeft(ExprTokens(l), [Op(op)] + TermTokens(t));
      } else {
        TermZeroDivisor(t);
        ZeroDivisorRight([Op(op)], TermTokens(t));
        ZeroDivisorRight(ExprTokens(l), [Op(op)] + TermTokens(t));
      }
  }

  /** A tree divides by zero exactly when its tokens hold a '/' before a zero. */
  lemma {:induction false} DividesByZeroExactly(e: Expr)
    requires ValidExpr(e)
    ensures ExprDividesByZero(e) <==> ZeroDivisor(ExprTokens(e))
  {
    ReduceMatchesGrammar(e);
    if ExprDividesByZero(e) {
      ExprZeroDivisor(e);
    }
    if ZeroDivisor(ExprTokens(e)) {
      ZeroDivisorClears(ExprTokens(e));
    }
  }

  /**
    The evaluator on any alternating token list: the error exit exactly when
    some '/' meets a zero divisor, otherwise the value with '*' and '/' binding
    tighter than '+' and '-', all four left-associative.
   */
  lemma {:induction false} ReduceAlternating(ts: seq<Token>)
    requires Alternating(ts)
    ensures Reduce(ts) == if ZeroDivisor(ts) then Cleared else Finished(ExprValue(Parse(ts)))
  {
    ReduceMatchesGrammar(Parse(ts));
    DividesByZeroExactly(Parse(ts));
  }

  // ---------------------------------------------------------------------------
  // A list that opens with '+'

  /** Once the second pass's accumulator is not a number, it stays so. */
  lemma {:induction false} AddSubFromNone(rest: seq<Token>)
    ensures AddSubFrom(None, rest) == None
    decreases |rest|
  {
    if |rest| > 2 {
      AddSubFromNone(rest[2..]);
    }
  }

  /** An operator other than '/' in front adds no zero divisor and hides none. */
  lemma {:induction false} ZeroDivisorAfterOperator(op: char, ts: seq<Token>)
    requires op != '/'
    ensures ZeroDivisor([Op(op)] + ts) <==> ZeroDivisor(ts)
  {
    var s := [Op(op)] + ts;
    if ZeroDivisor(ts) {
      ZeroDivisorRight([Op(op)], ts);
    }
    if ZeroDivisor(s) {
      var k :| 0 <= k < |s| - 1 && s[k] == Op('/') && s[k + 1] == Num(Some(0.0));
      assert k > 0;
      assert ts[k - 1] == s[k] && ts[k] == s[k + 1];
    }
  }

  /**
    A '+' in front of an alternating list is pushed by the first pass and read
    by the second pass as its first operand, which is not a number: the result
    is not a number, unless a zero divisor takes the error exit first.
   */
  lemma {:induction false} LeadingPlusReduce(ts: seq<Token>)
    requires Alternating(ts)
    ensures Reduce([Op('+')] + ts) == if ZeroDivisor(ts) then Cleared else Finished(None)
  {
    var e := Parse(ts);
    var s := [Op('+')] + ts;
    assert s[0] == Op('+') && s[1..] == ts;
    assert MulDiv(s, []) == MulDiv(ts, [Op('+')]) by {
      assert [] + [s[0]] == [Op('+')];
    }
    MulDivExpr(e, [Op('+')]);
    DividesByZeroExactly(e);
    if !ZeroDivisor(ts) {
      var md := [Op('+')] + SumStack(e);
      assert md[0] == Op('+') && md[1..] == SumStack(e);
      AddSubFromNone(md[1..]);
      assert AddSub(md) == None;
    }
  }
}
