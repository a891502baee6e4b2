/**
  JavaScript numbers as the calculator uses them. A finite number is a `real`;
  `None` stands for NaN, the value `parseFloat` returns for a lexeme with no
  leading numeral and the value every arithmetic operation propagates.
 */
module Numbers {
  import opened Chars

  datatype Option<+T> = None | Some(value: T)

  function Plus(a: Option<real>, b: Option<real>): Option<real> {
    if a.Some? && b.Some? then Some(a.value + b.value) else None
  }

  function Minus(a: Option<real>, b: Option<real>): Option<real> {
    if a.Some? && b.Some? then Some(a.value - b.value) else None
  }

  function Times(a: Option<real>, b: Option<real>): Option<real> {
    if a.Some? && b.Some? then Some(a.value * b.value) else None
  }

  /** Division; a zero divisor gives a non-finite value, which is never finite, so it is None as well. */
  function Over(a: Option<real>, b: Option<real>): Option<real> {
    if a.Some? && b.Some? && b.value != 0.0 then Some(a.value / b.value) else None
  }

  function Negate(a: Option<real>): Option<real> {
    if a.Some? then Some(-a.value) else None
  }

  /** The longest prefix of `s` made of decimal digits. */
  function DigitPrefix(s: string): (r: string)
    ensures |r| <= |s| && r == s[..|r|]
    ensures AllDigits(r)
    ensures |r| == |s| || !IsDigit(s[|r|])
  {
    if |s| > 0 && IsDigit(s[0]) then [s[0]] + DigitPrefix(s[1..]) else []
  }

  function DigitValue(c: char): nat
    requires IsDigit(c)
  {
    c as int - '0' as int
  }

  /** The natural number a string of decimal digits denotes (0 for the empty string). */
  function NumeralValue(ds: string): nat
    requires AllDigits(ds)
  {
    if |ds| == 0 then 0 else 10 * NumeralValue(ds[..|ds| - 1]) + DigitValue(ds[|ds| - 1])
  }

  function Pow10(n: nat): (r: nat)
    ensures r >= 1
  {
    if n == 0 then 1 else 10 * Pow10(n - 1)
  }

  /**
    `parseFloat` on the lexemes the tokenizer produces: an optional '-', a run of
    digits, an optional '.' followed by a run of digits; whatever follows is
    ignored, and with no digit at all the result is NaN.
   */
  function ParseNumber(t: string): Option<real> {
    if |t| > 0 && t[0] == '-' then Negate(ParseUnsigned(t[1..])) else ParseUnsigned(t)
  }

  /** `parseFloat` on a lexeme without a sign. */
  function ParseUnsigned(body: string): Option<real> {
    var whole := DigitPrefix(body);
    Assemble(whole, FractionAfter(body[|whole|..]))
  }

  /** The digits of the fractional part, when `rest` (what follows the integer digits) opens with '.'. */
  function FractionAfter(rest: string): (fraction: string)
    ensures AllDigits(fraction)
  {
    if |rest| > 0 && rest[0] == '.' then DigitPrefix(rest[1..]) else []
  }

  /** The number with integer digits `whole` and fractional digits `fraction`; NaN with no digit at all. */
  function Assemble(whole: string, fraction: string): Option<real>
    requires AllDigits(whole) && AllDigits(fraction)
  {
    if |whole| + |fraction| == 0 then None else Some(DecimalValue(whole, fraction))
  }

  /** The value of the numeral `whole.fraction`. */
  function DecimalValue(whole: string, fraction: string): real
    requires AllDigits(whole) && AllDigits(fraction)
  {
    NumeralValue(whole) as real + NumeralValue(fraction) as real / Pow10(|fraction|) as real
  }

  /** True when `body` begins with a numeral: a digit, or a '.' followed by a digit. */
  predicate StartsNumeral(body: string) {
    (|body| > 0 && IsDigit(body[0])) || (|body| > 1 && body[0] == '.' && IsDigit(body[1]))
  }

  function DigitChar(d: nat): (c: char)
    requires d < 10
  {
    ('0' as int + d) as char
  }

  /** The canonical decimal numeral of a natural number (no leading zeros). */
  function Numeral(n: nat): (s: string)
    ensures |s| > 0 && AllDigits(s)
    ensures n >= 10 ==> s[0] != '0'
  {
    if n < 10 then [DigitChar(n)] else Numeral(n / 10) + [DigitChar(n % 10)]
  }

  /** Parsing a lexeme fails exactly when, after the optional sign, no numeral starts. */
  lemma {:induction false} ParseFailsExactly(t: string)
    ensures ParseNumber(t).None? <==> !StartsNumeral(if |t| > 0 && t[0] == '-' then t[1..] else t)
  {
  }

  /** A leading '-' negates the value of the rest of the lexeme. */
  lemma {:induction false} ParseNegative(t: string)
    requires |t| == 0 || t[0] != '-'
    ensures ParseNumber(['-'] + t) == Negate(ParseNumber(t))
  {
    assert (['-'] + t)[1..] == t;
  }

  lemma {:induction false} DigitPrefixOfDigits(w: string, x: string)
    requires AllDigits(w)
    ensures DigitPrefix(w + x) == w + DigitPrefix(x)
  {
    if |w| > 0 {
      assert (w + x)[1..] == w[1..] + x;
      DigitPrefixOfDigits(w[1..], x);
      assert [w[0]] + (w[1..] + DigitPrefix(x)) == w + DigitPrefix(x);
    } else {
      assert w + x == x;
    }
  }

  lemma {:induction false} NumeralValueOfNumeral(n: nat)
    ensures NumeralValue(Numeral(n)) == n
  {
    if n >= 10 {
      var s := Numeral(n);
      assert s[..|s| - 1] == Numeral(n / 10);
      NumeralValueOfNumeral(n / 10);
    }
  }

  /** Parsing inverts printing: the numeral of n parses back to n. */
  lemma {:induction false} ParseNumeral(n: nat)
    ensures ParseNumber(Numeral(n)) == Some(n as real)
  {
    var s := Numeral(n);
    DigitPrefixOfDigits(s, []);
    assert s + [] == s;
    NumeralValueOfNumeral(n);
  }

  lemma {:induction false} UnsignedOfParts(whole: string, fraction: string, tail: string)
    requires AllDigits(whole) && AllDigits(fraction)
    requires |tail| == 0 || !IsDigit(tail[0])
    ensures ParseUnsigned(whole + ("." + (fraction + tail))) == Assemble(whole, fraction)
  {
    var body := whole + ("." + (fraction + tail));
    DigitPrefixOfDigits(whole, "." + (fraction + tail));
    assert DigitPrefix("." + (fraction + tail)) == [];
    assert body[|whole|..] == "." + (fraction + tail);
    assert ("." + (fraction + tail))[1..] == fraction + tail;
    DigitPrefixOfDigits(fraction, tail);
    assert DigitPrefix(tail) == [];
    assert fraction + [] == fraction;
    assert FractionAfter(body[|whole|..]) == fraction;
  }

  lemma {:induction false} ParseOfParts(whole: string, fraction: string, tail: string)
    requires AllDigits(whole) && AllDigits(fraction)
    requires |tail| == 0 || !IsDigit(tail[0])
    ensures ParseNumber(whole + ("." + (fraction + tail))) == Assemble(whole, fraction)
  {
    var t := whole + ("." + (fraction + tail));
    UnsignedOfParts(whole, fraction, tail);
    assert t[0] == if |whole| > 0 then whole[0] else '.';
  }

  /**
    `parseFloat` reads the longest numeral prefix only: anything after a complete
    `whole.fraction` numeral that does not continue its digits is ignored, so
    "1.2.3" reads as 1.2.
   */
  lemma {:induction false} ParseIgnoresTail(whole: string, fraction: string, tail: string)
    requires AllDigits(whole) && AllDigits(fraction)
    requires |tail| == 0 || !IsDigit(tail[0])
    ensures ParseNumber(whole + ("." + (fraction + tail))) == ParseNumber(whole + ("." + fraction))
  {
    ParseOfParts(whole, fraction, tail);
    ParseOfParts(whole, fraction, []);
    assert fraction + [] == fraction;
  }
}
