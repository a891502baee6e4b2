/** Character classes of the calculator's expression buffer. */
module Chars {

  /** The four operator keys; the only characters that end an operand (react-app.jsx line 7). */
  predicate IsOperator(c: char) {
    c == '+' || c == '-' || c == '*' || c == '/'
  }

  /** The operators reduced by the first evaluation pass. */
  predicate IsMulDiv(c: char) {
    c == '*' || c == '/'
  }

  /** The operators reduced by the second evaluation pass. */
  predicate IsAddSub(c: char) {
    c == '+' || c == '-'
  }

  predicate IsDigit(c: char) {
    '0' <= c <= '9'
  }

  /** A string with no operator character in it. */
  ghost predicate OperatorFree(s: string) {
    forall k | 0 <= k < |s| :: !IsOperator(s[k])
  }

  /** A string made of decimal digits only. */
  ghost predicate AllDigits(s: string) {
    forall k | 0 <= k < |s| :: IsDigit(s[k])
  }

  /** A string with no space in it; no key of the calculator produces one. */
  ghost predicate NoSpaces(s: string) {
    forall k | 0 <= k < |s| :: s[k] != ' '
  }
}
