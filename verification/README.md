# Calculator core in Dafny

A model of the logic behind a four-function web calculator (`react-app.jsx`).
The calculator keeps a text buffer (`expression`) and a flag (`justEvaluated`).
Each key is an editing intent on that pair: digit, operator, decimal point,
delete, clear, or `=`. The `=` key scans the buffer into tokens and reduces
them in two passes: first `*` and `/`, then `+` and `-`, each left to right.
The result is written back as text, and the flag is set.

Each intent is a pure function from one `State(expr, justEvaluated)` to the next.
A number is an `Option<real>`, where `None` stands for JavaScript's `NaN` (or any
non-finite value). Modules follow the program's parts:

- `Chars` holds the character classes (`isOperator`).
- `Numbers` holds JavaScript arithmetic on `Option<real>` and `parseFloat` on the lexemes the scanner produces.
- `Operands` holds the backward scans `currentNumberHasDecimal` and `expForEntry`.
- `ExpressionBuffer` holds the intents `appendDigit`, `appendOperator`, `appendDecimal`, `del` and `clearAll`. It also holds the buffer invariant: no two adjacent operators, and at most one point per operand.
- `Tokenizer` holds trimming of trailing operators and the scanner with its unary-minus rule (`tokenize`).
- `Reducer` holds the two passes of `compute`. It also holds a reference semantics, which proves what those passes compute. The reference is a left-associative grammar tree in which `*`/`/` bind tighter than `+`/`-`.
- `Calculator` holds `compute` on the state, the `handleKey` dispatch, and whole key sessions.
- `Examples` holds concrete reductions and buffers.

The central results:

- **Precedence.** `Reducer.ReduceMatchesGrammar` and `Reducer.ReduceAlternating` prove that the two passes compute the grammar tree's value. The error exit is taken exactly when some `/` meets a divisor that is exactly zero.
- **The scanner.** `Tokenizer.LexSpellsInput` proves that scanning loses and reorders nothing. `Tokenizer.LexFollowsSignRule` proves that a `-` becomes a sign exactly where no number precedes it. `Tokenizer.TokenizeExpression` proves that a written expression scans back to its operands and operators.
- **The buffer invariant.** `Calculator.RunKeepsReachable` proves that every session of keys keeps the buffer well formed. A well-formed buffer that starts with a number or a sign alternates number and operator. `Calculator.EvaluateReachable` therefore gives the value of every such buffer through the grammar. `Calculator.EvaluateLeadingOperator` covers the remaining buffers, which open with '+', '*' or '/'.

Every lemma carries `{:induction false}`: each inductive proof is spelled out
by its recursive calls, and none rests on Dafny's automatic induction.

## Model

| member | source | states |
|---|---|---|
| Chars.IsOperator | react-app.jsx:7 | the four operator characters, the only ones that end an operand; its consequences are stated by `Operands.TrailingRunUnique`, `Tokenizer.LexFollowsSignRule` and `ExpressionBuffer.AppendOperatorKeepsWellFormed` |
| ExpressionBuffer.Last | react-app.jsx:8 | the final character of a non-empty buffer; every use of it sits behind a test that the buffer is non-empty, as in `ExpressionBuffer.AppendOperator` and `ExpressionBuffer.AppendDecimal` |
| Operands.CurrentNumberHasDecimal | react-app.jsx:9-13 | the backward scan answers true exactly when the operand being typed (the maximal operator-free suffix) contains a '.' |
| Operands.ExpForEntry | react-app.jsx:14-19 | "" gives "0"; any other buffer gives a non-empty suffix of itself: the longest operator-free suffix (the operand being typed), or the trailing operator alone when the buffer ends in one; an operator-free buffer gives itself; the entry holds a '.' exactly when the current operand does |
| Operands.TrailingRunUnique | react-app.jsx:11 | any operator-free suffix that starts right after an operator (or at the start) is the operand the scans stop at |
| ExpressionBuffer.AppendDigit | react-app.jsx:22-25 | after an evaluation the buffer becomes exactly the key and the flag is cleared; otherwise the key is appended and the flag stays false |
| ExpressionBuffer.AppendOperator | react-app.jsx:26-36 | on "" a '-' gives "-" with the flag untouched and any other operator changes nothing; a trailing operator is replaced (same length, same prefix); otherwise the operator is appended; on a non-empty buffer the flag is cleared |
| ExpressionBuffer.AppendDecimal | react-app.jsx:38-46 | after an evaluation "0."; on "" or after an operator "0." is appended; a second point in the current operand changes nothing; otherwise '.' is appended; afterwards the current operand always holds a point |
| ExpressionBuffer.Del | react-app.jsx:47 | drops exactly the last character, does nothing on "", and never changes the flag |
| ExpressionBuffer.ClearAll | react-app.jsx:48 | the empty buffer with the flag cleared |
| ExpressionBuffer.AppendDigitKeepsWellFormed | react-app.jsx:22-25 | a digit key keeps the buffer free of adjacent operators and of a second point in one operand |
| ExpressionBuffer.AppendOperatorKeepsWellFormed | react-app.jsx:26-36 | an operator key keeps the buffer well formed, because a trailing operator is replaced rather than followed |
| ExpressionBuffer.AppendDecimalKeepsWellFormed | react-app.jsx:38-46 | the point key keeps the buffer well formed, because a second point in an operand is suppressed |
| ExpressionBuffer.DelKeepsWellFormed | react-app.jsx:47 | deleting keeps the buffer well formed |
| ExpressionBuffer.DelUndoesDigit | react-app.jsx:22-47 | outside an evaluation, delete right after a digit restores the state |
| ExpressionBuffer.DelUndoesOperator | react-app.jsx:26-47 | delete right after an appended (not substituted) operator restores the buffer |
| ExpressionBuffer.OperatorCoalescing | react-app.jsx:28-35 | two operator keys in a row act like the second alone, except a '-' on an empty buffer, which the next operator replaces (ExpressionBuffer.LeadingMinusReplaced) |
| ExpressionBuffer.LeadingMinusReplaced | react-app.jsx:28-34 | a leading '-' is replaced by a following operator: "-" then '+' gives "+" |
| ExpressionBuffer.AppendDecimalIdempotent | react-app.jsx:38-46 | pressing '.' twice is the same as pressing it once |
| ExpressionBuffer.DelAfterEvaluation | react-app.jsx:22-47 | delete keeps the flag, so a digit after delete on a result still starts afresh |
| Numbers.ParseNumber | react-app.jsx:61-72 | `parseFloat` on a lexeme the scanner produces; its meaning is stated by `Numbers.ParseFailsExactly`, `Numbers.ParseNegative`, `Numbers.ParseNumeral`, `Numbers.ParseOfParts` and `Numbers.ParseIgnoresTail` |
| Numbers.ParseFailsExactly | react-app.jsx:61 | `parseFloat` on a lexeme is NaN exactly when no numeral starts after the optional sign |
| Numbers.ParseNegative | react-app.jsx:58-61 | a leading '-' negates the value of the rest of the lexeme |
| Numbers.ParseNumeral | react-app.jsx:72 | the decimal numeral of n parses back to n |
| Numbers.ParseOfParts | react-app.jsx:72 | `whole.fraction` parses to its decimal value, whatever non-digit text follows |
| Numbers.ParseIgnoresTail | react-app.jsx:72 | text after a complete numeral is ignored, so "1.2.3" reads as 1.2 |
| Tokenizer.TrimOperators | react-app.jsx:79 | the result is the longest prefix that does not end in an operator; everything cut off is an operator |
| Tokenizer.OperandPrefix | react-app.jsx:70-71 | the inner loop collects the longest prefix with no operator and no space |
| Tokenizer.LexFrom | react-app.jsx:53-74 | the scanning loop, with `signAllowed` for "no token yet, or the last one is an operator"; stated by `Tokenizer.LexSpellsInput`, `Tokenizer.LexFollowsSignRule` and the step lemmas `Tokenizer.LexOperand`, `Tokenizer.LexSigned` and `Tokenizer.LexOperator` |
| Tokenizer.Lex | react-app.jsx:50-75 | the scan from the start, where a '-' is a sign; stated by `Tokenizer.LexExpression` and `Calculator.TokensAlternate` |
| Tokenizer.Tokenize | react-app.jsx:50-75 | `tokenize`; stated by `Tokenizer.TokenizeExpression` (a written expression gives back its parsed operands and operators) and `Calculator.TokensAlternate` (a reachable buffer gives alternating numbers and operators) |
| Tokenizer.Tokens | react-app.jsx:61-72 | one token per lexeme, in order: each numeric text parsed and each operator kept |
| Tokenizer.LexSpellsInput | react-app.jsx:53-74 | the lexemes spell the input with its spaces removed: nothing lost, nothing reordered |
| Tokenizer.LexFollowsSignRule | react-app.jsx:56-68 | every numeric lexeme is non-empty with no operator but a leading '-'; a lexeme starting with '-' opens the list or follows an operator, and a '-' operator follows a number |
| Tokenizer.LexOperand | react-app.jsx:70-72 | an operator-free run followed by an operator or the end is one number lexeme, after which no sign is allowed |
| Tokenizer.LexSigned | react-app.jsx:57-63 | where a sign is allowed, '-' and the run after it are one negative-number lexeme |
| Tokenizer.LexOperator | react-app.jsx:64-67 | an operator that is not a sign is an operator lexeme, after which a sign is allowed |
| Tokenizer.LexExpression | react-app.jsx:53-74 | an expression written as operand, operator, operand, ... scans back to exactly those operands and operators |
| Tokenizer.TokenizeExpression | react-app.jsx:53-74 | `tokenize` of a written expression gives each operand parsed and each operator, in order |
| Reducer.MulDiv | react-app.jsx:82-97 | the first pass never shrinks the stack, leaves a non-empty stack for non-empty input, and adds no '*' or '/' to it |
| Reducer.Reduce | react-app.jsx:80-106 | evaluation leaves the state alone exactly when there are no tokens |
| Reducer.MulDivExpr | react-app.jsx:82-97 | the first pass turns a sum of product chains into one number per chain, or takes the error exit exactly when a chain divides by zero |
| Reducer.AddSubFrom | react-app.jsx:99-106 | the second pass's loop; stated by `Reducer.AddSubStack` (a left-to-right fold over the chain values) and `Reducer.LeadingPlusReduce` (an operator as the first entry makes the result non-numeric) |
| Reducer.AddSub | react-app.jsx:98-106 | the second pass from the stack's first entry; stated by `Reducer.AddSubStack` and `Reducer.ReduceMatchesGrammar` |
| Reducer.AddSubStack | react-app.jsx:98-106 | the second pass adds and subtracts the chain values from left to right |
| Reducer.ReduceMatchesGrammar | react-app.jsx:82-106 | both passes compute the value of the grammar tree, or clear on a zero divisor |
| Reducer.OperandMissingClears | react-app.jsx:86-89 | a '*' or '/' with no number on its left or right clears the state |
| Reducer.ZeroDivisorClears | react-app.jsx:90 | a '/' right before a divisor that is exactly 0 clears the state, wherever it is |
| Reducer.DividesByZeroExactly | react-app.jsx:90 | a grammar tree divides by zero exactly when its tokens hold '/' right before a 0 |
| Reducer.ReduceAlternating | react-app.jsx:82-106 | on number/operator/number tokens, the error exit is taken exactly on a zero divisor, and otherwise the result is the value with '*' and '/' binding tighter, all left-associative |
| Reducer.LeadingPlusReduce | react-app.jsx:95-107 | a '+' in front of an alternating list stays on the stack as the second pass's first entry: the error exit exactly on a zero divisor, otherwise a non-numeric result |
| Calculator.Evaluate | react-app.jsx:76-106 | what `compute` decides for a buffer; stated by `Calculator.UnchangedExactly`, `Calculator.TrailingOperatorIgnored`, `Calculator.EvaluateReachable` and `Calculator.EvaluateLeadingOperator` |
| Calculator.Compute | react-app.jsx:76-110 | `compute` on the state: `Calculator.Commit` of the outcome `Calculator.Evaluate` decides; `Calculator.ComputeKeepsReachable` shows it keeps the buffer reachable |
| Calculator.HandleKey | react-app.jsx:112-119 | the dispatch from key names to intents, any other name appended like a digit; stated by `Calculator.HandleKeyKeepsReachable`, `Calculator.DigitKeysAppend` and `Examples.ContinueOrRestart` |
| Calculator.Commit | react-app.jsx:76-110 | how `compute` ends: with nothing to evaluate the state is kept as it is; the error exit clears it; a finite result is shown rendered and a non-numeric one as "Error", with the flag set (`Compute` commits the outcome of evaluating the buffer) |
| Calculator.TrailingOperatorIgnored | react-app.jsx:79 | a trailing operator does not change the evaluation: "7+" evaluates like "7" |
| Calculator.UnchangedExactly | react-app.jsx:77-81 | evaluation does nothing exactly when the buffer is empty or holds operators only |
| Calculator.TokensAlternate | react-app.jsx:53-74 | a buffer without spaces or adjacent operators, which starts with a number or a sign and ends with a number, tokenizes to alternating numbers and operators |
| Calculator.EvaluateReachable | react-app.jsx:76-106 | a reachable buffer that starts with a number evaluates to the error exit exactly on a zero divisor, and otherwise to the grammar value of its trimmed tokens |
| Calculator.EvaluateLeadingOperator | react-app.jsx:76-107 | a reachable buffer that opens with '*' or '/' clears the calculator; one that opens with '+' clears exactly on a zero divisor and otherwise shows "Error"; after the opening operator its tokens alternate |
| Calculator.ComputeKeepsReachable | react-app.jsx:107-109 | '=' keeps the buffer reachable, given that every rendered result is |
| Calculator.HandleKeyKeepsReachable | react-app.jsx:112-119 | every key the dispatch understands keeps the buffer reachable |
| Calculator.RunKeepsReachable | react-app.jsx:112-119 | over any session of keys the buffer never holds adjacent operators, a second point in one operand, or a space |
| Calculator.DigitKeysAppend | react-app.jsx:22-25 | outside an evaluation, digit keys append exactly their digits, in order, and the flag stays clear |
| Calculator.DigitSession | react-app.jsx:14-25 | digit keys alone from a fresh calculator leave exactly the digits typed, in order, and the current-entry display shows that whole buffer ("0" before any key) |
| Calculator.EditingKeepsReachable | react-app.jsx:22-48 | from a fresh calculator, digit, operator, point, delete and clear keys only produce well-formed buffers |
| Examples.MultiplicationFirst | react-app.jsx:82-106 | the tokens of 2+3*4 reduce to 14 |
| Examples.MultiplicationBeforeAddition | react-app.jsx:82-106 | the tokens of 2*3+4 reduce to 10 |
| Examples.SignAfterOperator | react-app.jsx:82-106 | the tokens of 2*-3 reduce to -6 |
| Examples.SubtractionLeftToRight | react-app.jsx:98-106 | the tokens of 8-3-2 reduce to 3 |
| Examples.DivisionByZero | react-app.jsx:90 | the tokens of 5/0 take the error exit |
| Examples.DivisionByZeroInSum | react-app.jsx:90 | the tokens of 1+5/0 take the error exit, although the '/' is not the first operator |
| Examples.TrailingOperator | react-app.jsx:79 | the buffer "7+" evaluates to 7 |
| Examples.LeadingPlusIsError | react-app.jsx:98-107 | '=' on "+5" shows "Error" with the flag set |
| Examples.LeadingTimesClears | react-app.jsx:87-89 | '=' on "*5" clears the calculator |
| Examples.LoneMinusUnchanged | react-app.jsx:79-81 | '=' on "-" leaves the state as it is |
| Examples.ContinueOrRestart | react-app.jsx:22-36 | after a result, an operator continues from it and a digit starts afresh |

## Left out

- React plumbing (`useState`, `useEffect`, `updateExpr`, updater functions that set the flag, stale closures): each intent is one sequential pure transition on the state.
- The keyboard listener, the key-name mapping (Enter, Backspace, 'c'), the JSX buttons and display, and mounting: these are input and display only.
- IEEE-754 arithmetic: numbers are exact `real`s, so rounding, overflow to Infinity and the sign of zero are not modelled. `None` stands for NaN and for every non-finite result. A `/` by `-0` clears like a `/` by `0`, as in the code, because `-0 === 0`.
- Numbers.ParseNumber: `parseFloat` is modelled for an optional leading '-', digits, an optional '.' and digits. A leading '+', leading whitespace, exponents and the text "Infinity" are not read. The scanner never hands `parseFloat` a lexeme that opens with '+' or a space, because '+' is always an operator and a space ends a lexeme. Other whitespace, exponent letters and "Infinity" reach it only through text no button types: a rendered result, or a key name that `handleKey` appends like a digit (`Calculator.HandleKey` accepts any name).
- `String(res)` is the parameter `render`. Its output is not modelled, so re-evaluating a shown result (idempotence of '=') is not stated; forms such as "1e+21" scan differently from the number they show.
- Calculator.ComputeKeepsReachable and Calculator.RunKeepsReachable assume that every rendered result is itself a well-formed buffer without spaces, because `render` is left open.
- Reducer.AddSubFrom: in the code, an operator left as the first entry of the second pass's stack (a buffer opening with '+') makes the accumulator a string, and a later '+' concatenates. The model treats that accumulator as non-numeric, so the result shows "Error". The two differ only on a buffer such as "++5-3", whose two adjacent operators no key sequence produces (see Calculator.RunKeepsReachable).
- An operator key replaces any trailing operator, a leading '-' included ("-" then '+' gives "+"), so no buffer holds two operators in a row (ExpressionBuffer.LeadingMinusReplaced).
- `del` keeps the `justEvaluated` flag as the code does, so a digit typed after deleting part of a result still starts a new buffer (ExpressionBuffer.DelAfterEvaluation).
- `lastChar` is `ExpressionBuffer.Last`, defined on non-empty buffers only. The code also evaluates `lastChar('')` when `appendDecimal` sees an empty buffer; that gives `undefined`, which is never used, because the empty-buffer test comes first. The model skips that call.
- Whole-buffer evaluations of longer concrete expressions are stated on their token lists (Examples). The scanning of such text is covered by the general `Tokenizer.TokenizeExpression`.
