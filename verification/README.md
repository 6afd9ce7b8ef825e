# Taper-jig calculator: fraction formatting and measurement parsing

A Dafny model of the numeric core of the table-saw taper-jig calculator
(`main.ts`). The calculator reads five measurements and a rounding
denominator from text fields, computes two derived lengths, and shows them
either as plain decimals or rounded to a multiple of 1/N as mixed numbers
such as `3 5/16`. This project models the parts of that core that are not
trigonometry or page wiring, and proves properties of them:

- `reduceFraction`: reduction of k/N to lowest terms by a descending scan
  for a common divisor (module `Reduction`). It is modelled twice: as the
  source's loop (`ReduceFraction`) and as a reference built on Euclid's
  gcd (`Reduce`). A proof shows the two agree.
- `decimalToFraction`: the steps below, in module `Rounding`.
  - Take the remainder `decimal % 1`.
  - Build the candidate fractions 1/N … N/N.
  - Pick one with `find`, in ascending order for `'up'` and in reversed order otherwise.
  - Reduce the pick, and format the whole part and the fraction.
  - Fall back to the plain decimal when the remainder is 0 or no candidate qualifies.
- `fractionToDecimal`: splits the text on a slash with the whitespace
  around it, and divides the `parseInt` of the first piece by the
  `parseInt` of the second (module `Rounding`).
- The per-field token fold of `parseInputValues` (module `InputParser`).
  - The field is split on whitespace runs (`split(/\s+/)`).
  - Each token adds numerator/denominator of the first match of
    `(\d+)\s*\/\s*(\d+)` anywhere in it, or `parseFloat(token)`.
  - The sum starts at 0.
- The gate at line 111: a result is rounded only when the
  rounding-divisions value is truthy (module `Calculator`). The two output
  boxes are written only after both values are formatted, so a throw while
  formatting either value leaves both unwritten (`Calculator.Handler`). Module
  `Calculator` also ties the formatter to the parser: a rounded result,
  typed back into a field, reads as the rounded value.

Supporting modules:

- `Wrappers` holds `Option`.
- `JsNumber` models JavaScript numbers as exact reals plus NaN and the two
  infinities, with `+`, `/` on integers and truthiness.
- `JsText` models the `\s` character class, `split(/\s+/)`, `parseInt(s, 10)`
  and the decimal text of an integer.

Three behaviours of the code are easy to misread:

- An empty field, or one with leading or trailing whitespace, sums to NaN,
  not 0. `split(/\s+/)` leaves an empty token there, and `parseFloat("")`
  is NaN (`InputParser.EmptyFieldIsNaN`, `InputParser.OuterWhitespaceIsNaN`).
- The fraction pattern is not anchored. The first match anywhere in a token
  wins, so `1.5/2` contributes 5/2 (`InputParser.UnanchoredFractionToken`).
- `fractionToDecimal` is never called in `main.ts`. For a mixed text
  `w p/q` it returns w/q, not w + p/q (`Rounding.MixedTextReadsWholeOverDen`).
  The parser is what reads a mixed text back correctly
  (`Calculator.MixedTextFieldValue`).

## Model

| member | source | states |
|---|---|---|
| `Reduction.Reduce` | main.ts:87-94 | For a positive numerator n, the pair (p, q) has the value of n/d (p·d = n·q) and is in lowest terms. The divisor used, n/p, is a common divisor of n and d, and p ≤ n. A numerator ≤ 0 is returned with its denominator untouched. |
| `Reduction.ReduceFraction` | main.ts:87-94 | The source's descending scan returns exactly the gcd-based reduction. The first common divisor met from n downward is gcd(n, d). The fall-through return is reached only for a numerator ≤ 0. |
| `Reduction.GcdIsLargestUpTo` | main.ts:88-90 | A common divisor of n and d with no larger common divisor up to n is gcd(n, abs(d)). |
| `Reduction.ReduceIdempotent` | main.ts:87-94 | Reducing an already reduced fraction returns it unchanged. |
| `Reduction.DividesNegation` | main.ts:89 | `a % c === 0` does not depend on the sign of a, so negative denominators reduce like positive ones. |
| `JsNumber.Add` | main.ts:71-73 | `+` gives NaN exactly when an operand is NaN or the operands are opposite infinities. Otherwise an infinite operand makes the sum that same infinity, and finite operands add exactly. |
| `JsNumber.Divide` | main.ts:59 | For a non-zero divisor the quotient times the divisor is the dividend. Dividing by zero gives NaN exactly for 0/0, and otherwise the infinity with the dividend's sign. |
| `Rounding.Remainder` | main.ts:25 | `x % 1` lies strictly between -1 and 1, has the sign of x, and differs from x by a whole number, so it is x minus trunc(x). It is 0 exactly when x is a whole number. |
| `Rounding.Candidates` | main.ts:27-35 | There are exactly N candidates. Entry i has numerator i+1 and value (i+1)/N, and the last entry is 1. |
| `Rounding.CandidatesAscending` | main.ts:27-35 | The candidates are in strictly ascending order of value. |
| `Rounding.Reverse` | main.ts:40-41 | `reverse()` keeps the length and puts the element at length-1-i at position i. |
| `Rounding.FirstIndex` | main.ts:38 | `find` returns the first element that satisfies the test, none before it does, and nothing is found only when no element satisfies it. |
| `Rounding.Select` | main.ts:36-43 | In `'up'` mode the pick is the least k in 1..N with k/N ≥ remainder. In the other mode it is the greatest k with k/N ≤ remainder. No pick means every candidate lies on the wrong side of the remainder. |
| `Rounding.ReversedCandidates` | main.ts:40-41 | The reversed list holds N/N, (N-1)/N, …, 1/N. |
| `Rounding.SelectUpIsCeiling` | main.ts:37-38 | For a remainder in (0, 1], rounding up picks numerator ceil(remainder·N). |
| `Rounding.SelectDownIsFloor` | main.ts:39-43 | For a remainder in [0, 1), rounding down picks floor(remainder·N) when that is at least 1, and nothing otherwise. |
| `Rounding.SelectNegative` | main.ts:37-43 | A negative remainder is below every candidate: `'up'` picks 1/N, and the other mode picks nothing. |
| `Rounding.DecimalToFraction` | main.ts:24-55 | NaN, the infinities and whole numbers come back as the plain decimal. A mixed result has the truncated whole part and a numerator and denominator with 1 ≤ num ≤ den ≤ N, in lowest terms. |
| `Rounding.ReduceProper` | main.ts:50 | Reducing k/N with 1 ≤ k ≤ N keeps its value, gives lowest terms and stays within 1 ≤ p ≤ q ≤ N. |
| `Rounding.RoundUp` | main.ts:37-51 | For a non-negative, non-whole decimal and k = ceil(remainder·N): 1 ≤ k ≤ N, (k-1)/N < remainder ≤ k/N, and the result is floor(decimal) with k/N reduced. |
| `Rounding.RoundUpNeverFallsBack` | main.ts:37-44 | Rounding up always yields a mixed result, because N/N = 1 exceeds every remainder. |
| `Rounding.RoundUpOneOverOne` | main.ts:37-51 | A remainder above (N-1)/N rounds up to `1/1`, and the whole part is not carried. |
| `Rounding.RoundDown` | main.ts:39-54 | For a non-negative, non-whole decimal and k = floor(remainder·N): the result is the plain decimal exactly when the remainder is below 1/N (k = 0). Otherwise k/N ≤ remainder < (k+1)/N, and the result is floor(decimal) with k/N reduced. |
| `Rounding.RoundNegative` | main.ts:25-54 | A negative non-whole decimal rounds up to its truncated whole part plus 1/N, and rounding down returns it unrounded. |
| `Rounding.RoundUpWithinOneStep` | main.ts:24-55 | For a non-negative, non-whole decimal, the value of an upward-rounded result is at least the decimal and less than one step 1/N above it. |
| `Rounding.RoundDownWithinOneStep` | main.ts:24-55 | For a non-negative, non-whole decimal whose remainder reaches 1/N, the downward-rounded value is at most the decimal and less than one step 1/N below it. |
| `Rounding.MixedText` | main.ts:45-51 | Without a whole part the text holds no whitespace, so it is one token. With one, a space follows the whole part's digits. |
| `Rounding.FractionToDecimal` | main.ts:57-60 | Text without a slash is NaN, because the second piece is missing. |
| `Rounding.FractionTextRoundTrip` | main.ts:57-60 | `fractionToDecimal` of the text `p/q` written for two integers is p/q (NaN for 0/0, an infinity for a zero denominator). |
| `Rounding.MixedTextReadsWholeOverDen` | main.ts:45-60 | With a non-zero whole part, `fractionToDecimal` of the text `w p/q` is w/q: the first piece `w p` reads as w. |
| `Rounding.RoundedFractionRoundTrip` | main.ts:44-59 | `fractionToDecimal` of the fraction part of a rounded result is exactly the picked candidate's value k/N. |
| `JsText.SplitWs` | main.ts:67 | `split(/\s+/)` gives at least one piece and no piece holds whitespace. Only the first and the last piece can be empty. The first (last) piece is empty exactly when the text is empty or starts (ends) with whitespace. |
| `JsText.SplitWsLeadingRun` | main.ts:67 | A leading whitespace run of any length and any whitespace characters leaves exactly one empty piece before the pieces of the rest. |
| `JsText.SplitWsAfterRun` | main.ts:67 | Text without whitespace followed by any non-empty whitespace run is one piece, and the run leaves no trace: the pieces of the rest follow. |
| `JsText.SplitJoinRunsRoundTrip` | main.ts:67 | Splitting recovers the pieces whatever non-empty whitespace runs (tabs, newlines, repeated spaces) separate them, for pieces without whitespace of which only the first and the last may be empty. |
| `JsText.NatToString` | main.ts:51 | The text of a natural number is a non-empty run of digits without a leading zero, and it denotes that number. |
| `JsText.ParseInt` | main.ts:59 | A negative result comes only from a minus sign as the first character after the leading whitespace. |
| `JsText.ParseIntNeedsDigit` | main.ts:59 | `parseInt` of text without any digit is NaN. |
| `JsText.ParseIntRoundTrip` | main.ts:59 | `parseInt(s, 10)` reads back the integer that `toString` wrote, whatever non-digit text follows it. |
| `JsText.DigitsEnd` | main.ts:70 | A greedy `\d+` from p stops at the first non-digit and covers only digits. |
| `JsText.WsEnd` | main.ts:70 | A greedy `\s*` from p stops at the first non-whitespace character and covers only whitespace. |
| `InputParser.MatchAt` | main.ts:70 | The pattern tried at p: a match starts at p, has the pattern's shape and a denominator that takes every following digit. Nothing matches where the text does not start with a digit. |
| `InputParser.MatchAtComplete` | main.ts:70 | Wherever the text has the pattern's shape, the pattern matches there with the same numerator, slash and denominator start. |
| `InputParser.MatchAtExact` | main.ts:70 | A shape whose denominator cannot be extended is exactly the match at its start. |
| `InputParser.FirstMatch` | main.ts:70 | A first match found from p starts at or after p and is the match at its start. |
| `InputParser.FirstMatchLeftmost` | main.ts:70 | No match starts before the first match, and no match at all means none starts anywhere. |
| `InputParser.NoFractionWithoutSlashOrDigit` | main.ts:70 | A token without a slash, or without a digit, never matches the fraction pattern. |
| `InputParser.PlainToken` | main.ts:70-73 | A token without a slash, or without a digit, contributes `parseFloat(token)`. |
| `InputParser.DigitsFractionToken` | main.ts:70-71 | A token `a/b` of two digit runs contributes a divided by b. |
| `InputParser.FractionTokenValue` | main.ts:70-71 | A token written as `p/q` for two naturals contributes p/q. |
| `InputParser.UnanchoredFractionToken` | main.ts:70-71 | A fraction after a prefix without a slash that ends in neither a digit nor whitespace (as in `1.5/2`) still contributes its fraction. |
| `InputParser.FirstMatchAfterPrefix` | main.ts:70 | For such a prefix, the first match is the fraction right after it. |
| `InputParser.TokenValue` | main.ts:69-74 | A token without a slash contributes `parseFloat(token)`. |
| `InputParser.SumTokens` | main.ts:68-75 | A NaN last token makes the sum NaN. |
| `InputParser.FieldValue` | main.ts:66-75 | When the empty token reads as NaN, an empty field or one with whitespace at either end reads as NaN. |
| `InputParser.FiniteTokensFiniteSum` | main.ts:68-75 | Tokens that all contribute finite values add up to a finite value. |
| `InputParser.NaNTokenPoisonsSum` | main.ts:68-75 | One NaN token makes the whole field NaN. |
| `InputParser.SumTokensAppend` | main.ts:68-75 | The fold over a concatenation is the sum of the folds over the parts. |
| `InputParser.EmptyFieldIsNaN` | main.ts:66-75 | An empty field reads as NaN, not 0. |
| `InputParser.OuterWhitespaceIsNaN` | main.ts:66-75 | A field with leading or trailing whitespace reads as NaN. |
| `InputParser.OneTokenField` | main.ts:66-75 | A field of one token reads as 0 plus that token. |
| `InputParser.TwoTokenField` | main.ts:66-75 | A field of two tokens separated by a space reads as 0 plus the first plus the second. |
| `InputParser.SeparatedTokensField` | main.ts:66-75 | Any whitespace run between two tokens reads like one space: `3\t1/2` and `3  1/2` read as `3 1/2`, that is 0 plus the first plus the second. |
| `InputParser.SpacedSlashIsNaN` | main.ts:66-75 | A fraction typed with spaces around the slash (`3 / 4`) reads as NaN, because the lone `/` is its own token. |
| `InputParser.MixedNumberField` | main.ts:66-75 | `w a/b` reads as `parseFloat(w)` plus a/b. |
| `Calculator.Output` | main.ts:111-124 | Formatting one value: a falsy divisions value (0 or NaN) gives the plain value. The call throws exactly when divisions is truthy but not a valid array length and the value is not whole. A mixed result has the truncated whole part and 1 ≤ num ≤ den ≤ divisions. |
| `Calculator.Handler` | main.ts:111-127 | Neither box is written exactly when divisions is truthy but not a valid array length and either value is not whole. A falsy divisions value shows both values plain. Otherwise each box receives its own value's formatting. |
| `Calculator.EmptyDivisionsFieldIsPlain` | main.ts:111-124 | An empty rounding-divisions field reads as NaN, which is falsy, so both results are shown unrounded. |
| `Calculator.ZeroDivisionsFieldIsPlain` | main.ts:111-124 | A divisions field holding one slash-free token that reads as 0, such as `0`, shows both results unrounded. |
| `Calculator.RoundingUpAlwaysGivesFraction` | main.ts:111-121 | With a usable number of divisions, rounding up always shows a mixed number for a value that is not whole. |
| `Calculator.MixedTextFieldValue` | main.ts:66-75 | The text `decimalToFraction` writes for a mixed result (whole part and space only when non-zero, then `p/q`), typed into a field, reads as whole + p/q. |
| `Calculator.RoundedUpReadsBack` | main.ts:111-121 | An upward-rounded output, typed back in, reads as a value at least the original and less than one division above it. |
| `Calculator.RoundedDownReadsBack` | main.ts:111-121 | A downward-rounded output, typed back in, reads as a value at most the original and less than one division below it. |

## Left out

- The DOM lookups, the click-handler wiring and the assignment to the output elements (main.ts:8-20, 96-99) are page I/O. They are not modelled; `Calculator.Handler` gives the pair of results that lines 126-127 write.
- The trigonometric formulas (main.ts:101-107) use floating-point `Math.atan`, `sin`, `cos` and `tan`. `Calculator.Output` takes the value to show as a parameter instead.
- `Object.keys(...).reduce` over the six fields (main.ts:62-65, 76-84) only stores each field's value under its key. The model reads one field at a time (`InputParser.FieldValue`).
- Finite numbers are exact reals: IEEE-754 rounding in `decimal % 1`, `value / divisions` and the sums is not modelled. Signed zero and the largest finite double are not modelled either.
- `parseFloat` is a parameter of every parsing member. Its grammar (prefixes, exponents, `Infinity`, trailing garbage) is not modelled.
  - Lemmas that need it to reject text with no numeric prefix assume `InputParser.ParseFloatRejects`.
  - Lemmas that need it to read back integer text assume `Calculator.ParseFloatReadsIntegers`.
- `toString` of a number is modelled only for integers (`JsText.IntToString`, without the exponent form used from 1e21 on). A plain result is kept as the number itself (`Rounding.Plain`), not as text.
- The value of the rounding-method select list is modelled as `Up` for `'up'` and `Down` for anything else (`Rounding.MethodOf`). Any other string rounds down, as in the source.
- Calculator.RoundedUpReadsBack: stated only for non-negative values. For a negative value the text pairs the truncated whole part with a positive fraction, and that reads back to a different value. `Rounding.RoundNegative` states what the source does then.
- Calculator.RoundedDownReadsBack: stated only for non-negative values whose remainder reaches one division. Below that the output is the plain value (`Rounding.RoundDown`). For negative values see `Rounding.RoundNegative`.
