# Shamir-style secret recovery: radix decoding and Lagrange interpolation at zero

This project models the core of a small Java program (`Main.java`) that
recovers the constant term of a polynomial from a threshold number of its
points. Each point ("root") has an index `x` (1, 2, ... n) and a value `y`
given as a digit string in some radix between 2 and 36. The program

1. locates the JSON objects of the shares with a brace-depth scan
   (`extractObject`),
2. walks the indices 1 .. n and keeps the first `k` that are present, decoding
   each value with `decodeBaseToBigInteger` (right to left, unbounded
   integers, rejecting only digits whose value is at least the base),
3. fails with exit status 2 when fewer than `k` roots were found,
4. evaluates the Lagrange form at x = 0 with exact integers:
   for every root i, `num = prod_{j != i} (0 - x_j)`,
   `den = prod_{j != i} (x_i - x_j)` and `sum += y_i * num / den`, where the
   division is `BigInteger.divide` and truncates toward zero.

The model is imperative where the source is: the decoder, the interpolation
(outer loop, and the inner product loop as its own method), the selection
loop and the brace scan are Dafny methods with loops, each proved against
recursive specification functions (`Positional`/`Decode`, `Prod`/`Interpolate`,
`PresentUpTo`/`Selected`, `IndexOf`/`Depth`). Exceptions and process exits
become `Result` values.

The doc comment of `lagrangeInterpolationAtZero` promises P(0) for k roots of
a polynomial of degree k-1. `Polynomial.InterpolatesPolynomial` proves this
for the integer computation, for every k: when the x are distinct, the y are
the values of an integer polynomial with at most k coefficients, and every
division `y_i * num / den` is exact, the result is the constant term. The
proof works over the reals, with the Lagrange weights
prod_{j != i} (0 - x_j) / (x_i - x_j). It shows that the weights sum to one
(`WeightsSumToOne`) and that they reproduce P(0) (`PolynomialAtZero`, by
induction on the number of roots through synthetic division
P(x) = P(a) + (x - a) Q(x)). It then returns to the integers through the
exactness of each division (`TermsWeighted`).

Files: `wrappers.dfy` (the `Result` type), `radix.dfy` (module `Radix`),
`lagrange.dfy` (module `Lagrange`), `selection.dfy` (module `Selection`),
`braces.dfy` (module `JsonScan`), `polynomial.dfy` (module `Polynomial`, the
correctness of the interpolation).

Behaviour worth knowing, all reproduced by the model:

- The digit value is `c - '0'` for a decimal digit and
  `toUpperCase(c) - 'A' + 10` otherwise, and only a value `>= base` is
  rejected. So `"@"` decodes to 9 in base 10 and `"-5"` to -95 (`'-'` has
  digit value -10); the empty string decodes to 0. When several characters
  are bad, the rightmost one is reported.
- With truncating division the result is not always the rational Lagrange
  value: through (1, 1) and (3, 2) the model (like the source) gives 0, where
  the exact value is 1/2 and Euclidean division would give 1.
- The points (1, 3), (2, 6), (3, 11) lie on y = x*x + 2, and the computation
  gives 2, its value at zero, which is what `InterpolateExamples` proves. Points (1, 4), (2, 7), (3, 12), on
  y = x*x + 3, give 3.

## Model

| member | source | states |
|---|---|---|
| Radix.ToUpper | Main.java:120 | a lower-case ASCII letter becomes the upper-case letter at the same offset from 'A'; every other character is left as it is |
| Radix.Digit | Main.java:118-120 | every letter or decimal digit gets its index in the alphabet 0-9A-Z, case-insensitively |
| Radix.DigitOfDigitChar | Main.java:118-120 | the digit value of the canonical character of d is d, for every d below 36 |
| Radix.DecodeStep | Main.java:116-127 | one iteration adds digit * place to the value of the suffix and multiplies the place by the base, keeping result = value of s[i..] and place = base^(n-i) |
| Radix.CaseInsensitive | Main.java:118-120 | a lower-case letter has the same digit value as its upper-case form, between 10 and 35 |
| Radix.DecodeBaseToBigInteger | Main.java:108-129 | the right-to-left loop returns exactly `Decode(s, base)`; its invariants keep `place == base^(chars processed)` and `result` equal to the positional value of the processed suffix |
| Radix.DecodeMeaning | Main.java:108-129 | decoding fails with InvalidBase outside [2, 36]; otherwise it fails with InvalidDigit on the rightmost character whose digit is not below the base, and succeeds (exactly when all digits are below the base) with sum_i digit(s[i]) * base^(n-1-i) |
| Radix.DecodeDigitsValid | Main.java:112-128 | a string of accepted digits decodes to its positional value |
| Radix.DecodeDigitsRejects | Main.java:116-124 | the rightmost rejected character is the one reported |
| Radix.RightmostRejected | Main.java:116-124 | a string with a rejected digit has a rightmost one |
| Radix.PositionalBounds | Main.java:125-126 | with every digit in [0, base) the value lies in [0, base^len) |
| Radix.DecodeEncode | Main.java:108-129 | decoding the canonical digits of any n >= 0 in any base 2..36 gives back n |
| Radix.DecodeExamples | Main.java:108-129 | base 1 and 37 fail, "Z" fails in base 10, "1Z2" reports 'Z', "" is 0, "111" in base 2 is 7, "a" and "A" are 10 in base 16, "@" is 9 and "-5" is -95 in base 10 |
| Lagrange.Root | Main.java:11-19 | a root is an immutable pair of an x-coordinate and an arbitrary-precision y-value |
| Lagrange.TruncDiv | Main.java:156 | BigInteger.divide: the remainder is smaller than the divisor in magnitude and has the sign of the dividend |
| Lagrange.TruncDivExact | Main.java:156 | when the divisor divides the dividend, the quotient is exact and agrees with Euclidean division |
| Lagrange.TruncDivNotEuclidean | Main.java:156 | -7 divided by 2 is -3, not the Euclidean -4 |
| Lagrange.Prod | Main.java:147-153 | the product of (a - x_j) over a list of roots is zero exactly when some x_j equals a |
| Lagrange.PartnerIffZeroDen | Main.java:147-156 | the denominator of root i is zero exactly when another root has the same x |
| Lagrange.BasisProducts | Main.java:143-153 | the inner loop computes num = prod_{j != i} (0 - x_j) and den = prod_{j != i} (x_i - x_j) |
| Lagrange.PartialProdAll | Main.java:147-153 | what the inner loop has multiplied in after its last index is the product over every root but root i |
| Lagrange.SeenPrefix | Main.java:147-153 | the roots the inner loop has multiplied in after j steps are roots[..j] with root i left out |
| Lagrange.LagrangeInterpolationAtZero | Main.java:138-160 | succeeds exactly when all x are distinct, with the sum of the truncated terms; otherwise fails with division by zero at the first root whose x is shared |
| Lagrange.ProdPermutation | Main.java:147-153 | the products depend only on the multiset of the other roots |
| Lagrange.SumOfPermutation | Main.java:142-157 | a sum over the roots depends only on their multiset |
| Lagrange.DistinctPermutation | Main.java:147-156 | reordering the roots keeps their x distinct |
| Lagrange.InterpolatePermutation | Main.java:142-157 | reordering the roots changes neither whether the computation fails nor its result, truncation included |
| Lagrange.SingleRoot | Main.java:133-137 | one root gives its own y |
| Lagrange.LineThroughTwoRoots | Main.java:133-137 | two distinct roots on a line c0 + c1*x give c0 when both divisions are exact |
| Lagrange.InterpolateExamples | Main.java:138-160 | (1,3),(2,5) gives 1; (1,3),(2,6),(3,11) gives 2; (1,4),(2,7),(3,12) gives 3 |
| Lagrange.LineExample | Main.java:138-160 | the two roots (1,3),(2,5) on y = 2x + 1 give 1 |
| Lagrange.SquareExample | Main.java:138-160 | the three roots (1,3),(2,6),(3,11) on y = x*x + 2 give 2 |
| Lagrange.TripleExample | Main.java:138-160 | the three roots (1,4),(2,7),(3,12) on y = x*x + 3 give 3 |
| Lagrange.InterpolateTruncates | Main.java:156 | (1,1),(3,2) gives 0: each term is truncated separately |
| Lagrange.InterpolateSquareTruncates | Main.java:133-160 | (1,1),(2,4),(4,16) lie on x*x, whose value at zero is 0, yet the computation returns -1: the terms 8/3 and 32/6 truncate to 2 and 5 |
| Selection.PresentUpToMeaning | Main.java:37-40 | the scanned indices that carry a share, listed strictly ascending, within 1..m, and none missing |
| Selection.SelectedMeaning | Main.java:36-51 | the selection has min(k, present) indices, strictly ascending (so distinct) within 1..n, all present, and any present index left out comes after all selected ones |
| Selection.RootsOf | Main.java:48-50 | root t has x = the t-th selected index and y = its decoded value |
| Selection.SelectedRootsDistinct | Main.java:36-58 | the selected roots have pairwise distinct x, so the interpolation cannot divide by zero |
| Selection.CollectRoots | Main.java:36-55 | succeeds exactly when the first k present shares all decode and at least k are present, with their roots in ascending order; otherwise reports the first selected share that does not decode, or that fewer than k were found (exit status 2) |
| Selection.RecoverSecret | Main.java:36-58 | on success the secret is the interpolation of the selected roots at zero; it fails exactly as the collection does |
| JsonScan.IndexOf | Main.java:68-71 | the first occurrence of the pattern at or after the start, or -1 when there is none |
| JsonScan.Quoted | Main.java:68 | the pattern searched for is the key with one double quote before and one after, nothing else |
| JsonScan.ExtractObject | Main.java:67-85 | a missing key, a missing '{' and unmatched braces are reported, each error carrying the key asked for; otherwise the text from the first '{' after the key up to where the brace depth first returns to zero |
| JsonScan.MatchBrace | Main.java:72-84 | the depth loop returns the end of the one prefix from the '{' that is a matched block, or -1 when the depth stays positive to the end of the text |
| JsonScan.MatchedBlockCloses | Main.java:77-81 | a matched block ends with '}' |
| JsonScan.MatchedBlockUnique | Main.java:73-83 | at most one prefix of a text is a matched block |
| Polynomial.InterpolatesPolynomial | Main.java:133-159 | roots with distinct x on an integer polynomial with at most as many coefficients as roots, and with every division exact, give the polynomial's value at zero |
| Polynomial.PolynomialAtZero | Main.java:133-137 | over the reals, sum_i P(x_i) * w_i = P(0) for the Lagrange weights w_i of distinct roots and any P with at most as many coefficients as roots |
| Polynomial.AtZeroStep | Main.java:133-137 | the induction step: with the claim for the first roots and the quotient Q of P by (x - a), the claim holds with one more root at x = a |
| Polynomial.WeightsSumToOne | Main.java:133-137 | the Lagrange weights of distinct roots sum to one |
| Polynomial.SumToOneStep | Main.java:133-137 | if the weights of front + [b] and front + [a] sum to one, so do those of front + [b, a] |
| Polynomial.OneFromMoments | Main.java:133-137 | weights whose moments about two different points a and b are -a and -b sum to one |
| Polynomial.MomentsDiff | Main.java:133-137 | moments about a and about b differ by (b - a) times the sum of the weights |
| Polynomial.MomentAbout | Main.java:133-137 | when the weights of front + [b] sum to one, the moment of front + [b, a] about a is -a |
| Polynomial.OneWeight | Main.java:133-137 | a single root has weight one |
| Polynomial.SplitValues | Main.java:133-137 | sum_i P(x_i) w_i = sum_i (x_i - a) Q(x_i) w_i + P(a) for distinct roots |
| Polynomial.ShiftsAtZero | Main.java:133-137 | when the first roots reproduce Q at zero, the shifted sum of Q over them plus a root at a is P(0) - P(a) |
| Polynomial.ShiftsDropLast | Main.java:133-137 | over rs + [p], sum_i (x_i - p.x) Q(x_i) w_i is (0 - p.x) times sum_i Q(x_i) w'_i over rs, with w' the weights of rs: the term of p itself vanishes |
| Polynomial.ShiftsSwap | Main.java:133-137 | exchanging the last two roots does not change a weighted sum |
| Polynomial.WeightSwap | Main.java:133-137 | exchanging the last two roots exchanges their weights and keeps the others |
| Polynomial.WeightDropLast | Main.java:147-153 | appending a root p multiplies weight i by (0 - p.x) / (x_i - p.x) |
| Polynomial.WeightAsFraction | Main.java:143-153 | the weight of root i is num / den of the integer computation whenever den is not zero |
| Polynomial.QuotAt | Main.java:133-137 | synthetic division: P(x) = P(a) + (x - a) * Q(x) for every x, with Q one coefficient shorter |
| Polynomial.ExactDivision | Main.java:156 | a truncating division that leaves no remainder equals y * n / d over the reals |
| Polynomial.TermAsWeight | Main.java:143-156 | an exact term y_i * num / den is y_i times the weight of root i |
| Polynomial.TermsWeighted | Main.java:142-157 | with every division exact and every y on P, the integer sum of the terms equals sum_i P(x_i) * w_i |
| Polynomial.DistinctXIsDistinct | Main.java:147-156 | pairwise distinct x, stated root by root from the left |

## Left out

- Reading `input.json`, the readability check, printing the secret and `System.exit` (Main.java:23-28, 52-54, 61): I/O and process control. Failures are `Result` values; `SelectError.TooFewRoots` is the case `main` reports with exit status 2, and `BadShare` (a base outside 2..36 or a digit the base rejects) is one of the uncaught exceptions; the others are listed under Selection.CollectRoots below.
- `extractInt` and `extractString` (Main.java:88-103): they rely on `java.util.regex`, which is not part of this model. The values they produce (n, k, and each share's base and value) are inputs: `Selection` takes `n`, `k` and a map from index to `Share(base, value)`.
- The presence test `json.contains("\"" + i + "\"")` (Main.java:39) is modelled by key membership in that map, and `Integer.parseInt` of the base (Main.java:45) by taking the base as an integer.
- Radix.Digit: models `Character.isDigit` and `Character.toUpperCase` on ASCII only; Radix.ToUpper likewise leaves non-ASCII letters unchanged, where Java would map them to upper case; for other Unicode digits and letters Java's digit value differs from the model's.
- Java `int` overflow in `xi - xj` and `-xj` (Main.java:151-152) and in `Integer.parseInt`: x and the base are unbounded integers here.
- Polynomial.InterpolatesPolynomial: the doc comment (Main.java:133-137) promises P(0) with no condition on the divisions. The proof assumes every division `y_i * num / den` is exact. With a remainder, each term is truncated on its own and the sum can differ from P(0). `Lagrange.InterpolateTruncates` shows such a case with a rational P, and `Lagrange.InterpolateSquareTruncates` one with the integer polynomial x*x, whose roots (1,1), (2,4), (4,16) give -1 instead of 0.
- Selection.CollectRoots: the loop counter `i` (Main.java:37) is an unbounded integer here, so the scan always stops after index n. In Java it is an `int`: with n = Integer.MAX_VALUE (which `Integer.parseInt` accepts) and fewer than k shares found by then, `i++` wraps to -2147483648, which is still `<= n`, so the loop keeps going. With no share present it never ends; with some present it comes round to 1..n again and adds the same indices a second time, and `lagrangeInterpolationAtZero` then throws ArithmeticException because a den is 0. For that n the model's `TooFewRoots` result, and the distinct x that `SelectedRootsDistinct` guarantees, do not describe the Java program. Also not captured: a present share whose object cannot be extracted, whose "base" or "value" field cannot be found, or whose base does not parse as an `int` makes `main` throw (Main.java:41-47); the map from index to `Share(base, value)` cannot express such a share.
- `extractObject` is modelled on its own; `main`'s use of it to find the "keys" object and each share's object is covered by the inputs above.
