# Shamir secret reconstruction, modelled in Dafny

`ShamirSecretSharing.java` reconstructs a Shamir secret, which is the constant term of
a polynomial, from k shares. A JSON document holds a `"keys"` member and one member
per share. A share member's name is the share's index x. Its `"base"` and `"value"`
fields give the share's value y, written in that base. The program goes through these
steps:
- it parses x with `Integer.parseInt`;
- it decodes y with `convertToBase10`, which is `Long.parseLong(value, base)`;
- it builds the points in the object's member order, skipping `"keys"`;
- it keeps the first k points with `subList(0, k)`;
- it evaluates the Lagrange interpolation of those points at x = 0.

A second function, `findWrongPoints`, picks out the points whose y exceeds 10^14.

The project has one module per concern:

| file | module | what it holds |
|---|---|---|
| `results.dfy` | `Results` | `Option` and `Result` |
| `radix.dfy` | `Radix` | the `Long.parseLong(s, radix)` / `Integer.parseInt(s)` contract, as a Horner fold with an explicit error, plus a reference grammar and value of numerals and `Long.toString` for the round trip |
| `points.dfy` | `Points` | the `Point` record (`x` a Java int, `y` a Java long) |
| `polynomials.dfy` | `Polynomials` | polynomials as coefficient lists (evaluation, synthetic division, products of linear factors), used only to state and prove what interpolation computes |
| `lagrange.dfy` | `Lagrange` | `lagrangeInterpolation`: specification functions for the two nested loops, the loop method proved against them, and the exactness theorem that the result is the constant term of every polynomial of degree below k through the points |
| `interpolant.dfy` | `Interpolant` | an interpolating polynomial in Newton's form, proof that the loops compute its value at 0, and independence of the secret from the order of the points |
| `shares.dfy` | `Shares` | the part of `findConstantTerm` that runs after the document is read: turning members into points, `subList(0, k)`, interpolation, and every way this fails |
| `outliers.dfy` | `Outliers` | `findWrongPoints` as a loop proved against an order-preserving filter |

Interpolation is over exact `real` arithmetic. Shares with a repeated x are outside
the interpolation's precondition. The reconstruction reports them as the error
`RepeatedX`.

The model follows the code in three places where a reader might expect otherwise:
- `Long.parseLong` accepts one leading `+` or `-`, so `ConvertToBase10` is signed.
- `Integer.parseInt` accepts any int as the index x, including 0 and negatives.
- Too few points fail in `subList(0, k)` before interpolation starts. The model
  reports this as `BadThreshold(k, available)` from the selection step.

## Model

| member | source | states |
|---|---|---|
| Radix.ConvertToBase10 | ShamirSecretSharing.java:13-15 | every value `convertToBase10` returns lies in the long range [-2^63, 2^63-1] |
| Radix.ParseSignedMeaning | ShamirSecretSharing.java:14 | the parser shared by `Long.parseLong` and `Integer.parseInt` accepts exactly the sign-optional numerals of the radix whose value lies in the target type's range, and then returns that value |
| Radix.ConvertToBase10Meaning | ShamirSecretSharing.java:13-15 | decoding succeeds exactly when the text is an optional sign followed by one or more digits of a radix in 2..36 and its value fits a long; it then returns Σ digit·radix^position, negated after a leading `-` |
| Radix.ConvertToBase10Failures | ShamirSecretSharing.java:14 | decoding fails on the empty string, on a lone `+` or `-`, on any character that is neither a digit of the radix nor a leading sign, and on a numeral whose value leaves the long range |
| Radix.HornerIsPositional | ShamirSecretSharing.java:14 | the parser's left-to-right fold (value·radix + digit) equals the positional sum Σ digit·radix^position |
| Radix.ToDigitsCorrect | ShamirSecretSharing.java:14 | for every v ≥ 0, the canonical digits of v in a radix (`Long.toString(v, radix)` of a non-negative v) form a non-empty string of digits of that radix whose value is v |
| Radix.ConvertToBase10RoundTrip | ShamirSecretSharing.java:14 | decoding the canonical text of any long in any radix 2..36 gives that long back |
| Radix.HexFF | ShamirSecretSharing.java:14 | `"ff"` in base 16 decodes to 255 |
| Radix.MinusHexFF | ShamirSecretSharing.java:14 | `"-FF"` in base 16 decodes to -255; upper-case digits are accepted |
| Radix.DecimalRejectsHexDigits | ShamirSecretSharing.java:14 | `"ff"` in base 10 fails with a bad digit |
| Radix.LongBounds | ShamirSecretSharing.java:14 | -2^63 decodes in every radix, while +2^63 is out of range |
| Radix.ParseInt | ShamirSecretSharing.java:59 | every index `Integer.parseInt` returns lies in the int range |
| Radix.ParseIntMeaning | ShamirSecretSharing.java:59 | `Integer.parseInt` succeeds exactly when the name is an optional sign followed by one or more decimal digits and its value fits an int; it then returns that value |
| Lagrange.LagrangeInterpolation | ShamirSecretSharing.java:18-35 | for points with distinct x, the nested loops return Σ_i y_i · Π_{j≠i} (0 - x_j)/(x_i - x_j), computed exactly |
| Lagrange.Exact | ShamirSecretSharing.java:17-35 | for distinct nodes, interpolation reproduces the value at 0 of every polynomial of degree below the number of nodes that passes through the points |
| Lagrange.ConstantTermRecoversSecret | ShamirSecretSharing.java:17-35 | when every point lies on a polynomial c of degree below the number of points, `lagrangeInterpolation` returns c's constant coefficient, which is the secret |
| Lagrange.WeightsSumToOne | ShamirSecretSharing.java:25-33 | the basis values L_i(0) of a non-empty list of distinct nodes sum to 1 |
| Lagrange.PartitionOfUnity | ShamirSecretSharing.java:25-33 | the inductive step behind it: for distinct nodes xs + [a], the basis values of the extended list sum to 1 |
| Lagrange.ConstantTermOfConstant | ShamirSecretSharing.java:25-33 | if every y is the same value, the result is that value |
| Lagrange.ConstantTermSmall | ShamirSecretSharing.java:19-33 | no points give 0; a single point (x, y) gives y, because the inner loop skips j = i and the basis stays 1 |
| Lagrange.InterpolateLinear | ShamirSecretSharing.java:25-33 | the result is linear in the y values (scaling or adding y vectors scales or adds results); the basis values depend on the x values only |
| Lagrange.SecretOfTwoShares | ShamirSecretSharing.java:18-35 | (1, 5), (2, 9) give 1 |
| Lagrange.SecretOfThreeShares | ShamirSecretSharing.java:18-35 | (1, 6), (2, 11), (3, 18) give 3 |
| Interpolant.Interpolates | ShamirSecretSharing.java:17-35 | for points with distinct x there is a polynomial of degree below the number of points that passes through every point (built in Newton's form) |
| Interpolant.InterpolateIsNewtonPoly | ShamirSecretSharing.java:18-35 | the nested loops compute the value at 0 of that interpolating polynomial |
| Interpolant.DistinctXReordered | ShamirSecretSharing.java:27-30 | reordering points with distinct x keeps the x distinct, so no reordering introduces a zero denominator |
| Interpolant.ConstantTermOrderIndependent | ShamirSecretSharing.java:18-35 | for points with distinct x, every reordering gives the same result: the secret does not depend on the order of the shares |
| Shares.DecodeEntryCases | ShamirSecretSharing.java:59-64 | a share member becomes a point exactly when its name is a decimal numeral within the int range and its value a numeral of its base within the long range; the point is (value of the name, value of the value); a bad name is reported before a bad value |
| Shares.ShareEntries | ShamirSecretSharing.java:54-57 | the members that become points are exactly those not named `"keys"` |
| Shares.BuildPoints | ShamirSecretSharing.java:54-65 | the loop over the members returns the points built in member order with `"keys"` skipped, or the first member's failure |
| Shares.PointsOfMeaning | ShamirSecretSharing.java:54-65 | building succeeds iff every share member decodes; it then yields one point per share member, in order; otherwise the error is that of the first share member that fails to decode |
| Shares.PointsOfAppend | ShamirSecretSharing.java:54-65 | building over a + b is building over a then over b; a failure in a stops everything |
| Shares.KeysSkipped | ShamirSecretSharing.java:55-57 | a `"keys"` member contributes nothing wherever it stands |
| Shares.SamplePoints | ShamirSecretSharing.java:54-65 | a document with `"keys"` and shares 1: `"4"` (base 10), 2: `"111"` (base 2), 3: `"12"` (base 10), 6: `"213"` (base 4) yields (1, 4), (2, 7), (3, 12), (6, 39) |
| Shares.SelectFirst | ShamirSecretSharing.java:68 | `subList(0, k)` succeeds iff 0 ≤ k ≤ the number of points, and then yields exactly the first k points; otherwise it fails, reporting k and the count |
| Shares.CheckDistinctX | ShamirSecretSharing.java:27-30 | reports whether the selected points have pairwise distinct x, which is when no denominator x_i - x_j is zero |
| Shares.FindConstantTerm | ShamirSecretSharing.java:54-71 | build, select and interpolate agree with the reconstruction function, errors included |
| Shares.ReconstructFindsSecret | ShamirSecretSharing.java:67-71 | when the first k shares have distinct x and lie on a polynomial of degree below k, the result is that polynomial's constant coefficient |
| Shares.ReconstructIgnoresLaterShares | ShamirSecretSharing.java:67-68 | once every member decodes and 0 ≤ k ≤ the number of shares already present, appending further well-formed shares never changes the result |
| Shares.ReconstructReportsFirstBadShare | ShamirSecretSharing.java:59-63 | the first share member that fails to decode is the error reported, whatever k is |
| Shares.ReconstructBadThreshold | ShamirSecretSharing.java:68 | with well-formed shares, a negative k or a k larger than the number of shares fails with that k and that number |
| Shares.ReconstructRepeatedX | ShamirSecretSharing.java:59-71 | two selected members whose names parse to the same x (for example `"1"` and `"01"`) fail with `RepeatedX` |
| Shares.SampleSecret | ShamirSecretSharing.java:39-71 | the sample document above with k = 3 gives the secret 3, from (1, 4), (2, 7), (3, 12) on x² + 3 |
| Outliers.FindWrongPoints | ShamirSecretSharing.java:75-84 | the loop returns the order-preserving filter of the points with y > 10^14 |
| Outliers.WrongPointsMembers | ShamirSecretSharing.java:78-82 | a point is reported iff it is an input point with y > 10^14 |
| Outliers.WrongPointsAllWrong | ShamirSecretSharing.java:79-80 | every reported point is over the threshold |
| Outliers.WrongPointsAppend | ShamirSecretSharing.java:78-82 | the filter distributes over concatenation, so the input order is kept |
| Outliers.WrongPointsSingle | ShamirSecretSharing.java:79-80 | a single point is reported iff its y exceeds 10^14 |
| Outliers.WrongPointsExtremes | ShamirSecretSharing.java:78-82 | points all over the threshold come back unchanged; points all at or under it give nothing |
| Outliers.WrongPointsIdempotent | ShamirSecretSharing.java:75-84 | filtering twice is filtering once |
| Outliers.WrongPointsExample | ShamirSecretSharing.java:79 | on (1, 5), (2, 2·10^14) only the second point is reported |

## Left out

- Reading the document is not modelled: Gson, `FileReader` and `reader.close()` (lines 41-44 and 114-117) are file I/O through a foreign library. The members arrive as a given sequence of (name, base, value) entries, in the object's iteration order, which the model does not fix.
- Missing or mistyped JSON fields are not modelled. In the source, a share member without `"base"` or `"value"`, or a non-object member, fails inside Gson or on a null dereference. Here every entry carries both fields.
- `keys.n` and `keys.k` (lines 49-51) are not modelled: n is read but never used, and k is taken as a parameter.
- `main` and every `System.out.println` (lines 86-110) are not modelled: console output.
- `findPointsFromTestCase` (lines 113-133) is not modelled apart from its loop. The loop is the same as lines 54-65 and is `BuildPoints`; the rest is file I/O.
- IEEE-754 `double` arithmetic is not modelled. Interpolation is exact over `real`, so rounding is not captured, including the loss of precision for y above 2^53.
- Lagrange.LagrangeInterpolation: requires pairwise-distinct x. With a repeated x the source divides by zero and returns Infinity or NaN rather than throwing. The model's reconstruction reports `RepeatedX` in that case instead.
- Lagrange.Factor: yields 0 on a repeated x only so that it is total; no contract depends on that value.
- Radix.Digit: covers the ASCII digits `0-9`, `a-z` and `A-Z` only. Java's `Character.digit` also accepts other Unicode decimal digits and full-width letters.
- Radix.ConvertToBase10: distinguishes the kinds of failure (bad radix, empty, lone sign, bad digit, out of range). This refines the source's single `NumberFormatException`.
- Shares.SelectFirst: one error, `BadThreshold`, stands for both the `IndexOutOfBoundsException` (k > size) and the `IllegalArgumentException` (k < 0) of `subList`.
- Shares.Entry: the base is taken as the `int` from `getAsInt`. Gson's own conversion of a non-integral or huge JSON number to int is not modelled.
- Shares.Reconstruct: independence from order is proved for the selected points (`Interpolant.ConstantTermOrderIndependent`), not for reorderings of the document's members, because reordering the members can change which k points `subList(0, k)` selects.
- Outliers.IsWrong: compares the long y and the double 10^14 as integers. That double is exactly 10^14, and every long up to 2^53 converts exactly, so for the values that matter the comparison `y > 1e14` is the integer test `y > 100000000000000`. A long far above 2^53 may round on conversion, but it stays far above the threshold, so the answer is the same.
