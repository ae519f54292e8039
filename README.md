# TSender-UI amount pipeline, modelled in Dafny

This project models the two pure utility files at the heart of the
TSender-UI airdrop front end and proves properties about them:

- `src/utils/calculate/calculate.ts` turns the free text a user types into
  the recipients' amounts.
  - `calculateAmountsInWei` splits the text on runs of `,` and `\n`, trims
    each piece and drops the empty ones. Each remaining segment goes through
    `parseEther`; segments it rejects are dropped.
  - `calculateTotalInWei` adds the resulting list, starting from 0.
  - `parseAmounts` uses the same segmentation but converts each segment with
    JavaScript's `Number`. A segment `Number` rejects becomes 0 instead of
    being dropped.
- `src/utils/format/format.ts` shows a token amount. `formatTokenAmount` and
  `formatBalance` return "0" when the amount or the decimals are missing.
  Otherwise they move the amount to 18 decimals and render it with
  `formatEther`.

The model is pure: datatypes, recursive functions and lemmas. There are no
classes and no loops, because the source has neither.

Modules, one per file:

- `Wrappers` (`wrappers.dfy`): `Option`. `None` stands for `null`/`undefined`
  on input and for a thrown error on output.
- `SeqFacts` (`seqfacts.dfy`): small facts about sequence concatenation.
- `Decimal` (`decimal.dfy`): digit strings and their values, as used by
  `BigInt(text)` and `n.toString()`, plus the padding and trailing-zero
  stripping of fixed-point formatting.
- `Text` (`text.dfy`): `String.prototype.trim()` and `split(/[,\n]+/)`.
- `Ether` (`ether.dfy`): viem's `parseUnits`/`parseEther` and
  `formatUnits`/`formatEther`, specified on the canonical decimal grammar.
  The lemmas prove that each inverts the other.
- `Calculate` (`calculate.dfy`): `calculate.ts`.
- `Format` (`format.dfy`): `format.ts`.
- `Scenarios` (`scenarios.dfy`): the situations in the repository's unit
  tests, stated for all inputs of the same shape.

A few representation choices:

- Amounts are unbounded integers, like JavaScript's `bigint`.
- Text is a sequence of characters. A Dafny `char` is a Unicode scalar value, not a UTF-16 code unit, so a lone surrogate cannot be represented; this does not affect ',', '\n' or the white space that trim removes, all of which are single scalar values.
- Absent arguments are `None`.
- `Number()` is a parameter `toNumber: string -> Option<real>`, where `None`
  means NaN.
- The `RangeError` that `BigInt` throws for 19 to 341 decimals is `None`. From 342 decimals on, `10 ** (18 - decimals)` underflows to the double 0, so the scaled amount is 0 and the text is "0".

## Model

| member | source | states |
|---|---|---|
| Text.Trim | src/utils/calculate/calculate.ts:10 | the trimmed text is a slice of the input with only white space before and after it; it is empty exactly when the input is all white space, and otherwise neither starts nor ends with white space |
| Text.TrimKeeps | src/utils/calculate/calculate.ts:10 | a text with no white space is returned unchanged by trim |
| Text.TrimKeepsPlain | src/utils/calculate/calculate.ts:10 | trimming a piece without separators leaves no separator in it |
| Text.Split | src/utils/calculate/calculate.ts:9 | splitting always yields at least one piece (the empty text gives one empty piece) |
| Text.SplitPiecesPlain | src/utils/calculate/calculate.ts:9 | no piece of the split contains ',' or '\n' |
| Calculate.MapEach | src/utils/calculate/calculate.ts:10 | the mapped list has the same length, and element k is the function applied to piece k |
| Calculate.DropEmpty | src/utils/calculate/calculate.ts:11 | the filtered list is no longer than the input, holds no empty string, and holds every non-empty piece of the input |
| Calculate.DropEmptyConcat | src/utils/calculate/calculate.ts:11 | the filter distributes over concatenation, so the kept pieces stay in input order |
| Calculate.DropEmptyKeeps | src/utils/calculate/calculate.ts:11 | every piece the filter keeps was in the input |
| Calculate.ParseEach | src/utils/calculate/calculate.ts:12-18 | one result per segment, element k being parseEther of segment k (None for a segment it throws on) |
| Calculate.KeepParsed | src/utils/calculate/calculate.ts:19 | the kept amounts are no more than the conversions, each kept amount is a successful conversion, and every successful conversion is kept |
| Calculate.KeepParsedConcat | src/utils/calculate/calculate.ts:19 | the null filter distributes over concatenation, so the kept amounts stay in input order |
| Calculate.KeepParsedCount | src/utils/calculate/calculate.ts:19 | nothing is dropped exactly when every conversion succeeded |
| Calculate.ZeroFill | src/utils/calculate/calculate.ts:39-45 | one number per segment, the converted value where Number accepts the segment and 0 where it gives NaN |
| Calculate.TotalFromIsSum | src/utils/calculate/calculate.ts:27 | the reduce from any start value is that value plus the mathematical sum |
| Calculate.TotalIsSum | src/utils/calculate/calculate.ts:26-28 | calculateTotalInWei equals the sum of the list |
| Calculate.SumConcat | src/utils/calculate/calculate.ts:27 | the sum of a concatenation is the sum of the sums |
| Calculate.TotalConcat | src/utils/calculate/calculate.ts:26-28 | the total of a concatenation is the sum of the two totals |
| Calculate.SumPermutation | src/utils/calculate/calculate.ts:27 | two lists with the same multiset of elements have the same sum |
| Calculate.TotalPermutation | src/utils/calculate/calculate.ts:26-28 | the total does not depend on the order of the amounts |
| Calculate.SumNonNegative | src/utils/calculate/calculate.ts:27 | a list of non-negative amounts has a non-negative sum |
| Calculate.TotalBoundsEach | src/utils/calculate/calculate.ts:26-28 | with no negative amount, every amount lies between 0 and the total |
| Calculate.CleanConcat | src/utils/calculate/calculate.ts:10-11 | trim-then-drop-empty on a concatenation is the concatenation of the results |
| Calculate.SegmentsAtSeparator | src/utils/calculate/calculate.ts:9-11 | one separator between two texts: the segments of the whole are those of the left text followed by those of the right |
| Calculate.SegmentsAtSeparatorRun | src/utils/calculate/calculate.ts:9-11 | the same for any non-empty run of ',' and '\n' |
| Calculate.BlankHasNoSegments | src/utils/calculate/calculate.ts:9-11 | white space alone yields no segment |
| Calculate.SingleSegment | src/utils/calculate/calculate.ts:9-11 | a text with no separator is one segment, its trimmed self, or none if that is empty |
| Calculate.SegmentsArePlain | src/utils/calculate/calculate.ts:9-11 | every segment is non-empty, contains no separator and neither starts nor ends with white space |
| Calculate.EmptyInput | src/utils/calculate/calculate.ts:4-6 | null, undefined, the empty text and white space alone give the empty list, for both parsers |
| Calculate.GuardAgreesWithPipeline | src/utils/calculate/calculate.ts:3-24 | the early return for blank text agrees with the split/trim/filter/parse pipeline, so both parsers are that pipeline on every text |
| Calculate.AmountsAtSeparatorRun | src/utils/calculate/calculate.ts:8-19 | the amounts of `a + run + b` are the amounts of `a` followed by those of `b` (likewise for parseAmounts): order is kept |
| Calculate.SeparatorRunsCollapse | src/utils/calculate/calculate.ts:9 | any run of ',' and '\n' gives the same amounts as a single ',' |
| Calculate.LeadingSeparatorsIgnored | src/utils/calculate/calculate.ts:9-11 | separators before the first entry change nothing |
| Calculate.TrailingSeparatorsIgnored | src/utils/calculate/calculate.ts:9-11 | separators after the last entry change nothing |
| Calculate.SingleAmount | src/utils/calculate/calculate.ts:8-19 | a text with no separator gives parseEther of its trimmed self if that succeeds, else nothing; parseAmounts gives its number, or 0, or nothing when it is blank |
| Calculate.AmountsCount | src/utils/calculate/calculate.ts:11-19 | at most one amount per segment, and exactly one per segment if and only if parseEther accepts every segment |
| Calculate.AmountsComeFromSegments | src/utils/calculate/calculate.ts:12-19 | every amount returned is parseEther's value for some segment |
| Calculate.ParseAmountsShape | src/utils/calculate/calculate.ts:35-45 | parseAmounts has one entry per segment, in order, with 0 for each segment Number rejects, so it is never shorter than calculateAmountsInWei's result |
| Ether.ParseUnitsAccepts | src/utils/calculate/calculate.ts:13-17 | parseEther succeeds exactly on digits optionally followed by '.' and 1 to 18 fraction digits; anything else is the throw that the caller turns into null |
| Ether.ParseDecimalParts | src/utils/calculate/calculate.ts:14 | `I` and `I.F` are read as the fixed-point value of their whole and fraction digits |
| Ether.ScaledValueArithmetic | src/utils/calculate/calculate.ts:14 | `I.F` is worth I * 10^18 + F * 10^(18 - n) for n fraction digits |
| Ether.ParseWhole | src/utils/calculate/calculate.ts:14 | a digit string without a point is that many whole units |
| Ether.FormatWhole | src/utils/format/format.ts:9 | exact multiples of 10^decimals are written as the integer, with no '.' |
| Ether.FormatZero | src/utils/format/format.ts:9 | zero is written "0" |
| Ether.FormatBelowOne | src/utils/format/format.ts:9 | a positive amount below one unit is written "0." and its zero-padded fraction without trailing zeros |
| Ether.FormatCanonical | src/utils/format/format.ts:9 | the text has no superfluous leading zero, and a fraction only if non-zero, with no trailing zero |
| Ether.ParseFormat | src/utils/format/format.ts:9 | reading the written text back at the same decimals gives the amount |
| Ether.FormatParse | src/utils/calculate/calculate.ts:14 | writing back a parsed canonical text gives the same text |
| Ether.FormatNegative | src/utils/format/format.ts:9 | a negative amount is written as '-' before the text of its magnitude |
| Ether.FormatUnitsChars | src/utils/format/format.ts:9 | the text is never empty and holds only digits, '.' and '-' |
| Ether.FormatRescale | src/utils/format/format.ts:8-9 | scaling by 10^k and writing with k more decimals gives the same text |
| Ether.MagnitudeRescale | src/utils/format/format.ts:8-9 | the same for non-negative magnitudes |
| Decimal.ScaleIsProduct | src/utils/format/format.ts:8 | digit-by-digit scaling is multiplication by 10^k |
| Format.ToEtherUnits | src/utils/format/format.ts:8 | the scaling fails (BigInt throws) exactly for 19 to 341 decimals; from 342 decimals on the power underflows to 0 and the scaled amount is 0 |
| Format.ToEtherUnitsIsProduct | src/utils/format/format.ts:8 | the scaled amount is amount * 10^(18 - decimals) |
| Format.FormatTokenAmount | src/utils/format/format.ts:3-10 | "0" when the amount or the decimals are missing; an error exactly for 19 to 341 decimals; "0" from 342 decimals on; for at most 18 decimals the amount written at its own decimals |
| Format.FormatBalance | src/utils/format/format.ts:12-19 | formatBalance returns what formatTokenAmount returns, for every input |
| Format.ShownAsEther | src/utils/format/format.ts:8-9 | the shown text is formatEther of the amount scaled to 18 decimals |
| Format.ZeroShowsAsZero | src/utils/format/format.test.ts:21-23 | a zero amount shows as "0" for every supported number of decimals |
| Format.WholeTokensShowAsDigits | src/utils/format/format.test.ts:5-11 | a whole number of tokens shows as that number, with no '.' |
| Format.SmallAmountShowsFraction | src/utils/format/format.test.ts:13-19 | an amount below one token shows as "0." and its zero-padded fraction |
| Format.ShownTextIsExact | src/utils/format/format.test.ts:29-43 | the shown text is canonical and parses back at the token's decimals to the amount |
| Format.EtherTextReadsBack | src/utils/calculate/calculate.ts:3-24 | calculateAmountsInWei of formatEther(x) is [x] for every x >= 0 |
| Format.ShownAmountReadsBack | src/utils/format/format.ts:3-10 | calculateAmountsInWei of what formatTokenAmount shows is the amount in wei |
| Scenarios.WholeEntry | src/utils/calculate/calculate.test.ts:23-25 | a text of plain digits is one entry: that many ether, in wei |
| Scenarios.RejectedEntry | src/utils/calculate/calculate.test.ts:151-153 | an entry parseEther rejects contributes nothing |
| Scenarios.ThreeEntries | src/utils/calculate/calculate.test.ts:143-149 | three entries between separator runs give the three results in order |
| Scenarios.CommaSeparated | src/utils/calculate/calculate.test.ts:37-43 | "x,y,z" gives the results of x, y and z in order |
| Scenarios.AbcNotANumber | src/utils/calculate/calculate.test.ts:100 | parseEther rejects "abc" |
| Scenarios.RejectedBetween | src/utils/calculate/calculate.test.ts:99-104 | a rejected entry between two accepted ones is dropped and the others keep their order |
| Scenarios.AbcDropped | src/utils/calculate/calculate.test.ts:151-153 | "abc" yields no amount |
| Scenarios.PiEther | src/utils/calculate/calculate.test.ts:27-29 | parseEther("3.14") is 3140000000000000000 |
| Scenarios.OneAbcThree | src/utils/calculate/calculate.test.ts:99-104 | "1,abc,3" gives [10^18, 3 * 10^18] |
| Scenarios.UsdcWhole | src/utils/format/format.test.ts:9-11 | 1234000000 units at 6 decimals show as "1234" |
| Scenarios.UsdcSmall | src/utils/format/format.test.ts:17-19 | 123 units at 6 decimals show as "0.000123" |
| Scenarios.HundredWei | src/utils/format/format.test.ts:13-15 | 100 units at 18 decimals show as "0.0000000000000001" |

## Left out

- Text.Split: its own contract says only that there is at least one piece. What the pieces are is stated by Text.SplitPiecesPlain and the Calculate segmentation lemmas.
- Calculate.ParseAmounts: JavaScript's `Number()` is the `toNumber` parameter. Float conversion, signs, exponent notation and NaN detection are not modelled; only the segmentation and the keep-as-0 policy are.
- Ether.ParseUnitsAccepts, Ether.ParseUnits: the model accepts only the canonical grammar. viem also accepts forms such as ".5", "1.", a leading sign, and more than 18 fraction digits (which it rounds). The model rejects them; no test of the repository uses them.
- Ether.FormatUnits is written from viem's documented behaviour: the integer part, then '.' and the fraction without trailing zeros when it is non-zero, and '-' for negative values. viem's code is not part of this model.
- Format.FormatTokenAmount takes decimals as a natural number: negative or fractional decimals are not modelled.
- The outer `try`/`catch` and its `console.error` in calculate.ts are not modelled. Nothing in the pipeline throws outside the per-segment `parseEther` call, so that branch cannot be reached.
- Text is a sequence of Unicode scalar values, not of JavaScript's UTF-16 code units. A string holding a lone surrogate cannot be represented. Surrogate pairs do not affect separators or trimming.
- `calculateAmountsInWei` has no decimals argument; it always scales by 10^18 through `parseEther`.
- Most of the unit tests' concrete values ("10", "1,,3", "abc,def,xyz" and so on) are stated for every input of the same shape rather than as literal computations. Only "3.14", "1,abc,3" and three formatTokenAmount cases are proved for their literal values.
- `src/utils/calculateTotal/caculateTotal.ts` (floating-point sum of `parseFloat` values) is not part of this model, and neither are the React components, wallet reads and build configuration.
