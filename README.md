# qtrn formatting helpers in Dafny

This project models `utils/util.go` of qtrn, a terminal stock-quote viewer.
The file holds stateless helpers that turn quote data into terminal text:

- the price direction of a quote;
- bold and direction-coloured text written with ANSI select-graphic-rendition escapes;
- the market-state label;
- the small-number branch of the volume abbreviation;
- the clean-up of `&nbsp;` in scraped text;
- the two timestamp renderings;
- the `int` and string conversions.

Three modules make up the model:

- `GoStrings` (`strings.dfy`) holds the parts of Go's `strings` package that the helpers call: `Split` on a one-character separator, `Join`, `Contains`, and `Replace` with an empty replacement (`RemoveAll`).
- `GoStrconv` (`strconv.dfy`) holds the parts of Go's `strconv` package: `FormatUint` and `Itoa`, and base-10 `ParseUint` and `Atoi` for a 64-bit `int`. `ParseUint` follows Go's digit loop, which stops early on overflow.
- `Util` (`util.dfy`) holds the helpers themselves.

All of the helpers are written as expressions except `Color`, which is imperative. `Color` builds its result in a loop, so it is a method whose loop is proved equal to the pure layout `ColorSpec`. The properties of `Color` are proved as lemmas about `ColorSpec`.

Some of the code's behaviour differs from what a reader might expect. The model follows the code:

- `Color` does not keep the input's spacing. It writes exactly one space, right after the first token, and abuts every later token. A one-token input gains a trailing space. The layout coincides with "tokens joined by single spaces" exactly when the input has one space; see `ColorKeepsSpacingIffTwoTokens`.
- `ToInt` does not always give 0 for text it cannot parse. It takes Go's `strconv.Atoi` result with the error dropped. Syntax errors give 0. A well-formed decimal outside the 64-bit `int` gives the nearest bound, `9223372036854775807` or `-9223372036854775808`. Text that is not well formed also gives that bound, not 0, when the digits after its sign pass 2^64 - 1 before the first other character. An example is `9223372036854775808000000x`. Text such as `9223372036854775808x`, whose leading digits fit 64 unsigned bits, gives 0.
- `Strip` removes `&nbsp;` in a single left-to-right pass. Its output can still contain `&nbsp;`, for example for `&nb&nbsp;sp;`.

## Model

| member | source | states |
|---|---|---|
| Util.PriceDirection | utils/util.go:42-52 | Up exactly when the last price is above the previous close, Down exactly when it is below, Flat exactly when they are equal |
| Util.Bold | utils/util.go:56-58 | the result is `ESC[1m`, then the text, then `ESC[0m`, byte for byte |
| Util.MktStateF | utils/util.go:61-74 | the label is one of four; "Open" iff regular session, "Pre-Market" iff pre or pre-pre, "After-Hours" iff post or post-post, "Closed" for every other state |
| Util.Color | utils/util.go:77-103 | the loop's output equals the layout `ColorSpec` of the (signed) tokens; a Flat direction returns the text unchanged |
| Util.ColorCharCount | utils/util.go:87-101 | every token contributes one start and one reset sequence; the output holds exactly one space; every other character of the signed input occurs in the output exactly as often |
| Util.ColorMarkerCount | utils/util.go:93-98 | the output has two escape characters per token, that is 2 * (spaces in the input + 1), plus those already in the input |
| Util.ColorOneSpace | utils/util.go:95-100 | whatever the input's spacing, the coloured output contains exactly one space |
| Util.ColorDown | utils/util.go:81-98 | Down lays out the input's own tokens with the start code `ESC[31m` and the reset `ESC[0m` |
| Util.ColorUp | utils/util.go:82-89 | Up lays out the tokens with `ESC[32m`, and only the first token gains the leading "+" |
| Util.ColorDownSingleToken | utils/util.go:77-103 | a space-free text coloured Down is `ESC[31m` + text + `ESC[0m` + one trailing space |
| Util.ColorUpSingleToken | utils/util.go:77-103 | a space-free text coloured Up is `ESC[32m` + "+" + text + `ESC[0m` + one trailing space |
| Util.ColorKeepsSpacingIffTwoTokens | utils/util.go:95-100 | the output equals the tokens wrapped and joined by single spaces if and only if the input holds exactly one space |
| Util.ToUint64 | utils/util.go:114 | Go's `uint64(n)`: non-negative values are kept, negative ones wrap to n + 2^64, and the result fits 64 bits |
| Util.NumberFancyF | utils/util.go:112-120 | 0..999 print as plain decimal; 1000 and above go to the scaled rendering; a negative value goes to the scaled rendering of its 64-bit wrap-around |
| GoStrconv.FormatUint | utils/util.go:119 | the digits of n, non-empty, denoting n, without a leading zero |
| Util.Strip | utils/util.go:133-136 | a text without `&nbsp;` is only entity-decoded |
| GoStrings.RemoveAll | utils/util.go:134 | the text shrinks if and only if it contains the pattern; without the pattern it is unchanged; every character not in the pattern keeps its count |
| GoStrings.RemoveAllIsReplace | utils/util.go:134 | the result is exactly what Go's replacement loop `ReplaceFrom` builds: the text between successive occurrences found by left-to-right `Index` searches, in order, with each occurrence dropped |
| GoStrings.RemoveAllLength | utils/util.go:134 | the text loses exactly the pattern's length in characters per non-overlapping occurrence that Go's `strings.Count` finds (`CountFrom`, defined by repeated left-to-right `Index` searches) |
| GoStrings.CountPositive | utils/util.go:134 | the count of occurrences is positive exactly when the text contains the pattern |
| Util.StripSinglePass | utils/util.go:134 | one pass over `&nb&nbsp;sp;` leaves `&nbsp;` |
| Util.Pad2 | utils/util.go:146 | `%02d` below 100 writes two digits denoting the number |
| Util.DateF | utils/util.go:139-147 | "--" if and only if the timestamp is zero; otherwise at least 16 characters with ':' at 2 and 5, ' ' at 8 and '/' at 11 and 14 |
| Util.DateFS | utils/util.go:150-157 | "--" if and only if the timestamp is zero; otherwise at least 7 characters with '/' at 2 and 5 |
| Util.DateFExtendsDateFS | utils/util.go:139-157 | for a non-zero timestamp the long form is the clock text, one space, then the short form |
| Util.ToInt | utils/util.go:160-163 | a well-formed decimal gives its value clamped to 64-bit `int`; other text gives a non-zero result exactly when the digits after its sign pass 2^64 - 1 before the first other character, and that result is the bound of `int` on the side of its sign; shorter than 20 characters it gives 0 |
| GoStrconv.Atoi | utils/util.go:161 | no error exactly for well-formed in-range text; a syntax error carries 0; a range error carries `MinInt` when the text starts with '-' and `MaxInt` otherwise; text that is not well formed is a range error exactly when the digits after its sign pass 2^64 - 1 before the first other character |
| GoStrconv.ParseUint | utils/util.go:161 | the early-exit digit loop agrees with the closed form `ParseUintSpec` on every input |
| GoStrconv.ParseUintFacts | utils/util.go:161 | on a digit string the result is its value or, past 2^64 - 1, a range error; at most 19 characters never overflow |
| Util.ToString | utils/util.go:166-168 | the text is well formed and denotes v; it never has a '+', starts with '-' exactly for negative v, and its digits have no leading zero |
| GoStrconv.Itoa | utils/util.go:167 | the decimal text of v denotes v, with '-' exactly for negative values and no leading zero in the digits |
| Util.ToIntToString | utils/util.go:160-168 | parsing the printed text of any `int` gives it back |
| GoStrings.Split | utils/util.go:89 | at least one piece, even for the empty text |
| GoStrings.JoinSplit | utils/util.go:89 | joining the pieces with the separator gives the text back |
| GoStrings.SplitCount | utils/util.go:89 | there is one more piece than separators in the text |
| GoStrings.SplitSepFree | utils/util.go:89 | no piece contains the separator |
| GoStrings.SplitJoin | utils/util.go:89 | splitting the join of separator-free pieces gives the pieces back |
| GoStrings.SplitPrepend | utils/util.go:82-89 | text without a separator put in front lands in the first piece only |
| GoStrings.SplitSumCount | utils/util.go:89 | every character other than the separator survives splitting exactly as often |

## Left out

- Prices are mathematical reals. Go's float64 rounding and NaN are not modelled; with NaN the code's comparisons yield Flat.
- `Direction` is a Go `int`. Values other than 0, 1 and 2 are not modelled; the code treats them like Down in `Color`.
- The quote record and `finance.MarketState` are not part of this model. The market state is a datatype of the five named states plus `Other`.
- Util.NumberFancyF: the scaled rendering at or above 1000 is the parameter `scaled`. It is computed in floating point by `formatSuffixes` and `logn` (logarithm, floor, power, `%.2f`). That code indexes the suffix list out of range, and so panics, once the exponent reaches 5. This happens for values near 10^15 and above, and for every negative input, whose wrap-around exceeds 2^63. Neither the float arithmetic nor the panic is modelled.
- `NumberF` (comma grouping by the go-humanize library), `ToStringF` (`%.2f` on a float) and `combine` (`strings.Join` with a string separator) are not modelled. Their work happens in foreign or floating-point code.
- Util.Strip: entity decoding (`html.UnescapeString`) is the parameter `unescape`. So the contract only says that a text without `&nbsp;` is passed straight to it. The removal step's own properties are stated on `RemoveAll`, `RemoveAllIsReplace` and `RemoveAllLength`.
- Util.DateF and Util.DateFS: `time.Unix` and the host's time zone are the parameter `local`, which gives the calendar and clock fields. The contracts state the shape of the text, not the calendar arithmetic. The year is printed with `%d`, as `Itoa`.
- `GoStrings.RemoveAll` models `strings.Replace` only with an empty replacement and a non-empty pattern, the only way the helpers call it.
- Go strings are byte strings; here a `string` is a sequence of characters. Nothing modelled depends on the difference: every separator and pattern the helpers use (the space, `&nbsp;`, digits and signs) is ASCII, and lengths matter only for runs of ASCII digits.
