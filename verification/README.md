# Age-range parsing and classification of the sample-frame generator

The sample-frame generator lets its user type custom age brackets as free text
such as `20-33,34-41,42-50`. It turns that text into closed integer intervals
(`parse_rangos`) and labels each respondent's age with the first interval that
contains it (`clasificar_rango_personalizado`). This project models those two
functions and the Python string built-ins they rely on, and proves what they
guarantee.

- `wrappers.dfy` (`Wrappers`): the `Option` type. It stands for the classifier's
  `None` or label.
- `seqs.dfy` (`Seqs`): small sequence facts, plus `FilterMap`. `FilterMap` is the
  in-order "convert each element, keep the ones that succeed" walk that the
  parser's loop performs.
- `text.dfy` (`Text`): models of these Python built-ins on `seq<char>`:
  - `str.split` with a one-character separator;
  - `str.join`;
  - `str.strip` over the full `str.isspace` set;
  - `str.isdigit`, restricted to ASCII digits;
  - `int()` on a digit string;
  - `str()` on a non-negative integer.

  Split, strip, `int()` and `str()` each come with an inverse or an independent
  characterisation; `isdigit` is a plain definition.
- `age_ranges.dfy` (`AgeRanges`): the model of the two functions.
  - `ParseToken` handles one comma-separated token.
  - `ParseRanges` and the loop-shaped `ParseRangesLoop` handle the whole text.
  - `Classify` does the classification.
  - `Denotes` is a grammar-like description of valid tokens. It does not use
    split or strip. The parser is proved equivalent to it.
  - `Label` is the `f"{inicio}-{fin}"` label, with round-trip lemmas.

A range is a pair of `nat`s. The bounds come from digit strings, so they are
never negative. Python integers are unbounded, and so are Dafny's.

## Model

| member | source | states |
|---|---|---|
| AgeRanges.Contains | app.py:29 | The definition of `inicio <= edad <= fin`: the age lies in the range, both bounds included |
| AgeRanges.Label | app.py:30 | The definition of `f"{inicio}-{fin}"`: str(start), a hyphen, str(end) |
| AgeRanges.ParseToken | app.py:20-24 | Every range it yields has start < end; which tokens it accepts is stated by ParseTokenIff |
| AgeRanges.ParseTokenIff | app.py:20-24 | A token parses to r exactly when it spells r: optional whitespace, a digit string, one hyphen, a digit string, optional whitespace, with start < end |
| AgeRanges.ParseTokenSound | app.py:20-24 | An accepted token spells the range it yields |
| AgeRanges.ParseTokenComplete | app.py:20-24 | A token that spells r yields exactly r |
| AgeRanges.ParseStrippedToken | app.py:20-24 | A token that strips to "a-b" with digit strings a, b yields (int(a), int(b)) when int(a) < int(b), and nothing otherwise |
| AgeRanges.AcceptedTokenCharacters | app.py:20-21 | An accepted token contains only digits and hyphens once stripped, so whitespace inside a token rejects it |
| AgeRanges.ParseTokenIgnoresPadding | app.py:20 | Whitespace around a token does not change whether or how it parses |
| AgeRanges.ParseTokenLeadingZero | app.py:22 | A leading zero on the start does not change the result, because int() ignores it |
| AgeRanges.ParseRanges | app.py:17-25 | Total on every string; every range returned has start < end |
| AgeRanges.ParseRangesLoop | app.py:17-25 | `parse_rangos`'s `for` loop, appending to `rangos`, returns the same list as ParseRanges, with at most one range per token |
| AgeRanges.ParseRangesCount | app.py:19 | There are never more ranges than tokens, which are the number of commas plus one |
| AgeRanges.ParseRangesAppend | app.py:19-24 | Order is preserved: parsing "s1,s2" gives the ranges of s1 followed by those of s2 |
| AgeRanges.ParseRangesOneToken | app.py:19-24 | A comma-free text gives its single token's range, or nothing |
| AgeRanges.ParseRangesSound | app.py:19-24 | Every returned range comes from a token, at a position the lemma returns, that spells it |
| AgeRanges.ParseRangesComplete | app.py:19-24 | Every token that spells a range contributes that range to the result |
| AgeRanges.ParseRangesBlank | app.py:17-25 | Empty or whitespace-only input yields the empty list |
| AgeRanges.LabelRoundTrip | app.py:30 | Parsing the label of a range with start < end gives back exactly that range |
| AgeRanges.RenderRoundTrip | app.py:17-25 | Any non-empty list of increasing ranges, written as labels joined by commas, parses back to the same list |
| AgeRanges.LabelInjective | app.py:30 | Different ranges get different labels |
| AgeRanges.LabelSplits | app.py:30 | A label splits on '-' into the two bounds' decimal strings |
| AgeRanges.Classify | app.py:27-31 | Returns None exactly when no range contains the age (bounds inclusive); otherwise the label of the first range that does |
| AgeRanges.ClassifyFirstMatch | app.py:28-30 | Whenever range i is the first one containing the age, its label is the answer |
| AgeRanges.ClassifyAppend | app.py:28-31 | With overlapping lists, the earlier list wins; the later one is consulted only when the earlier one has no match |
| AgeRanges.ClassifyParsedAppend | app.py:17-31 | On parsed text, ranges written before a comma take precedence over those written after it |
| AgeRanges.WorkedExample | app.py:17-31 | The text "20-33,34-41,42-50" parses to the ranges (20,33), (34,41), (42,50) in order; ages 25, 41 and 51 then get "20-33", "34-41" and None |
| AgeRanges.ExampleRender | app.py:30 | The example's ranges written as labels joined by commas are the text "20-33,34-41,42-50" |
| AgeRanges.ExampleClassify | app.py:27-31 | With ranges 20-33, 34-41, 42-50, ages 25, 34 and 41 get the first and second labels, with inclusive bounds |
| AgeRanges.ExampleUnclassified | app.py:31 | With the same ranges, age 51 gets None |
| Text.Split | app.py:19-20 | str.split always returns at least one piece |
| Text.SplitPiecesLackSeparator | app.py:19-20 | No piece produced by str.split contains the separator |
| Text.SplitCount | app.py:19-20 | str.split returns one more piece than there are separators |
| Text.SplitThenJoin | app.py:19-20 | Joining the pieces with the separator rebuilds the input |
| Text.JoinThenSplit | app.py:19-20 | Splitting a join of separator-free pieces gives the pieces back |
| Text.SplitAround | app.py:19 | Splitting at one separator occurrence concatenates the splits of both sides |
| Text.SplitWithoutSeparator | app.py:19-20 | A separator-free string splits into itself alone |
| Text.Strip | app.py:20 | The definition of `r.strip()`: leading, then trailing characters of the `str.isspace` set removed |
| Text.TrimStartSplits | app.py:20 | Leading strip removes a whitespace prefix and stops at a non-space character |
| Text.TrimEndSplits | app.py:20 | Trailing strip removes a whitespace suffix and stops at a non-space character |
| Text.StripDecompose | app.py:20 | Every string is its stripped form with whitespace on both sides, and the stripped form has no whitespace at either end |
| Text.StripPadded | app.py:20 | strip is characterised by its result: a core with no whitespace at either end, surrounded by whitespace, strips to that core |
| Text.StripIgnoresPadding | app.py:20 | Extra whitespace around a string does not change its stripped form |
| Text.StripOfTrimmed | app.py:20 | A string with no whitespace at either end is unchanged by strip |
| Text.StripOfBlank | app.py:20 | A whitespace-only string strips to the empty string |
| Text.IsDigits | app.py:21 | The definition of `isdigit()`: a non-empty string of the digits 0-9 |
| Text.ToNat | app.py:22 | The definition of `int()` on a digit string: its decimal value, most significant digit first |
| Text.FromNat | app.py:30 | str(n) is a canonical decimal string (no leading zeros) that int() reads back as n |
| Text.FromNatOfToNat | app.py:22 | For canonical digit strings, int() followed by str() gives back the string |
| Text.ToNatLeadingZero | app.py:22 | int() ignores a leading zero |
| Text.CanonicalPositive | app.py:22 | A digit string that does not start with '0' denotes a positive number |

## Left out

- The Streamlit page setup, widgets and layout (app.py:2, 13-14) are user interface with no logic to model.
- `convertir_excel_config` (app.py:33-36) only writes data frames to an Excel workbook in memory. That is I/O through pandas and openpyxl, and the function is shown only in part.
- scikit-learn's `train_test_split`, plotly, matplotlib, tempfile and reportlab are imported (app.py:4-11) and not called anywhere in app.py up to where its text ends, at app.py:36. Up to that point pandas appears only in `convertir_excel_config`. Nothing that uses these libraries is modelled.
- `IsDigit` accepts only '0'..'9'. Python's `str.isdigit` also accepts other Unicode digits such as '²' or '٣', on which `int()` then fails or reads another digit system. Those inputs are not modelled.
- Python refuses to convert digit strings longer than 4300 characters with `int()` by default. The model has no such limit.
- `Classify` takes an integer age and ranges with `nat` bounds, the only kind `parse_rangos` produces. Non-integer ages (floats, NaN) and ranges with negative bounds, such as `(-5, 3)` labelled "-5-3", are not modelled.
- `Text.Split` models `str.split` with an explicit one-character separator only. That is the only form the parser uses. Splitting on whitespace with no argument, and `maxsplit`, are not modelled.
