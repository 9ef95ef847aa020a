# Box-office table scraper: a verified model

`WebScraping/scrapingBoxOffice.py` loads the Cinetel box-office page and reads its results table.
For each `<tr>` it builds one record of ten keys:

- the rank `pos`;
- the title `titolo`;
- the first-screening date `prima_progr` and its ISO form `prima_progr_iso`;
- the country `nazione` and the distributor `distribuzione`;
- the four takings and attendance figures `incasso`, `presenze`, `incasso_al` and `presenze_al`.

It saves all the records as JSON and as CSV. The script also defines `clean_number`, a normaliser for the visible, euro-formatted figures such as `"€ 73.665.455"`. The scraper itself never calls it. Instead it reads the four hidden cells, which carry raw figures such as `73665455.48`, and passes them straight to `float()`.

This project models that core in Dafny. The modules are:

- `Wrappers` and `Failures` hold Python's `None` (`Option`) and the exceptions that end a run (`Result`, `Failure`).
- `Text` models `str.strip()`, `str.strip(chars)`, `str.replace` for single characters, and `str.isdigit()` with `int()` on digit strings.
- `Decimal` models `float()` on text made of digits and dots, as an exact real number, and `int()` on the result (truncation).
- `NumberNormalizer` models `clean_number`. It proves the chain of calls equal to one left-to-right pass: each digit is kept, each comma becomes a dot, and every other character is dropped. From that pass it classifies every outcome.
- `RowExtractor` models the record built from one row: its cell texts plus the hidden ISO `<span>`.
- `TableCollector` models the loop over the rows, as a method, and the CSV header.

The code removes every dot before it reads the number. So the docstring's third example, `"25477068.30"`, gives `2547706830`, not 25477068.3. The model follows the code: `NumberNormalizer.DotIsThousandsSeparator` proves the general form of that case. The code's own comment at line 15 calls the dot the thousands separator (`separatore migliaia`), and the comment at line 16 treats a comma as the only possible decimal point.

## Model

| member | source | states |
|---|---|---|
| Text.TrimStart | WebScraping/scrapingBoxOffice.py:12 | `lstrip` never lengthens the text, and its result does not start with a stripped character |
| Text.TrimEnd | WebScraping/scrapingBoxOffice.py:12 | `rstrip` never lengthens the text, and its result does not end with a stripped character |
| Text.TrimStartSplits | WebScraping/scrapingBoxOffice.py:12 | `lstrip` keeps a suffix of the text and removes only stripped characters before it |
| Text.TrimEndSplits | WebScraping/scrapingBoxOffice.py:12 | `rstrip` keeps a prefix of the text and removes only stripped characters after it |
| Text.Trim | WebScraping/scrapingBoxOffice.py:12 | `strip` never lengthens the text, and its result does not end with a stripped character |
| Text.TrimDecomposes | WebScraping/scrapingBoxOffice.py:12 | the text is its stripped part with a run of stripped characters before and after it |
| Text.TrimIdempotent | WebScraping/scrapingBoxOffice.py:12 | a general property of `strip`: a stripped text has nothing left to strip |
| Text.TrimEnds | WebScraping/scrapingBoxOffice.py:44-60 | a stripped text neither starts nor ends with a stripped character |
| Text.TrimStartSkips | WebScraping/scrapingBoxOffice.py:52 | `lstrip` passes over any leading run of stripped characters |
| Text.TrimEndSkips | WebScraping/scrapingBoxOffice.py:52 | `rstrip` passes over any trailing run of stripped characters |
| Text.TrimSurrounded | WebScraping/scrapingBoxOffice.py:52 | stripping removes exactly the runs around a text that has no stripped character at either end |
| Text.TrimEmptyIff | WebScraping/scrapingBoxOffice.py:57-60 | the stripped text is empty exactly when every character is whitespace |
| Text.Remove | WebScraping/scrapingBoxOffice.py:14-15 | `replace(c, "")` shortens the text by the number of occurrences of `c`, leaves no `c`, and keeps every other character as often as it occurs |
| Text.Replace | WebScraping/scrapingBoxOffice.py:14-16 | `replace(c, d)` keeps the length and changes exactly the positions holding `c` |
| Text.ReplaceAppend | WebScraping/scrapingBoxOffice.py:16 | replacing distributes over concatenation |
| Text.CountAppend | WebScraping/scrapingBoxOffice.py:15-16 | occurrence counts add up over a concatenation |
| Text.DigitsValue | WebScraping/scrapingBoxOffice.py:63 | `int()` on a digit string, most significant digit first; what it means is stated by `DigitsValueBound`, `DigitsValueAppendDigit` and `DigitsOfNatRoundTrip` |
| Text.NatToDigits | WebScraping/scrapingBoxOffice.py:63 | the decimal writing of a number is a non-empty digit string without a leading zero |
| Text.DigitsValueBound | WebScraping/scrapingBoxOffice.py:63 | `k` digits denote a value below `10^k` |
| Text.DigitsValueAppendDigit | WebScraping/scrapingBoxOffice.py:63 | appending a digit multiplies the value by ten and adds that digit |
| Text.DigitsOfNatRoundTrip | WebScraping/scrapingBoxOffice.py:63 | `int(str(n)) == n` |
| Decimal.DotIndex | WebScraping/scrapingBoxOffice.py:21 | the first dot is found where one exists, and the end of the text otherwise |
| Decimal.NoDotBefore | WebScraping/scrapingBoxOffice.py:21 | no dot comes before the first dot found |
| Decimal.ParseDecimal | WebScraping/scrapingBoxOffice.py:21 | `float()` on digits and dots yields a non-negative value when it succeeds |
| Decimal.Truncate | WebScraping/scrapingBoxOffice.py:70 | `int()` on a float truncates toward zero: the result is within one of the value, on the side of zero |
| Decimal.CountAbsent | WebScraping/scrapingBoxOffice.py:21 | a count of zero means the character does not occur |
| Decimal.CountBound | WebScraping/scrapingBoxOffice.py:21 | a count never exceeds the length, and equals it exactly when every character matches |
| Decimal.DotsAroundFirstDot | WebScraping/scrapingBoxOffice.py:21 | the text is its whole part, the first dot and its fraction part, and the dots are counted accordingly |
| Decimal.ParseDecimalGrammar | WebScraping/scrapingBoxOffice.py:21 | `float()` succeeds exactly on digits and dots with at most one dot and at least one digit |
| Decimal.ParseAcceptsGrammar | WebScraping/scrapingBoxOffice.py:21 | every text of that grammar is accepted |
| Decimal.ParseDigits | WebScraping/scrapingBoxOffice.py:21 | a digit string is read as the integer it denotes |
| Decimal.DotIndexOfDigits | WebScraping/scrapingBoxOffice.py:21 | a digit string has no dot |
| Decimal.TruncateKeepsWholePart | WebScraping/scrapingBoxOffice.py:70 | `int(float(s))` is the value of the digits before the dot |
| Decimal.TruncateFixedPoint | WebScraping/scrapingBoxOffice.py:70 | truncating `w.f` gives `w` |
| Decimal.FractionBelowOne | WebScraping/scrapingBoxOffice.py:70 | helper for truncation: a fraction `n / d` with `n < d` lies in `[0, 1)` |
| Decimal.DotIndexAfterDigits | WebScraping/scrapingBoxOffice.py:21 | in `w.f` the first dot follows the digits `w` |
| Decimal.ParseFixedPoint | WebScraping/scrapingBoxOffice.py:57 | `float("w.f")` is `w + f / 10^len(f)`; `"5."` and `".5"` are accepted |
| NumberNormalizer.KeepDigitsAndDots | WebScraping/scrapingBoxOffice.py:18 | the `re.sub` keeps only digits and dots, keeps every digit and dot as often as it occurs, and never lengthens the text |
| NumberNormalizer.CleanedText | WebScraping/scrapingBoxOffice.py:12-18 | the text handed to `float()` holds only digits and dots and is never longer than the input |
| NumberNormalizer.CleanNumber | WebScraping/scrapingBoxOffice.py:6-21 | a returned number is never negative |
| NumberNormalizer.OnePassShape | WebScraping/scrapingBoxOffice.py:15-18 | the cleaned text holds only digits and dots, with one dot for each comma of the input |
| NumberNormalizer.OnePassAppend | WebScraping/scrapingBoxOffice.py:12-18 | the one-pass cleaning distributes over concatenation |
| NumberNormalizer.OnePassOfIgnored | WebScraping/scrapingBoxOffice.py:18 | text with no digit and no comma cleans to nothing |
| NumberNormalizer.WhitespaceIgnored | WebScraping/scrapingBoxOffice.py:12 | helper for `OnePassTrim`: whitespace is neither a digit nor a comma |
| NumberNormalizer.OnePassTrim | WebScraping/scrapingBoxOffice.py:12 | stripping does not change the cleaned text |
| NumberNormalizer.OnePassRemove | WebScraping/scrapingBoxOffice.py:14 | removing the euro sign does not change the cleaned text |
| NumberNormalizer.OnePassReplace | WebScraping/scrapingBoxOffice.py:14 | turning NBSP into a space does not change the cleaned text |
| NumberNormalizer.TailIsOnePass | WebScraping/scrapingBoxOffice.py:15-18 | removing dots, then comma to dot, then the `re.sub` is the one-pass cleaning |
| NumberNormalizer.CleanedIsOnePass | WebScraping/scrapingBoxOffice.py:12-18 | the whole chain of calls equals the one-pass cleaning |
| NumberNormalizer.CleanNumberOutcome | WebScraping/scrapingBoxOffice.py:10-21 | `None` gives `None`; the result is `None` exactly when no digit and no comma is present; `ValueError` exactly when more than one comma is present, or commas but no digit; the error carries the cleaned text |
| NumberNormalizer.CommaFreeIsInteger | WebScraping/scrapingBoxOffice.py:15-21 | without a comma the value is the integer made of all the digits in order |
| NumberNormalizer.CleanNumberByPass | WebScraping/scrapingBoxOffice.py:19-21 | `clean_number` is `float()` applied to the one-pass cleaning, with empty text giving `None` |
| NumberNormalizer.OnePassOfDigits | WebScraping/scrapingBoxOffice.py:18 | digits pass through unchanged |
| NumberNormalizer.CleanNumberOfDigits | WebScraping/scrapingBoxOffice.py:19-21 | when the cleaned text is all digits, the result is its integer value |
| NumberNormalizer.OnePassSkip | WebScraping/scrapingBoxOffice.py:14-18 | characters that are neither digits nor commas vanish wherever they stand |
| NumberNormalizer.GroupedPass | WebScraping/scrapingBoxOffice.py:8 | `p a.b.c`, for any prefix `p` without digits or commas, cleans to the digits `abc` |
| NumberNormalizer.ThousandsGroupedAmount | WebScraping/scrapingBoxOffice.py:8 | every amount of the form `€ 73.665.455` or `9.178.654` (any prefix without digits or commas) is read as the integer of its digit groups |
| NumberNormalizer.DecimalCommaAmount | WebScraping/scrapingBoxOffice.py:15-16 | `p a.b.c,f` (such as `€ 9.178.654,30`) is read as `abc + f / 10^len(f)` |
| NumberNormalizer.DotIsThousandsSeparator | WebScraping/scrapingBoxOffice.py:8-15 | `a.f` is read as the integer `af`, so `"25477068.30"` gives 2547706830 |
| RowExtractor.Cell | WebScraping/scrapingBoxOffice.py:44-60 | a stripped cell text is no longer than the cell and has no whitespace at either end |
| RowExtractor.ExtractPos | WebScraping/scrapingBoxOffice.py:63 | the rank is a number exactly when its text is all digits, and otherwise is kept as that text |
| RowExtractor.PosOfRank | WebScraping/scrapingBoxOffice.py:63 | a rank written in decimal is read back as that rank |
| RowExtractor.ExtractIso | WebScraping/scrapingBoxOffice.py:51-52 | the ISO date is absent exactly when the span is missing, and does not end with a quote |
| RowExtractor.IsoUnquoted | WebScraping/scrapingBoxOffice.py:52 | the ISO date neither starts nor ends with a quote |
| RowExtractor.IsoOfQuotedDate | WebScraping/scrapingBoxOffice.py:50-52 | a quoted date such as `'2025-12-25'`, with any whitespace around it, is read back as the date |
| RowExtractor.ParseAmount | WebScraping/scrapingBoxOffice.py:69 | an amount is `None` exactly when its cell is empty; a `ValueError` carries the text `float()` refused |
| RowExtractor.ParseCount | WebScraping/scrapingBoxOffice.py:70 | a count is `None` exactly when its cell is empty; a present count is never negative |
| RowExtractor.FigureOutcome | WebScraping/scrapingBoxOffice.py:69-72 | a raw figure is accepted exactly when it is empty or decimal text; a count fails exactly where the amount read from the same text fails |
| RowExtractor.CountTruncatesAmount | WebScraping/scrapingBoxOffice.py:70 | a count is the amount read from the same text, truncated: the value of the digits before the dot |
| RowExtractor.FixedPointFigure | WebScraping/scrapingBoxOffice.py:57-58 | the hidden figure `w.f` is read as the amount `w + f / 10^len(f)` and as the count `w` |
| RowExtractor.IntegerFigure | WebScraping/scrapingBoxOffice.py:69-70 | a hidden figure made only of digits is read as that integer, both as an amount and as a count |
| RowExtractor.ExtractRow | WebScraping/scrapingBoxOffice.py:44-73 | a row fails with a malformed-row error exactly when it has fewer than the nine cells read, and the error reports its cell count |
| RowExtractor.ExtractRowAccepts | WebScraping/scrapingBoxOffice.py:57-72 | a row becomes a record exactly when it has nine cells and each of the four raw figures is empty or decimal text |
| RowExtractor.FirstRefused | WebScraping/scrapingBoxOffice.py:69-72 | the first refused figure is one of cells 5 to 8 |
| RowExtractor.ExtractRowError | WebScraping/scrapingBoxOffice.py:69-72 | a failing row with nine cells reports the text of the first raw figure, in key order, that `float()` refuses |
| RowExtractor.RecordTextStripped | WebScraping/scrapingBoxOffice.py:44-55 | `titolo`, `prima_progr`, `nazione`, `distribuzione` and a rank kept as text have no whitespace at either end (the ISO date is stripped before its quotes are, so it can keep inner spaces) |
| RowExtractor.RecordFigureAbsent | WebScraping/scrapingBoxOffice.py:57-60 | each raw figure is `None` exactly when its cell holds only whitespace |
| RowExtractor.RecordCountsTruncated | WebScraping/scrapingBoxOffice.py:70-72 | `presenze` and `presenze_al` are the truncated values of their cells |
| RowExtractor.ExtraCellsIgnored | WebScraping/scrapingBoxOffice.py:38-42 | cells after the ninth, the visible figures included, do not change the record |
| TableCollector.Gather | WebScraping/scrapingBoxOffice.py:35-74 | a loop whose steps either yield or raise: when it completes it holds one value per step |
| TableCollector.GatherKeepsFailure | WebScraping/scrapingBoxOffice.py:35-74 | once a row of the loop has raised, the later rows change nothing |
| TableCollector.GatherSucceeds | WebScraping/scrapingBoxOffice.py:33-35 | a loop of steps completes exactly when every step does, and then keeps every value in order |
| TableCollector.GatherFails | WebScraping/scrapingBoxOffice.py:35-74 | a loop that raises does so with the error of its first raising step, every earlier step having succeeded |
| TableCollector.Outcomes | WebScraping/scrapingBoxOffice.py:35-73 | the outcome of each row is that row's own record or error, one per row |
| TableCollector.Collect | WebScraping/scrapingBoxOffice.py:33-35 | the records collected by the loop, appended one per row with `data.append`, are the gathered outcomes of the rows in order |
| TableCollector.CollectedRows | WebScraping/scrapingBoxOffice.py:33-35 | the run succeeds exactly when every row does; it then holds one record per row, in order, each the row's own record |
| TableCollector.CollectedError | WebScraping/scrapingBoxOffice.py:35-74 | a failed run reports the error of its first failing row, and every earlier row succeeded |
| TableCollector.FieldNames | WebScraping/scrapingBoxOffice.py:62-73 | the record's keys in the order they are written: ten names, each distinct |
| TableCollector.CsvHeader | WebScraping/scrapingBoxOffice.py:83 | the header is empty exactly when there are no records, and is otherwise the record's keys in order |

## Left out

- The browser session is not modelled: the page load, the selector waits and the locator calls (lines 23-32, 36 and 76). A row arrives as the texts of its cells, plus the text of the first `<span>` in cell 2 when there is one.
- A missing cell is modelled as a `MalformedRow` error. In the script, `nth(k).inner_text()` on a missing cell waits for the element and fails with a timeout.
- Writing JSON and CSV is not modelled (lines 78-90): file I/O, encoding, `DictWriter` row formatting and the final `print`. Only the choice of CSV header (line 83) is modelled.
- Decimal.ParseDecimal: Python's `float()` also accepts signs, exponents, underscores between digits, `inf` and `nan`. The model refuses all of them. The hidden cells and the output of `clean_number` only ever hold digits and dots.
- Decimal.ParseDecimal: the value is exact. IEEE-754 double rounding is left out, including for very long digit strings.
- Text.Trim: `str.strip()` removes every Unicode whitespace character. The model uses the Latin-1 ones only: the ASCII whitespace, U+001C to U+001F, U+0085 and U+00A0.
- RowExtractor.ExtractPos: `str.isdigit()` is also true for non-ASCII digits, some of which `int()` refuses. The model treats only ASCII `0`-`9` as digits.
- The docstring examples of `clean_number` are stated as general lemmas over digit groups: `ThousandsGroupedAmount` covers `"€ 73.665.455"` and `"9.178.654"`, and `DotIsThousandsSeparator` covers `"25477068.30"`. `DecimalCommaAmount` covers the decimal comma that line 16 allows for. They are not evaluated on the literal strings.
