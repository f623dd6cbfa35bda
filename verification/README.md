# Jij table scraper, modelled in Dafny

Two near-duplicate Python scripts read an AkaiKKR j-mode report. They find
the line announcing the exchange-coupling ("Jij") table, `index   site
comp ...`, and read the rows that follow. Each row gives a pair index, two
site numbers, two component numbers, a cell offset, a distance, the coupling
in Rydberg and in meV, and a degeneracy.

- `jij_extraction_from_file.py` converts the fields with `int` and `float`.
  It stops a table at the first whitespace-only line, keeps the rows whose
  index was requested, and prints the mean of their meV coupling.
- `jij_extraction_from_a_file.py` keeps every field as its raw token. Its
  table loop ends after the first line, and it prints the table.

The model consists of these modules:

- `Outcomes`: `Option`, `Result` and the exceptions the scripts can raise.
  - `TokenMissing(k)` is the `IndexError` of `line[k]`.
  - `BadLiteral(k, token, kind)` is the `ValueError` of `int` or `float`.
  - `NoTable` is the `NameError` on `df_jij` when no marker was ever found.
- `Text`: `str.split()` with no argument, over the characters
  `str.isspace` accepts. A round trip ties `Split` to the runs of
  whitespace it removes. `Contains` models the substring test `in`.
- `Numerals`: the string grammars of `int()` and `float()`. This covers:
  - signs, and digits grouped by single underscores;
  - `inf`, `infinity` and `nan` in any case;
  - a decimal point and an exponent.

  Values are exact: `Float` is a real, a signed infinity or NaN. Renderers
  for integers and fixed-point decimals come with round-trip proofs.
- `Jij`: what both scripts share:
  - the marker;
  - the row datatypes;
  - `get_verbose_jij_info`, which is identical in both;
  - the `__main__` marker scan, generic over the table-building call.
- `Selection`: the `isin` filter and the pandas mean, which skips NaN.
- `FromFile` and `FromAFile`: the row parser and table builder of each
  script, wired into the scan.

Three behaviours of the code are worth stating plainly:

- Neither script ends a table at a line whose first token is not numeric.
  In the first script such a line (a trailing `Tc = ...` report, say)
  reaches `int()` and raises `ValueError`, unless a blank line comes before
  it. `FromFile.ProseLineFails` states this.
- An empty selection prints `nan`: the script takes the pandas mean of an
  empty column. `Selection.MeanOfNothing` states this.
- In the second script the break test after the first row always holds, so
  its table has at most one row.

## Model

| member | source | states |
|---|---|---|
| `Text.Split` | jij_extraction_from_file.py:29 | Every token is a non-empty run of non-whitespace characters. |
| `Text.SplitLayout` | jij_extraction_from_file.py:29 | Tokens laid out with legal separators split back into exactly those tokens. |
| `Text.LayoutOfSplit` | jij_extraction_from_file.py:29 | A line is its tokens put back between the whitespace runs split removed, and those runs are legal separators. Nothing but whitespace is lost. |
| `Text.SplitEmptyIffBlank` | jij_extraction_from_file.py:72 | `not line.split()` holds exactly when every character of the line is whitespace. |
| `Text.SplitIgnoresPadding` | jij_extraction_from_file.py:29 | Leading and trailing whitespace, a newline included, does not change the tokens. |
| `Text.Contains` | jij_extraction_from_file.py:94 | The marker test `JIJ_DETECT_KEYWORD in line` holds exactly when the marker occurs in the line at some position. |
| `Text.ContainsIff` | jij_extraction_from_file.py:94 | The marker test holds exactly when the line is some text, then the marker, then some text. |
| `Text.ContainsOccurrence` | jij_extraction_from_file.py:94 | Any line that has the marker somewhere inside it passes the marker test. |
| `Numerals.UngroupGrammar` | jij_extraction_from_file.py:31-38 | The underscore pass of `int()` and `float()` accepts a string exactly when every underscore sits between two digits, and then drops the underscores. |
| `Numerals.ParseIntGrammar` | jij_extraction_from_file.py:31-33 | `int(tok)` is defined exactly when the underscores are grouped and what remains is a signed run of digits; otherwise it raises. |
| `Numerals.ParseFloatGrammar` | jij_extraction_from_file.py:34-37 | `float(tok)` is defined exactly when the underscores are grouped and what remains is a signed `inf`, `infinity`, `nan` or decimal literal; otherwise it raises. |
| `Numerals.WordTokenIsNotInt` | jij_extraction_from_file.py:31 | A token whose first character is not a digit, sign or underscore is rejected by `int()`. |
| `Numerals.WordTokenIsNotFloat` | jij_extraction_from_file.py:34-37 | A token whose first character cannot start a float literal is rejected by `float()`. |
| `Numerals.IntRoundTrip` | jij_extraction_from_file.py:31-33 | `int()` reads a printed integer, negative or not, back as the same integer. |
| `Numerals.FixedRoundTrip` | jij_extraction_from_file.py:34-37 | `float()` reads a printed fixed-point decimal back as its exact value. |
| `Numerals.IntLiteralIsFloatLiteral` | jij_extraction_from_file.py:34-37 | Every token `int()` accepts is also accepted by `float()`, with the same value. |
| `Numerals.DigitsValueAppend` | jij_extraction_from_file.py:31 | Appending digits shifts the value read so far by one decimal place per digit. |
| `FromFile.FirstBadField` | jij_extraction_from_file.py:31-38 | Fields are converted in line order. It gives nothing exactly when all remaining fields convert, and otherwise the first one that fails. |
| `FromFile.Build` | jij_extraction_from_file.py:31-40 | When all twelve fields convert, the row holds each field's value in its position. |
| `FromFile.ParseCompact` | jij_extraction_from_file.py:29-41 | It succeeds exactly when tokens 0-4 and 11 are `int` literals and 5-10 are `float` literals. Fewer than twelve tokens fail. On success the row maps position by position. On failure it raises the `IndexError` or `ValueError` of the first bad field. |
| `FromFile.ProseLineFails` | jij_extraction_from_file.py:29-31 | A line whose first token starts like a word, such as `Tc = ...`, raises `ValueError` on token 0 with that token. |
| `FromFile.ParseCompactIgnoresExtra` | jij_extraction_from_file.py:29-38 | Two lines that agree on their first twelve tokens parse the same way: tokens after the twelfth are never read. |
| `FromFile.ParseCompactIgnoresSpacing` | jij_extraction_from_file.py:29 | Repeated or different whitespace between the tokens does not change the parse. |
| `FromFile.ParseCompactIgnoresPadding` | jij_extraction_from_file.py:29 | Leading and trailing whitespace does not change the parse. |
| `FromFile.ParsePrinted` | jij_extraction_from_file.py:16-41 | A row printed in the report's layout, with any spacing, parses back to exactly the values it was printed from. |
| `FromFile.PrintedTokensAreWords` | jij_extraction_from_file.py:29 | Each printed field is one whitespace-free token. |
| `FromFile.PrintedDenotes` | jij_extraction_from_file.py:31-38 | Each printed field converts to the value it was printed from. |
| `FromFile.DenotesUnique` | jij_extraction_from_file.py:31-38 | The tokens determine the converted row. |
| `FromFile.FirstBlank` | jij_extraction_from_file.py:71-73 | It gives the position of the first whitespace-only line, or the input length when there is none. |
| `FromFile.ExtractRows` | jij_extraction_from_file.py:71-78 | The table has one row per line before the first whitespace-only line, in order. That line is consumed but not parsed. Without one, every line is parsed to the end. Any bad line makes the whole call fail. |
| `FromFile.ExtractRowsFails` | jij_extraction_from_file.py:71-76 | A failed call raises the exception of the first line before the blank line that does not parse. All earlier lines parse. |
| `FromFile.ExtractBlock` | jij_extraction_from_file.py:56-78 | Its exceptions are parse exceptions, and it leaves the unread lines as a suffix of the input. |
| `FromFile.Table` | jij_extraction_from_file.py:92-95 | The scan ends with `NameError` exactly when no line holds the marker. It ends with a table exactly when some marker the loop reads is a last block, and then with that block's table. Any other exception is the one a read marker's table-building call raised. |
| `FromFile.Report` | jij_extraction_from_file.py:92-97 | It fails with `NameError` exactly when no line holds the marker. It prints a value exactly when some marker the loop reads has a table that builds and no marker after it; that value is the mean meV coupling of the requested rows of that table, and every such marker gives the same value. Any other failure is the exception a read marker's table-building call raised. |
| `FromFile.TableIsLastBlock` | jij_extraction_from_file.py:93-95 | The table found is the one built after the last marker the loop reads, and no other marker the loop reads qualifies with a different table. |
| `Jij.VerboseFields` | jij_extraction_from_file.py:44-53 | `get_verbose_jij_info` succeeds exactly when the line has at least thirteen tokens. Otherwise it raises `IndexError` at the first missing position it reads, which skips 5 and 9. |
| `Jij.ScanFrom` | jij_extraction_from_file.py:92-95 | With no table yet, the scan ends with `NameError` exactly when no line holds the marker. Once a table exists, it never does. |
| `Jij.ScanFromOk` | jij_extraction_from_file.py:93-95 | A successful scan ends with the table of a marker line the loop reads, after whose consumed lines no marker follows. With no marker, the scan keeps the table it started with. |
| `Jij.LastBlockIsLast` | jij_extraction_from_file.py:93-95 | Once the loop reads a marker whose table leaves no marker behind, it reads no marker line after it. Lines consumed by a table do not count as read. |
| `Jij.LastBlockUnique` | jij_extraction_from_file.py:93-95 | At most one marker line the loop reads is followed by no further marker, so the final table is determined. |
| `Jij.LastBlockScans` | jij_extraction_from_file.py:93-95 | Whatever table was held before, a marker the loop reads whose table builds and leaves no marker behind makes the scan end with that table. |
| `Jij.ScanFails` | jij_extraction_from_file.py:93-95 | A scan that raises anything but `NameError` raises the exception of the table-building call of some marker line the loop reads. |
| `Jij.ScanOutcome` | jij_extraction_from_file.py:92-95 | Starting with no table, the scan succeeds exactly when some read marker is a last block, and then ends with that block's table; its other exceptions come from a read marker's table-building call. |
| `Jij.ScanSkips` | jij_extraction_from_file.py:93-94 | Lines without the marker do not affect the scan. |
| `Jij.ScanFindsTable` | jij_extraction_from_file.py:93-95 | Take the first marker line. If its table fails, the run fails with that exception. If its table builds and no marker follows, the result is that table. |
| `Jij.LaterTableWins` | jij_extraction_from_file.py:93-95 | The scan resumes after the lines a table consumed. A later marker's table replaces the earlier one. |
| `Selection.Select` | jij_extraction_from_file.py:96 | A row is kept exactly when it is in the table and its index was requested. |
| `Selection.SelectAppend` | jij_extraction_from_file.py:96 | Filtering a concatenation filters each part in place. |
| `Selection.SelectIsSubsequence` | jij_extraction_from_file.py:96 | The kept rows keep their table order. |
| `Selection.SelectCounts` | jij_extraction_from_file.py:96 | A requested row is kept as often as it occurs, duplicates included, and no other row is kept. |
| `Selection.SelectRequestIsASet` | jij_extraction_from_file.py:96 | Repeating or reordering the requested indices does not change the selection. |
| `Selection.MeVColumn` | jij_extraction_from_file.py:97 | The column holds each row's meV coupling in row order. |
| `Selection.Present` | jij_extraction_from_file.py:97 | The values the mean uses are the column with every NaN removed, in order: the same multiset minus the NaNs, as a subsequence. |
| `Selection.Mean` | jij_extraction_from_file.py:97 | The mean is NaN exactly when every value is NaN or both infinities occur. It is an infinity exactly when one sign of infinity occurs, with that sign. Otherwise it is the exact sum of the finite values over the number of non-NaN values. |
| `Selection.TotalCases` | jij_extraction_from_file.py:97 | The sum is NaN when a NaN is present, or when both infinities are. It is an infinity when only one sign of infinity is present. It is finite exactly when all values are finite, and then it is their exact sum. |
| `Selection.MeanOfFinite` | jij_extraction_from_file.py:97 | The mean of finite values is their sum divided by their count. |
| `Selection.MeanOfNothing` | jij_extraction_from_file.py:97 | With no value left after NaN is skipped, an empty selection included, the mean is NaN. |
| `Selection.MeanBounds` | jij_extraction_from_file.py:97 | The mean of finite values lies between their least and greatest. |
| `Selection.MeanSkipsNaN` | jij_extraction_from_file.py:97 | A NaN anywhere in the column leaves the mean unchanged. |
| `Selection.MeanExample` | jij_extraction_from_file.py:96-97 | Two selected couplings of -0.43 and 0.57 average to 0.07. |
| `FromAFile.ParseRaw` | jij_extraction_from_a_file.py:28-40 | It succeeds exactly when the line has at least twelve tokens, and then keeps tokens 0-11 in their positions. Content never makes it fail. With fewer tokens it raises `IndexError` at the first missing position. |
| `FromAFile.RawRoundTrip` | jij_extraction_from_a_file.py:28-40 | A row laid out with any legal spacing, and any extra tokens after it, reads back as the same row. |
| `FromAFile.RawTokensInjective` | jij_extraction_from_a_file.py:39 | A raw row is determined by its tokens. |
| `FromAFile.ExtractFirstRow` | jij_extraction_from_a_file.py:70-76 | An empty input gives an empty table. Otherwise the call succeeds exactly when the first line has twelve tokens, and the table is that one row with the scan resuming on the next line. A short line raises `IndexError`. |
| `FromAFile.BlankFirstLineFails` | jij_extraction_from_a_file.py:71-73 | A whitespace-only first line raises `IndexError` at token 0, because parsing comes before the break test. |
| `FromAFile.Table` | jij_extraction_from_a_file.py:87-92 | The script fails with `NameError` exactly when no line holds the marker. It prints a table exactly when some marker the loop reads is a last block, and that table has at most one row. Any other exception is the one a read marker's table-building call raised. |
| `FromAFile.TableIsRowAfterLastMarker` | jij_extraction_from_a_file.py:70-90 | The printed table is the row on the line after a marker the loop reads, or empty when that marker is the last line, and later lines hold no marker. Every marker the loop reads that fits this description gives the same table. |
| `FromAFile.RowAfterMarkerGivesTable` | jij_extraction_from_a_file.py:70-90 | A marker the loop reads, followed by a row line or by nothing, with no marker after that, makes the script print that row, or the empty table. |
| `FromAFile.TableFails` | jij_extraction_from_a_file.py:70-90 | A run that raises anything but `NameError` raises the `IndexError` of a line with fewer than twelve tokens right after a marker the loop reads. |
| `FromAFile.TypedRowDenotesRawRow` | jij_extraction_from_a_file.py:28-40 | Both scripts split a line the same way. A line the typed parser accepts is read by the raw parser too, and the typed row is what the raw tokens convert to. |

## Left out

- Command-line handling (`argparse`), opening and decoding the file, and `print` are I/O. The model takes the file as a sequence of lines, newlines included, and returns the value or table that would be printed.
- pandas `DataFrame`, `Series` and `append` are not modelled. A table is a sequence of rows.
- In the second script, `pd.Series(list)` has no index. Its values therefore land under columns `0` to `7`, beside eight all-NaN named columns. This affects only the rendering; `FromAFile.Table` keeps the row's contents.
- The rendering of the table and of the mean by `print` is not modelled.
- Numerals.ParseFloat: gives the exact decimal value of a literal, not the nearest IEEE-754 double. Overflow to infinity and underflow to zero are not modelled. It accepts ASCII digits only, whereas Python's `float()` also accepts other Unicode decimal digits.
- Numerals.ParseInt: accepts ASCII digits only. Python's `int()` also accepts other Unicode decimal digits. It is also not limited in length, whereas recent CPython releases (3.11 and later, and security releases of 3.7 to 3.10) reject literals over 4300 digits by default.
- Numerals.ParseIntGrammar and Numerals.ParseFloatGrammar: characterise the ASCII-digit, exact-value parsers above, with the same limits.
- Selection.Mean: the sum and the division are exact. pandas rounds each addition and the quotient to doubles.
- The constants `LATTICE_FACTOR_KEYWORD` and `BOHR2ANG` are defined but never used, so they are not modelled.
- Python's `NameError` for a missing `df_jij` is not modelled as Python runtime behaviour. It is the `NoTable` outcome.
