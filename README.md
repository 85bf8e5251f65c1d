# Weekly expense summary (rent-man-web `app.py`)

A Dafny model of the expense summary that `app.py` computes for one week's
worksheet. The worksheet arrives as a single column of comma-separated text
lines. The script:

1. removes every double quote from each line and splits it at every comma,
   padding shorter rows with missing values up to the widest row;
2. takes the first row as the column labels, strips whitespace from them, and
   keeps the remaining rows, in order, as the data;
3. coerces the `Amount` column to a number, turning anything unparsable or
   missing into 0;
4. keeps the rows whose `Account Type` contains "expense" in any case (a
   missing value is not kept);
5. shows the kept rows and their grand total, or, when nothing was kept, a
   warning together with the column labels.

A missing column, or a label that names two columns, raises an exception that
the script reports as an error.

The model is pure, like the script: every step is a function from a whole
table to a new table. The reassignments of `df.columns` and `df["Amount"]`
become functions that return the new labels or rows.

- `text.dfy` (module `Text`): quote removal, Python's `str.split(",")`, `str.strip()`,
  ASCII lower-casing and substring search. Each has its contract, and there
  are round-trip lemmas for split and join.
- `amount.dfy` (module `Amount`): the numeric reading of an amount cell, in
  integer cents, and a two-decimal formatter that it inverts.
- `report.dfy` (module `Report`): the table, column lookup, coercion, the
  expense filter, the total and the whole run. A run ends in one of three
  outcomes: `Failed`, `NoExpenses` or `Summary`.
- `wrappers.dfy` (module `Wrappers`): `Option` and `Result`.

The input is the already-read column 0 of the worksheet, given as
`seq<Option<string>>`. `None` stands for an empty spreadsheet cell, which
pandas reads as NaN and which becomes a row of missing values after the split.
An empty worksheet has no first row, so it is a failure (`EmptySheet`).

Other versions of this pipeline in the repository parse quoted CSV, classify
rows by exact match against "Expense" and "Non Operating Expense", and read
parenthesised negatives. The model follows `app.py`, which does none of these. It deletes quotes
before splitting, so a quoted comma separates fields. It keeps any
`Account Type` that contains "expense" in any case, so both "Expense" and
"Non Operating Expense" are kept (`Report.ExpenseExamples`). It parses amounts
with `pd.to_numeric`.

## Model

| member | source | states |
|---|---|---|
| `Text.StripQuotes` | app.py:9 | the result has no `"` |
| `Text.StripQuotesConcat` | app.py:9 | removing quotes from two joined pieces is removing them from each piece and joining the results, so the kept characters stay in order |
| `Text.StripQuotesCounts` | app.py:9 | the result is shorter by the number of quotes, and every other character occurs as often as before |
| `Text.Split` | app.py:9 | one field more than the string has commas; no field contains a comma; every character of a field comes from the string |
| `Text.JoinSplit` | app.py:9 | joining the split fields with "," gives back the string |
| `Text.SplitJoin` | app.py:9 | splitting comma-free fields joined with "," gives back the same fields |
| `Report.Fields` | app.py:9 | a line has at least one field, and no field contains a `"` or a `,` |
| `Report.FieldsRoundTrip` | app.py:9 | the fields joined with "," are the line with its quotes removed; the field count is the line's comma count plus one |
| `Report.SplitLine` | app.py:9 | an empty cell gives no fields; a text cell gives one text cell per field, in order |
| `Report.Width` | app.py:9 | the width is at least every row's length and equal to some row's length (0 for no rows) |
| `Report.Pad` | app.py:9 | a padded row has exactly the target width, begins with the original fields and has only missing cells after them |
| `Report.PadAll` | app.py:9 | every row keeps its position, gets the common width and is padded as `Pad` says |
| `Report.Labels` | app.py:12-16 | one label per header cell, in order: a text cell gives its text stripped of surrounding whitespace, a missing cell a missing label |
| `Report.LabelsOfHeader` | app.py:12-16 | the label of column j is the trimmed header field j, or missing where the header line is shorter than the table (`HeaderLabel`) |
| `Report.ReadSheet` | app.py:9-16 | it fails exactly on an empty sheet; otherwise the table is rectangular and as wide as the widest line; data row i is line i+1's fields padded with missing cells; the labels are the header line's trimmed fields |
| `Report.NoQuotes` | app.py:9-16 | no label and no text cell of the table contains a `"` |
| `Report.LabelsTrimmed` | app.py:16 | no present label begins or ends with whitespace |
| `Report.LabelHasNoQuote` | app.py:9-16 | the label a header line gives any column has no `"` |
| `Text.TrimStart` | app.py:16 | the result is a suffix that does not start with whitespace, and everything cut off is whitespace |
| `Text.TrimEnd` | app.py:16 | the result is a prefix that does not end with whitespace, and everything cut off is whitespace |
| `Text.Trim` | app.py:16 | the result neither begins nor ends with whitespace |
| `Text.TrimCutsSpace` | app.py:16 | the result is a piece of the string, starting where `TrimStart` leaves it, and every character before or after that piece is whitespace |
| `Text.TrimKeepsText` | app.py:16 | trimming removes only whitespace: every other character occurs as often as before |
| `Text.TrimIdempotent` | app.py:16 | trimming a trimmed label changes nothing |
| `Report.FindColumn` | app.py:17-21 | a column is found exactly when one label equals the name, and that label does equal it; otherwise the error is `ColumnFailure`: `DuplicateColumn` if the name occurs and `MissingColumn` if it does not |
| `Report.FindColumnOnly` | app.py:17-21 | when a label is unique, the lookup returns the one column that carries it |
| `Amount.ParseUnsigned` | app.py:17 | only text made of digits and at most one `.`, with at least one digit and at most two digits after the `.`, parses (so `"."` does not) |
| `Amount.ParseWhole` | app.py:17 | conversely, any non-empty run of digits parses, to that many whole units |
| `Amount.ParseDecimal` | app.py:17 | conversely, digits, a `.` and at most two digits, with a digit somewhere, parse to the units and the cents they denote ("12.", ".5", "12.05") |
| `Amount.ParseSigned` | app.py:17 | only non-empty text made of digits, `.` and one leading sign parses |
| `Amount.SignedForms` | app.py:17 | for every text: one starting with "-" reads as the negation of the unsigned reading of the rest (and is unparsable when the rest is), one starting with "+" as the unsigned reading of the rest, and one with no leading sign as its own unsigned reading |
| `Amount.AmountCharacters` | app.py:17 | a cell that reads as a number holds only spaces, tabs, line breaks, form feeds, digits, `.` and signs; an information separator (U+001C to U+001F) anywhere makes it unparsable |
| `Amount.ParseAmount` | app.py:17 | the reading of one cell by `pd.to_numeric`; it has no contract of its own: `AmountCharacters` says which texts can parse, `ParseFormat` that every two-decimal amount parses to itself, and `SignedForms`, `ParseWhole` and `ParseDecimal` what each form reads as |
| `Amount.ParseFormat` | app.py:17 | every amount written with two decimals (for example "-1234.05") parses back to the same number of cents |
| `Report.CoerceFormatted` | app.py:17 | a cell that shows a two-decimal amount is coerced to that amount |
| `Report.CoerceNonNumeric` | app.py:17 | text that contains a currency sign, a letter, a comma, an information separator or any other non-numeric character is coerced to 0 |
| `Report.CoerceAmount` | app.py:17 | a missing cell becomes 0, a number is kept, text that reads as an amount becomes that amount and any other text becomes 0 (`errors="coerce"`, then `fillna(0)`) |
| `Report.CoerceColumn` | app.py:17 | the amount column of every row becomes the coerced number; every other cell, the row count and the row order stay the same |
| `Text.Contains` | app.py:21 | the result is true exactly when the needle occurs at some position of the haystack |
| `Text.LowerChar` | app.py:21 | an upper-case ASCII letter becomes the lower-case letter 32 code points above it; every other character is unchanged |
| `Text.LowerCharIs` | app.py:21 | a character lower-cases to a given lower-case letter exactly when it is that letter or the same letter in upper case |
| `Text.Lower` | app.py:21 | the result has the same length and each character is lower-cased as `LowerChar` says |
| `Report.IsExpense` | app.py:21 | `str.contains("Expense", case=False, na=False)` on one cell; it has no contract of its own: `ExpenseCaseFree` says which cells it accepts and `ExpenseExamples` shows four cases |
| `Report.ExpenseCaseFree` | app.py:21 | a cell is an expense exactly when it is text and some seven consecutive characters are the letters of "expense", each in upper or lower case |
| `Report.ExpenseAnyCase` | app.py:21 | a cell is an expense exactly when some seven consecutive characters of its text lower-case to "expense" (the step from which `ExpenseCaseFree` is proved) |
| `Report.ExpenseExamples` | app.py:21 | "Non Operating Expense" and "EXPENSES" are kept; "Income" and a missing value are not |
| `Report.FilterExpenses` | app.py:20-22 | every kept row is an expense row; each expense row is kept as many times as it occurs; no other row is kept |
| `Report.FilterIsSubsequence` | app.py:20-22 | the kept rows are a subsequence of the data rows, so their order is preserved |
| `Report.FilterIdempotent` | app.py:20-22 | filtering the kept rows again changes nothing |
| `Report.SumAmounts` | app.py:30 | the total of the amount column over the kept rows; it has no contract of its own: `SumAmountsAppend` and `TotalOfKeptRows` state it |
| `Report.SumAmountsAppend` | app.py:30 | the total of two runs of rows joined is the sum of their totals, so each row adds its amount once |
| `Report.TotalOfKeptRows` | app.py:17-30 | the sum over the kept coerced rows equals the reference total: each expense row's coerced amount, and nothing from any other row |
| `Report.ExcludedRowsAddNothing` | app.py:20-30 | dropping the rows that are not expenses leaves the reference total unchanged |
| `Report.Summarize` | app.py:17-34 | the steps after reading, on a read table; it has no contract of its own: `SummarizeFails` and `SummarizeOutcome` state what it yields |
| `Report.Run` | app.py:3-39 | one week's run from the already-read column; it has no contract of its own: `RunFails` and `RunSummary` state what it yields |
| `Report.SummarizeFails` | app.py:17-39 | a table is refused exactly when `Amount` or `Account Type` does not label exactly one column; `Amount` is checked first, and the failure says whether the name is missing or repeated |
| `Report.RunFails` | app.py:3-39 | a run fails exactly when the sheet is empty or `SummarizeFails` refuses its labels, and then it produces no total |
| `Report.SummarizeOutcome` | app.py:20-34 | once both columns are found, the warning is shown exactly when no data row is an expense, and it reports the labels; otherwise the result holds the kept coerced rows and the reference total |
| `Report.RunSummary` | app.py:9-34 | for a whole run where `Amount` and `Account Type` are each found in exactly one column, the warning is shown exactly when no data row (a line after the header) is an expense; otherwise a total is always produced, and it equals the reference total |

## Left out

- Display: the page header, the table view, the divider, the metric, the warning and
  error messages (app.py:24-39). Only the information they show is modelled,
  as the three outcomes.
- The worksheet read (app.py:5) is I/O. The model starts from column 0 as
  already fetched. A cell that the reader returns as a number, not text,
  becomes NaN under the `.str` operations, so the caller passes it as `None`.
  The `selected_week` gate (app.py:2) is UI state, and the run is modelled as
  if a week were selected.
- Amount.ParseAmount: the model reads only an optional sign, digits, and an optional `.` with at most two digits, with spaces, tabs, line feeds, vertical tabs, form feeds and carriage returns around it ignored, as `pd.to_numeric` ignores them. Any other character, the information separators U+001C to U+001F included, makes the text unparsable, as it does for `pd.to_numeric`. The model does not accept exponents, more than two decimals, `inf` or other forms that `pd.to_numeric` accepts, so it coerces those to 0. Amounts are exact integer cents, not floats, so the float sum and the `${:,.2f}` display format are out of scope.
- Report.IsExpense: case-insensitive matching uses ASCII lower-casing, not full Unicode case folding.
- Text.IsSpace: whitespace is the ASCII set that Python's `str.isspace` accepts. Unicode spaces are not trimmed.
- Any other exception the script's catch-all could receive (an internal pandas
  error on unusual input) is not modelled. The model's only failures are the empty sheet
  and a missing or repeated `Amount` or `Account Type` label.
