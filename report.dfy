/**
 The weekly expense summary of app.py: a one-column sheet of comma-separated
 lines becomes a table whose first line names the columns; the `Amount`
 column is coerced to a number, the rows whose `Account Type` mentions
 "expense" are kept, and their amounts are added up.

 Amounts are integer cents. A run ends in one of three ways: an error (the
 sheet is empty, or a needed column is missing or named twice), a warning
 that no expense row was found, or the kept rows with their grand total.
 */
module Report {
  import opened Wrappers
  import opened Text
  import opened Amount

  /* One table cell: a missing value, a piece of text, or, once the amount
     column has been coerced, a number of cents. */
  datatype Cell = Missing | Str(text: string) | Num(cents: int)

  type Row = seq<Cell>

  /* Column labels (a label is missing where the header line is shorter than
     the widest line) and the data rows below the header. */
  datatype Table = Table(columns: seq<Option<string>>, rows: seq<Row>)

  datatype Failure = EmptySheet | MissingColumn(name: string) | DuplicateColumn(name: string)

  datatype Outcome =
    | Failed(failure: Failure)
    | NoExpenses(columns: seq<Option<string>>)
    | Summary(expenses: seq<Row>, total: int)

  const AmountLabel := "Amount"
  const AccountTypeLabel := "Account Type"
  /* "Expense" as matched without regard to case. */
  const ExpenseWord := "expense"
  /* The same word in upper case. */
  const ExpenseCaps := "EXPENSE"

  /* Every row has one cell per column. */
  predicate Rectangular(t: Table)
  {
    forall i :: 0 <= i < |t.rows| ==> |t.rows[i]| == |t.columns|
  }

  // ---------------------------------------------------------------------
  // Splitting the single column into fields

  /* The fields of one line: its double quotes removed, then cut at every comma. */
  function Fields(line: string): (fields: seq<string>)
    ensures |fields| > 0
    ensures forall j :: 0 <= j < |fields| ==> '"' !in fields[j] && ',' !in fields[j]
  {
    Split(StripQuotes(line))
  }

  /* The fields joined back with commas are the line without its quotes, and
     there is one field more than the line has commas. */
  lemma FieldsRoundTrip(line: string)
    ensures Join(Fields(line)) == StripQuotes(line)
    ensures |Fields(line)| == Count(line, ',') + 1
  {
    JoinSplit(StripQuotes(line));
    StripQuotesCounts(line);
  }

  /* One cell of column 0 split into cells; an empty spreadsheet cell gives no
     fields, so that its row is missing throughout after padding. */
  function SplitLine(line: Option<string>): (row: Row)
    ensures line.None? ==> row == []
    ensures line.Some? ==>
      && |row| == |Fields(line.value)|
      && (forall j :: 0 <= j < |row| ==> row[j] == Str(Fields(line.value)[j]))
  {
    match line
    case None => []
    case Some(s) =>
      var fields := Fields(s);
      seq(|fields|, j requires 0 <= j < |fields| => Str(fields[j]))
  }

  /* The length of the longest row: `expand=True` makes that many columns. */
  function Width(rows: seq<Row>): (w: nat)
    ensures forall i :: 0 <= i < |rows| ==> |rows[i]| <= w
    ensures w == 0 || exists i :: 0 <= i < |rows| && |rows[i]| == w
  {
    if rows == [] then 0
    else
      var w := Width(rows[1..]);
      assert forall i :: 1 <= i < |rows| ==> rows[i] == rows[1..][i - 1];
      if |rows[0]| >= w then |rows[0]| else w
  }

  /* `row` is `fields` followed by nothing but missing cells. */
  predicate PaddedFrom(row: Row, fields: Row)
  {
    && |fields| <= |row|
    && row[..|fields|] == fields
    && forall k :: |fields| <= k < |row| ==> row[k] == Missing
  }

  function Pad(fields: Row, w: nat): (row: Row)
    requires |fields| <= w
    ensures |row| == w && PaddedFrom(row, fields)
  {
    fields + seq(w - |fields|, _ => Missing)
  }

  /* Column labels from the header row, each stripped of surrounding
     whitespace; a missing header cell gives a missing label. */
  function Labels(header: Row): (columns: seq<Option<string>>)
    ensures |columns| == |header|
    ensures forall j :: 0 <= j < |header| ==>
      columns[j] == (if header[j].Str? then Some(Trim(header[j].text)) else None)
  {
    seq(|header|, j requires 0 <= j < |header| => if header[j].Str? then Some(Trim(header[j].text)) else None)
  }

  /* Every line of the column split into its cells, in order. */
  function SplitAll(lines: seq<Option<string>>): (rows: seq<Row>)
    ensures |rows| == |lines|
    ensures forall i :: 0 <= i < |lines| ==> rows[i] == SplitLine(lines[i])
  {
    seq(|lines|, i requires 0 <= i < |lines| => SplitLine(lines[i]))
  }

  /* `expand=True`: every row padded with missing cells to width `w`. */
  function PadAll(rows: seq<Row>, w: nat): (padded: seq<Row>)
    requires forall i :: 0 <= i < |rows| ==> |rows[i]| <= w
    ensures |padded| == |rows|
    ensures forall i :: 0 <= i < |rows| ==> |padded[i]| == w && PaddedFrom(padded[i], rows[i])
  {
    seq(|rows|, i requires 0 <= i < |rows| => Pad(rows[i], w))
  }

  /* The label that header line `line` gives column `j`: its j-th field with
     surrounding whitespace stripped, or missing past the line's last field. */
  function HeaderLabel(line: Option<string>, j: nat): Option<string>
  {
    if line.Some? && j < |Fields(line.value)| then Some(Trim(Fields(line.value)[j])) else None
  }

  /* The labels of a padded header line are its trimmed fields, then missing. */
  lemma LabelsOfHeader(line: Option<string>, padded: Row)
    requires PaddedFrom(padded, SplitLine(line))
    ensures forall j :: 0 <= j < |padded| ==> Labels(padded)[j] == HeaderLabel(line, j)
  {
    var header := SplitLine(line);
    forall j | 0 <= j < |padded|
      ensures Labels(padded)[j] == HeaderLabel(line, j)
    {
      if j < |header| {
        assert padded[j] == padded[..|header|][j];
      }
    }
  }

  /* app.py:9-16: split every line, pad to the widest, take the first row as the
     column labels and the rest, in order, as the data. An empty sheet has no
     first row. */
  function ReadSheet(lines: seq<Option<string>>): (r: Result<Table, Failure>)
    ensures r.Err? <==> lines == []
    ensures r.Err? ==> r.error == EmptySheet
    ensures r.Ok? ==> Rectangular(r.value) && |r.value.rows| == |lines| - 1
    ensures r.Ok? ==> |r.value.columns| == Width(SplitAll(lines))
    ensures r.Ok? ==> forall i :: 0 <= i < |lines| ==> |SplitLine(lines[i])| <= |r.value.columns|
    ensures r.Ok? ==> forall i :: 1 <= i < |lines| ==> PaddedFrom(r.value.rows[i - 1], SplitLine(lines[i]))
    ensures r.Ok? ==> forall j :: 0 <= j < |r.value.columns| ==> r.value.columns[j] == HeaderLabel(lines[0], j)
  {
    if lines == [] then Err(EmptySheet)
    else
      var split := SplitAll(lines);
      var w := Width(split);
      var padded := PadAll(split, w);
      LabelsOfHeader(lines[0], padded[0]);
      var t := Table(Labels(padded[0]), padded[1..]);
      assert forall i :: 1 <= i < |lines| ==> t.rows[i - 1] == padded[i];
      Ok(t)
  }

  /* No label and no field of the table holds a double quote. */
  lemma NoQuotes(lines: seq<Option<string>>)
    requires lines != []
    ensures var t := ReadSheet(lines).value;
      && (forall j :: 0 <= j < |t.columns| && t.columns[j].Some? ==> '"' !in t.columns[j].value)
      && (forall i, j :: 0 <= i < |t.rows| && 0 <= j < |t.rows[i]| && t.rows[i][j].Str? ==> '"' !in t.rows[i][j].text)
  {
    LabelsHaveNoQuotes(lines);
    CellsHaveNoQuotes(lines);
  }

  lemma LabelsHaveNoQuotes(lines: seq<Option<string>>)
    requires lines != []
    ensures var cs := ReadSheet(lines).value.columns;
      forall j :: 0 <= j < |cs| && cs[j].Some? ==> '"' !in cs[j].value
  {
    var cs := ReadSheet(lines).value.columns;
    forall j | 0 <= j < |cs| && cs[j].Some?
      ensures '"' !in cs[j].value
    {
      LabelHasNoQuote(lines[0], j);
    }
  }

  lemma LabelHasNoQuote(line: Option<string>, j: nat)
    ensures HeaderLabel(line, j).Some? ==> '"' !in HeaderLabel(line, j).value
  {
    if HeaderLabel(line, j).Some? {
      TrimHasNo(Fields(line.value)[j], '"');
    }
  }

  lemma CellsHaveNoQuotes(lines: seq<Option<string>>)
    requires lines != []
    ensures var rows := ReadSheet(lines).value.rows;
      forall i, j :: 0 <= i < |rows| && 0 <= j < |rows[i]| && rows[i][j].Str? ==> '"' !in rows[i][j].text
  {
    var rows: seq<Row> := ReadSheet(lines).value.rows;
    forall i: nat, j: nat | i < |rows| && j < |rows[i]| && rows[i][j].Str?
      ensures '"' !in rows[i][j].text
    {
      var fields := SplitLine(lines[i + 1]);
      assert PaddedFrom(rows[i], fields);
      assert j < |fields| && rows[i][j] == fields[j];
    }
  }

  /* Every label that is present has no surrounding whitespace left. */
  lemma LabelsTrimmed(lines: seq<Option<string>>)
    requires lines != []
    ensures var cs := ReadSheet(lines).value.columns;
      forall j :: 0 <= j < |cs| && cs[j].Some? ==> Stripped(cs[j].value)
  {
    var cs := ReadSheet(lines).value.columns;
    forall j | 0 <= j < |cs| && cs[j].Some?
      ensures Stripped(cs[j].value)
    {
      LabelIsTrimmed(lines[0], j);
    }
  }

  lemma LabelIsTrimmed(line: Option<string>, j: nat)
    ensures HeaderLabel(line, j).Some? ==> Stripped(HeaderLabel(line, j).value)
  {
  }

  // ---------------------------------------------------------------------
  // Looking up a column by label

  /* The label appears exactly once, so that selecting it gives one column. */
  predicate Unique(columns: seq<Option<string>>, name: string)
  {
    multiset(columns)[Some(name)] == 1
  }

  function IndexOf(xs: seq<Option<string>>, x: Option<string>): (k: nat)
    requires x in xs
    ensures k < |xs| && xs[k] == x && x !in xs[..k]
  {
    if xs[0] == x then 0
    else
      var k := IndexOf(xs[1..], x);
      assert xs[..k + 1] == [xs[0]] + xs[1..][..k];
      k + 1
  }

  /* The failure reported when `name` does not label exactly one column. */
  function ColumnFailure(columns: seq<Option<string>>, name: string): Failure
  {
    if Some(name) in columns then DuplicateColumn(name) else MissingColumn(name)
  }

  /* `df[name]`: the position of the one column labelled `name`; a missing label
     is an error, and so is a label used twice (selecting it would give a
     table, not a column). */
  function FindColumn(columns: seq<Option<string>>, name: string): (r: Result<nat, Failure>)
    ensures r.Ok? <==> Unique(columns, name)
    ensures r.Ok? ==> r.value < |columns| && columns[r.value] == Some(name)
    ensures r.Err? ==> r.error == ColumnFailure(columns, name)
  {
    var n := multiset(columns)[Some(name)];
    if n == 0 then Err(MissingColumn(name))
    else if n > 1 then Err(DuplicateColumn(name))
    else Ok(IndexOf(columns, Some(name)))
  }

  /* The column a unique label names is the only one with that label. */
  lemma FindColumnOnly(columns: seq<Option<string>>, name: string, j: nat)
    requires Unique(columns, name) && j < |columns| && columns[j] == Some(name)
    ensures FindColumn(columns, name) == Ok(j)
  {
    var k := FindColumn(columns, name).value;
    if j < k {
      assert false;
    } else if k < j {
      TwoOccurrences(columns, k, j);
      assert false;
    }
  }

  /* Two positions holding the same label make it occur at least twice. */
  lemma TwoOccurrences(xs: seq<Option<string>>, lo: nat, hi: nat)
    requires lo < hi < |xs| && xs[lo] == xs[hi]
    ensures multiset(xs)[xs[lo]] >= 2
  {
    assert xs == xs[..hi] + xs[hi..];
    assert xs[hi..][0] == xs[lo];
    assert xs[..hi][lo] == xs[lo];
  }

  // ---------------------------------------------------------------------
  // Coercing the Amount column

  /* `pd.to_numeric(..., errors="coerce").fillna(0)` on one cell: a number is
     kept, parsable text becomes its value, and anything else becomes 0. */
  function CoerceAmount(c: Cell): (v: int)
    ensures c.Missing? ==> v == 0
    ensures c.Num? ==> v == c.cents
    ensures c.Str? && ParseAmount(c.text).None? ==> v == 0
    ensures c.Str? && ParseAmount(c.text).Some? ==> v == ParseAmount(c.text).value
  {
    match c
    case Missing => 0
    case Num(v) => v
    case Str(s) =>
      match ParseAmount(s)
      case Some(v) => v
      case None => 0
  }

  /* A cell showing a two-decimal amount is coerced to that amount. */
  lemma CoerceFormatted(n: int)
    ensures CoerceAmount(Str(FormatCents(n))) == n
  {
    ParseFormat(n);
  }

  /* Text with a character that cannot belong to a number, such as a currency
     sign, a letter, a thousands separator or an information separator, is
     coerced to 0. */
  lemma CoerceNonNumeric(s: string, c: char)
    requires c in s && !IsNumberSpace(c) && !IsDigit(c) && c != '.' && c != '+' && c != '-'
    ensures CoerceAmount(Str(s)) == 0
  {
    var k :| 0 <= k < |s| && s[k] == c;
    if ParseAmount(s).Some? {
      AmountCharacters(s);
    }
  }

  /* app.py:17: column `a` of every row replaced by its coerced number; every
     other cell and the number and order of rows stay as they were. */
  function CoerceColumn(rows: seq<Row>, a: nat): (r: seq<Row>)
    requires forall i :: 0 <= i < |rows| ==> a < |rows[i]|
    ensures |r| == |rows|
    ensures forall i :: 0 <= i < |rows| ==> |r[i]| == |rows[i]| && r[i][a] == Num(CoerceAmount(rows[i][a]))
    ensures forall i, j :: 0 <= i < |rows| && 0 <= j < |rows[i]| && j != a ==> r[i][j] == rows[i][j]
  {
    seq(|rows|, i requires 0 <= i < |rows| => rows[i][a := Num(CoerceAmount(rows[i][a]))])
  }

  // ---------------------------------------------------------------------
  // Keeping the expense rows

  /* `str.contains("Expense", case=False, na=False)` on one cell: text that
     contains "expense" in any mix of upper and lower case. */
  predicate IsExpense(c: Cell)
  {
    c.Str? && Contains(Lower(c.text), ExpenseWord)
  }

  predicate IsExpenseRow(row: Row, t: nat)
  {
    t < |row| && IsExpense(row[t])
  }

  /* The match is on a substring in any case: "Non Operating Expense" and
     "EXPENSES" are expenses, "Income" and a missing value are not. */
  lemma ExpenseExamples()
    ensures IsExpense(Str("Non Operating Expense"))
    ensures IsExpense(Str("EXPENSES"))
    ensures !IsExpense(Str("Income"))
    ensures !IsExpense(Missing)
  {
    assert OccursAt(Lower("Non Operating Expense"), ExpenseWord, 14);
    assert OccursAt(Lower("EXPENSES"), ExpenseWord, 0);
  }

  /* The seven characters of `s` from position `i` spell "expense" in some
     mix of cases. */
  predicate SpelledAt(s: string, i: nat)
  {
    i + |ExpenseWord| <= |s| && Lower(s[i..i + |ExpenseWord|]) == ExpenseWord
  }

  /* A cell is an expense exactly when some piece of its text spells
     "expense" in any mix of cases ("Expense", "EXPENSE", "eXpEnSe"). */
  lemma ExpenseAnyCase(s: string)
    ensures IsExpense(Str(s)) <==> exists i: nat :: SpelledAt(s, i)
  {
    var n := |ExpenseWord|;
    if IsExpense(Str(s)) {
      var i: nat :| OccursAt(Lower(s), ExpenseWord, i);
      LowerSlice(s, i, i + n);
      assert SpelledAt(s, i);
    }
    if exists i: nat :: SpelledAt(s, i) {
      var i: nat :| SpelledAt(s, i);
      LowerSlice(s, i, i + n);
      assert OccursAt(Lower(s), ExpenseWord, i);
    }
  }

  /* The seven characters of `s` from position `i` are, letter by letter,
     "expense" or "EXPENSE": each letter in either case. */
  predicate SpelledAnyCase(s: string, i: nat)
  {
    i + |ExpenseWord| <= |s| &&
    forall k :: 0 <= k < |ExpenseWord| ==> s[i + k] == ExpenseWord[k] || s[i + k] == ExpenseCaps[k]
  }

  /* A cell is an expense exactly when some seven characters of its text are
     the letters of "expense", each in upper or lower case; no lower-casing
     is involved in the statement. */
  lemma ExpenseCaseFree(s: string)
    ensures IsExpense(Str(s)) <==> exists i: nat :: SpelledAnyCase(s, i)
  {
    ExpenseAnyCase(s);
    if exists i: nat :: SpelledAt(s, i) {
      var i: nat :| SpelledAt(s, i);
      WindowSpelling(s, i);
      assert SpelledAnyCase(s, i);
    }
    if exists i: nat :: SpelledAnyCase(s, i) {
      var i: nat :| SpelledAnyCase(s, i);
      WindowSpelling(s, i);
      assert SpelledAt(s, i);
    }
  }

  /* One window: its lower-cased text is "expense" exactly when each of its
     characters is the matching letter in either case. */
  lemma WindowSpelling(s: string, i: nat)
    requires i + |ExpenseWord| <= |s|
    ensures SpelledAt(s, i) <==> SpelledAnyCase(s, i)
  {
    var n := |ExpenseWord|;
    var w := s[i..i + n];
    forall k | 0 <= k < n
      ensures Lower(w)[k] == ExpenseWord[k] <==> s[i + k] == ExpenseWord[k] || s[i + k] == ExpenseCaps[k]
    {
      assert w[k] == s[i + k];
      LowerCharIs(w[k], ExpenseWord[k]);
      assert ExpenseCaps[k] as int == ExpenseWord[k] as int - 32;
    }
    if SpelledAnyCase(s, i) {
      assert Lower(w) == ExpenseWord;
    }
  }

  /* Some row's column `t` is an expense. */
  predicate AnyExpense(rows: seq<Row>, t: nat)
  {
    exists i :: 0 <= i < |rows| && IsExpenseRow(rows[i], t)
  }

  /* app.py:20-22: the rows whose column `t` is an expense, in their order. */
  function FilterExpenses(rows: seq<Row>, t: nat): (kept: seq<Row>)
    ensures forall i :: 0 <= i < |kept| ==> IsExpenseRow(kept[i], t)
    ensures forall row :: multiset(kept)[row] == if IsExpenseRow(row, t) then multiset(rows)[row] else 0
  {
    if rows == [] then []
    else
      var rest := FilterExpenses(rows[1..], t);
      assert rows == [rows[0]] + rows[1..];
      if IsExpenseRow(rows[0], t) then [rows[0]] + rest else rest
  }

  /* `a` is `b` with some elements left out, the rest kept in order. */
  predicate IsSubsequence(a: seq<Row>, b: seq<Row>)
  {
    if a == [] then true
    else if b == [] then false
    else if a[0] == b[0] then IsSubsequence(a[1..], b[1..])
    else IsSubsequence(a, b[1..])
  }

  lemma {:induction false} FilterIsSubsequence(rows: seq<Row>, t: nat)
    ensures IsSubsequence(FilterExpenses(rows, t), rows)
  {
    if rows != [] {
      FilterIsSubsequence(rows[1..], t);
      var rest := FilterExpenses(rows[1..], t);
      if !IsExpenseRow(rows[0], t) {
        SubsequenceOfTail(rest, rows);
      }
    }
  }

  lemma {:induction false} SubsequenceOfTail(a: seq<Row>, b: seq<Row>)
    requires b != [] && IsSubsequence(a, b[1..])
    ensures IsSubsequence(a, b)
  {
    if a != [] && a[0] == b[0] {
      SubsequenceDropFirst(a, b[1..]);
    }
  }

  lemma {:induction false} SubsequenceDropFirst(a: seq<Row>, b: seq<Row>)
    requires a != [] && IsSubsequence(a, b)
    ensures IsSubsequence(a[1..], b)
  {
    if a[0] == b[0] {
      if a[1..] != [] {
        SubsequenceDropFirst(a[1..], b[1..]);
        SubsequenceOfTail(a[1..], b);
      }
    } else {
      SubsequenceDropFirst(a, b[1..]);
      if a[1..] != [] {
        SubsequenceOfTail(a[1..], b);
      }
    }
  }

  /* Filtering what was already filtered keeps all of it. */
  lemma {:induction false} FilterIdempotent(rows: seq<Row>, t: nat)
    ensures FilterExpenses(FilterExpenses(rows, t), t) == FilterExpenses(rows, t)
  {
    if rows != [] {
      FilterIdempotent(rows[1..], t);
      var rest := FilterExpenses(rows[1..], t);
      if IsExpenseRow(rows[0], t) {
        assert ([rows[0]] + rest)[1..] == rest;
      }
    }
  }

  // ---------------------------------------------------------------------
  // The grand total

  /* The number in column `a` of a coerced row. */
  function AmountOf(row: Row, a: nat): int
  {
    if a < |row| && row[a].Num? then row[a].cents else 0
  }

  /* app.py:30: `expenses["Amount"].sum()`. */
  function SumAmounts(rows: seq<Row>, a: nat): int
  {
    if rows == [] then 0 else AmountOf(rows[0], a) + SumAmounts(rows[1..], a)
  }

  /* The total of two runs of rows is the sum of their totals, so every row
     adds its own amount once. */
  lemma {:induction false} SumAmountsAppend(x: seq<Row>, y: seq<Row>, a: nat)
    ensures SumAmounts(x + y, a) == SumAmounts(x, a) + SumAmounts(y, a)
  {
    if x == [] {
      assert x + y == y;
    } else {
      assert (x + y)[1..] == x[1..] + y;
      SumAmountsAppend(x[1..], y, a);
    }
  }

  /* Reference total over the uncoerced data: the coerced amount of each row
     whose column `t` is an expense, and nothing for any other row. */
  function ExpenseTotal(rows: seq<Row>, a: nat, t: nat): int
    requires forall i :: 0 <= i < |rows| ==> a < |rows[i]|
  {
    if rows == [] then 0
    else (if IsExpenseRow(rows[0], t) then CoerceAmount(rows[0][a]) else 0) + ExpenseTotal(rows[1..], a, t)
  }

  /* Summing the kept rows after coercion gives the reference total: exactly
     the expense rows contribute, each with its coerced amount. */
  lemma {:induction false} TotalOfKeptRows(rows: seq<Row>, a: nat, t: nat)
    requires a != t
    requires forall i :: 0 <= i < |rows| ==> a < |rows[i]|
    ensures SumAmounts(FilterExpenses(CoerceColumn(rows, a), t), a) == ExpenseTotal(rows, a, t)
  {
    if rows != [] {
      var coerced := CoerceColumn(rows, a);
      assert CoerceColumn(rows[1..], a) == coerced[1..];
      TotalOfKeptRows(rows[1..], a, t);
      assert IsExpenseRow(coerced[0], t) == IsExpenseRow(rows[0], t);
      var rest := FilterExpenses(coerced[1..], t);
      if IsExpenseRow(rows[0], t) {
        assert ([coerced[0]] + rest)[1..] == rest;
      }
    }
  }

  /* Rows that are not expenses add nothing: the total over only the expense
     rows is the total over all rows. */
  lemma {:induction false} ExcludedRowsAddNothing(rows: seq<Row>, a: nat, t: nat)
    requires forall i :: 0 <= i < |rows| ==> a < |rows[i]|
    ensures var kept := FilterExpenses(rows, t);
      (forall i :: 0 <= i < |kept| ==> a < |kept[i]|) && ExpenseTotal(kept, a, t) == ExpenseTotal(rows, a, t)
  {
    var kept := FilterExpenses(rows, t);
    forall i | 0 <= i < |kept|
      ensures a < |kept[i]|
    {
      assert multiset(kept)[kept[i]] > 0;
      assert kept[i] in rows;
    }
    if rows != [] {
      ExcludedRowsAddNothing(rows[1..], a, t);
      var rest := FilterExpenses(rows[1..], t);
      if IsExpenseRow(rows[0], t) {
        assert ([rows[0]] + rest)[1..] == rest;
      }
    }
  }

  // ---------------------------------------------------------------------
  // The whole run

  /* app.py:17-34 on a read table: coerce `Amount`, then keep the expense rows
     by `Account Type`; with none kept only the labels are reported,
     otherwise the kept rows and their total. */
  function Summarize(table: Table): Outcome
    requires Rectangular(table)
  {
    match FindColumn(table.columns, AmountLabel)
    case Err(e) => Failed(e)
    case Ok(a) =>
      var coerced := CoerceColumn(table.rows, a);
      match FindColumn(table.columns, AccountTypeLabel)
      case Err(e) => Failed(e)
      case Ok(t) =>
        var expenses := FilterExpenses(coerced, t);
        if expenses == [] then NoExpenses(table.columns)
        else Summary(expenses, SumAmounts(expenses, a))
  }

  /* app.py:9-39: the outcome of one week's sheet. */
  function Run(lines: seq<Option<string>>): Outcome
  {
    match ReadSheet(lines)
    case Err(e) => Failed(e)
    case Ok(table) => Summarize(table)
  }

  /* A table is refused exactly when, after trimming, `Amount` or `Account
     Type` is not the label of exactly one column; `Amount` is looked up first,
     and a missing label is told apart from a repeated one. */
  lemma SummarizeFails(table: Table)
    requires Rectangular(table)
    ensures var cs := table.columns;
      && (Summarize(table).Failed? <==> !Unique(cs, AmountLabel) || !Unique(cs, AccountTypeLabel))
      && (!Unique(cs, AmountLabel) ==> Summarize(table) == Failed(ColumnFailure(cs, AmountLabel)))
      && (Unique(cs, AmountLabel) && !Unique(cs, AccountTypeLabel) ==>
            Summarize(table) == Failed(ColumnFailure(cs, AccountTypeLabel)))
  {
  }

  /* A run fails exactly when the sheet is empty or its labels are refused. */
  lemma RunFails(lines: seq<Option<string>>)
    ensures lines == [] ==> Run(lines) == Failed(EmptySheet)
    ensures lines != [] ==> var cs := ReadSheet(lines).value.columns;
      && (Run(lines).Failed? <==> !Unique(cs, AmountLabel) || !Unique(cs, AccountTypeLabel))
      && (!Unique(cs, AmountLabel) ==> Run(lines) == Failed(ColumnFailure(cs, AmountLabel)))
      && (Unique(cs, AmountLabel) && !Unique(cs, AccountTypeLabel) ==>
            Run(lines) == Failed(ColumnFailure(cs, AccountTypeLabel)))
  {
    if lines != [] {
      SummarizeFails(ReadSheet(lines).value);
    }
  }

  /* With both columns found, the warning is given exactly when no data row is
     an expense; otherwise the result is the expense rows, coerced and in
     order, and their total is the reference total. */
  lemma SummarizeOutcome(table: Table, a: nat, t: nat)
    requires Rectangular(table)
    requires var cs := table.columns;
      a < |cs| && cs[a] == Some(AmountLabel) && Unique(cs, AmountLabel)
      && t < |cs| && cs[t] == Some(AccountTypeLabel) && Unique(cs, AccountTypeLabel)
    ensures var out := Summarize(table);
      && (out.NoExpenses? <==> !AnyExpense(table.rows, t))
      && (out.NoExpenses? ==> out.columns == table.columns)
      && (out.Summary? <==> AnyExpense(table.rows, t))
      && (out.Summary? ==>
            && out.expenses == FilterExpenses(CoerceColumn(table.rows, a), t)
            && out.total == ExpenseTotal(table.rows, a, t))
  {
    FindColumnOnly(table.columns, AmountLabel, a);
    FindColumnOnly(table.columns, AccountTypeLabel, t);
    var coerced := CoerceColumn(table.rows, a);
    var kept := FilterExpenses(coerced, t);
    TotalOfKeptRows(table.rows, a, t);
    forall i | 0 <= i < |table.rows|
      ensures IsExpenseRow(coerced[i], t) == IsExpenseRow(table.rows[i], t)
    {
    }
    if exists i :: 0 <= i < |table.rows| && IsExpenseRow(table.rows[i], t) {
      var i :| 0 <= i < |table.rows| && IsExpenseRow(table.rows[i], t);
      assert multiset(coerced)[coerced[i]] > 0;
      assert multiset(kept)[coerced[i]] > 0;
    }
  }

  /* The same for a whole run: once `Amount` is column `a` and `Account Type`
     is column `t`, the outcome is decided by the data rows, the lines after
     the first. */
  lemma RunSummary(lines: seq<Option<string>>, a: nat, t: nat)
    ensures lines != [] ==> var table := ReadSheet(lines).value;
      FindColumn(table.columns, AmountLabel) == Ok(a) && FindColumn(table.columns, AccountTypeLabel) == Ok(t) ==>
        && (Run(lines).NoExpenses? <==> !AnyExpense(table.rows, t))
        && (Run(lines).Summary? <==> AnyExpense(table.rows, t))
        && (Run(lines).Summary? ==> Run(lines).total == ExpenseTotal(table.rows, a, t))
  {
    if lines != [] {
      var table := ReadSheet(lines).value;
      if FindColumn(table.columns, AmountLabel) == Ok(a) && FindColumn(table.columns, AccountTypeLabel) == Ok(t) {
        SummarizeOutcome(table, a, t);
      }
    }
  }
}
