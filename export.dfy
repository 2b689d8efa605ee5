/**
 * `HabitExportService.generateCSV`: a table with one column per habit and
 * one row per day from the earliest start date to today. A cell reads
 * "REST DAY" on a day outside the habit's cadence and the truncated
 * completion percentage otherwise. Titles are quoted CSV fields when they
 * hold a comma, a double quote or a line feed.
 */
module Export {
  import opened Options
  import opened Text
  import opened Calendar
  import opened HabitModel
  import opened SnapshotBuilder

  // ---------------------------------------------------------------------------
  // Escaping (`escapeCSV`)

  /** A field that must be quoted: it holds a comma, a double quote or a line feed. */
  predicate NeedsQuoting(field: string)
  {
    ',' in field || '"' in field || '\n' in field
  }

  /** `replacingOccurrences(of: "\"", with: "\"\"")` */
  function DoubleQuotes(s: string): (r: string)
    ensures |r| == |s| + CountChar(s, '"')
    decreases |s|
  {
    if s == [] then []
    else (if s[0] == '"' then "\"\"" else [s[0]]) + DoubleQuotes(s[1..])
  }

  /** `escapeCSV(_:)` */
  function EscapeCsv(field: string): (r: string)
    ensures !NeedsQuoting(field) ==> r == field
    ensures NeedsQuoting(field) ==> |r| >= 2 && r[0] == '"' && r[|r| - 1] == '"'
  {
    if NeedsQuoting(field) then "\"" + DoubleQuotes(field) + "\"" else field
  }

  /** Reading a doubled quote as one quote. */
  function UndoubleQuotes(s: string): string
    decreases |s|
  {
    if s == [] then []
    else if |s| >= 2 && s[0] == '"' && s[1] == '"' then "\"" + UndoubleQuotes(s[2..])
    else [s[0]] + UndoubleQuotes(s[1..])
  }

  /** How a CSV reader reads one field: a quoted field loses its quotes and its doubled quotes. */
  function UnescapeCsv(field: string): string
  {
    if |field| >= 2 && field[0] == '"' && field[|field| - 1] == '"' then UndoubleQuotes(field[1..|field| - 1])
    else field
  }

  lemma {:induction false} UndoubleDoubled(s: string)
    ensures UndoubleQuotes(DoubleQuotes(s)) == s
    decreases |s|
  {
    if s != [] {
      UndoubleDoubled(s[1..]);
      var rest := DoubleQuotes(s[1..]);
      if s[0] == '"' {
        assert DoubleQuotes(s) == "\"\"" + rest;
        assert (("\"\"" + rest)[2..]) == rest;
      } else {
        assert DoubleQuotes(s) == [s[0]] + rest;
        assert ([s[0]] + rest)[1..] == rest;
      }
      assert [s[0]] + s[1..] == s;
    }
  }

  /** A reader gets every title back from its escaped field. */
  lemma EscapeRoundTrip(field: string)
    ensures UnescapeCsv(EscapeCsv(field)) == field
  {
    if NeedsQuoting(field) {
      var inner := DoubleQuotes(field);
      assert ("\"" + inner + "\"")[1..|inner| + 1] == inner;
      UndoubleDoubled(field);
    } else if |field| >= 2 {
      assert field[0] in field;
    }
  }

  lemma {:induction false} DoubledQuoteCount(s: string)
    ensures CountChar(DoubleQuotes(s), '"') == 2 * CountChar(s, '"')
    decreases |s|
  {
    if s != [] {
      DoubledQuoteCount(s[1..]);
      var head := if s[0] == '"' then "\"\"" else [s[0]];
      CountCharConcat(head, DoubleQuotes(s[1..]), '"');
    }
  }

  /**
   * An escaped field holds twice the title's double quotes, plus the two
   * enclosing ones when it is quoted: quotes come in pairs.
   */
  lemma EscapedQuoteCount(field: string)
    ensures CountChar(EscapeCsv(field), '"') == 2 * CountChar(field, '"') + (if NeedsQuoting(field) then 2 else 0)
  {
    var n := CountChar(field, '"');
    DoubledQuoteCount(field);
    if NeedsQuoting(field) {
      var inner := DoubleQuotes(field);
      assert CountChar("\"", '"') == 1;
      CountCharConcat("\"", inner, '"');
      CountCharConcat("\"" + inner, "\"", '"');
    }
  }

  // ---------------------------------------------------------------------------
  // The table

  /** The cell of habit `h` on day `d`. */
  function Cell(h: Habit, d: Day): string
  {
    if !IsActiveDay(h, d) then "REST DAY"
    else IntText(Trunc(CompletionValue(h, d) * 100.0)) + "%"
  }

  /** The cells of a row, each after a comma. */
  function Cells(habits: seq<Habit>, d: Day): string
    decreases |habits|
  {
    if habits == [] then ""
    else Cells(habits[..|habits| - 1], d) + "," + Cell(habits[|habits| - 1], d)
  }

  /** The row of day `d`: its key, the cells, a line feed. */
  function Row(habits: seq<Habit>, d: Day): string
  {
    DateString(d) + Cells(habits, d) + "\n"
  }

  /** The rows of days `ds`, in order. */
  function Rows(habits: seq<Habit>, ds: seq<Day>): string
    decreases |ds|
  {
    if ds == [] then ""
    else Rows(habits, ds[..|ds| - 1]) + Row(habits, ds[|ds| - 1])
  }

  /** The escaped titles, each after a comma. */
  function HeaderCells(habits: seq<Habit>): string
    decreases |habits|
  {
    if habits == [] then ""
    else HeaderCells(habits[..|habits| - 1]) + "," + EscapeCsv(habits[|habits| - 1].title)
  }

  function Header(habits: seq<Habit>): string
  {
    "Date" + HeaderCells(habits) + "\n"
  }

  /** The exported days: from the earliest start date to today. */
  function ExportDays(habits: seq<Habit>, today: Day): seq<Day>
  {
    var earliest := EarliestStart(habits, today);
    WindowDays(earliest, today, earliest)
  }

  /** The text `generateCSV(habits:)` returns when today is `today`. */
  function CsvText(habits: seq<Habit>, today: Day): (csv: string)
    ensures habits == [] ==> csv == "No habits to export"
  {
    if habits == [] then "No habits to export"
    else Header(habits) + Rows(habits, ExportDays(habits, today))
  }

  /** `generateCSV(habits:)`; `today` is the current date. */
  method GenerateCSV(habits: seq<Habit>, today: Day) returns (csv: string)
    ensures csv == CsvText(habits, today)
  {
    if habits == [] {
      return "No habits to export";
    }
    var earliestDate := MinStart(habits).GetOr(today);
    var dates := DatesFrom(earliestDate, today);

    csv := HeaderLine(habits);
    csv := AppendRows(csv, habits, dates);
  }

  /** The row loop of `generateCSV`: append the rows of `dates` to `csv`. */
  method AppendRows(csv0: string, habits: seq<Habit>, dates: seq<Day>) returns (csv: string)
    ensures csv == csv0 + Rows(habits, dates)
  {
    csv := csv0;
    for j := 0 to |dates|
      invariant csv == csv0 + Rows(habits, dates[..j])
    {
      ghost var before := csv;
      csv := AppendRow(csv, habits, dates[j]);
      RowsSnoc(habits, dates, j);
      AppendAssoc(csv0, Rows(habits, dates[..j]), Row(habits, dates[j]));
      assert csv == before + Row(habits, dates[j]);
    }
    assert dates[..|dates|] == dates;
  }

  /** The rows of a longer prefix: one more row at the end. */
  lemma RowsSnoc(habits: seq<Habit>, ds: seq<Day>, k: int)
    requires 0 <= k < |ds|
    ensures Rows(habits, ds[..k + 1]) == Rows(habits, ds[..k]) + Row(habits, ds[k])
  {
    assert ds[..k + 1][..k] == ds[..k];
  }

  /** The header loop of `generateCSV`: "Date", then each escaped title after a comma, then a line feed. */
  method HeaderLine(habits: seq<Habit>) returns (csv: string)
    ensures csv == Header(habits)
  {
    csv := "Date";
    for i := 0 to |habits|
      invariant csv == "Date" + HeaderCells(habits[..i])
    {
      assert habits[..i + 1][..i] == habits[..i];
      csv := csv + "," + EscapeCsv(habits[i].title);
      AppendAssoc("Date", HeaderCells(habits[..i]), ",");
      AppendAssoc("Date", HeaderCells(habits[..i]) + ",", EscapeCsv(habits[i].title));
    }
    assert habits[..|habits|] == habits;
    csv := csv + "\n";
  }

  /** The date loop of `generateCSV`: every day from `earliest` to `today`, in order. */
  method DatesFrom(earliest: Day, today: Day) returns (dates: seq<Day>)
    ensures dates == WindowDays(earliest, today, earliest)
  {
    dates := [];
    var currentDate := earliest;
    while currentDate <= today
      invariant earliest <= currentDate
      invariant dates == WindowDays(earliest, currentDate - 1, earliest)
      invariant currentDate > earliest ==> currentDate <= today + 1
      decreases today - currentDate
    {
      dates := dates + [currentDate];
      currentDate := currentDate + 1;
    }
  }

  /** One pass of the row loop of `generateCSV`: append the row of `date` to `csv`. */
  method AppendRow(csv0: string, habits: seq<Habit>, date: Day) returns (csv: string)
    ensures csv == csv0 + Row(habits, date)
  {
    csv := csv0 + DateString(date);
    for i := 0 to |habits|
      invariant csv == csv0 + DateString(date) + Cells(habits[..i], date)
    {
      csv := AppendCell(csv, habits[i], date);
      CellsSnoc(habits, date, i);
      AppendAssoc(csv0 + DateString(date), Cells(habits[..i], date), "," + Cell(habits[i], date));
      AppendAssoc(Cells(habits[..i], date), ",", Cell(habits[i], date));
    }
    assert habits[..|habits|] == habits;
    csv := csv + "\n";
    AppendAssoc(csv0, DateString(date), Cells(habits, date));
    AppendAssoc(csv0, DateString(date) + Cells(habits, date), "\n");
  }

  /** The cells of a longer prefix of the habits: one more cell at the end. */
  lemma CellsSnoc(habits: seq<Habit>, d: Day, k: int)
    requires 0 <= k < |habits|
    ensures Cells(habits[..k + 1], d) == Cells(habits[..k], d) + "," + Cell(habits[k], d)
  {
    assert habits[..k + 1][..k] == habits[..k];
  }

  /** The body of the habit loop of `generateCSV`: a comma, then the cell of `habit` on `date`. */
  method AppendCell(csv0: string, habit: Habit, date: Day) returns (csv: string)
    ensures csv == csv0 + ("," + Cell(habit, date))
  {
    csv := csv0 + ",";
    if !IsActiveDay(habit, date) {
      csv := csv + "REST DAY";
    } else {
      var completionValue := CompletionValue(habit, date);
      var percentage := Trunc(completionValue * 100.0);
      csv := csv + (IntText(percentage) + "%");
      ActiveCell(habit, date);
    }
    AppendAssoc(csv0, ",", Cell(habit, date));
  }

  /** Concatenation is associative. */
  lemma AppendAssoc(a: string, b: string, c: string)
    ensures (a + b) + c == a + (b + c)
  {
  }

  // ---------------------------------------------------------------------------
  // Properties of the table

  /** A date key holds only digits and dashes. */
  lemma DateStringChars(d: Day)
    ensures forall i :: 0 <= i < |DateString(d)| ==> IsDigit(DateString(d)[i]) || DateString(d)[i] == '-'
  {
    var c := ToCivil(d);
    var y := YearText(c.year);
    var s := y + "-" + Padded(c.month, 2) + "-" + Padded(c.day, 2);
    assert DateString(d) == s;
    forall i | 0 <= i < |s|
      ensures IsDigit(s[i]) || s[i] == '-'
    {
      if i < |y| {
        assert s[i] == y[i];
      } else if i == |y| {
      } else if i < |y| + 1 + |Padded(c.month, 2)| {
        assert s[i] == Padded(c.month, 2)[i - |y| - 1];
      } else if i == |y| + 1 + |Padded(c.month, 2)| {
      } else {
        assert s[i] == Padded(c.day, 2)[i - |y| - 2 - |Padded(c.month, 2)|];
      }
    }
  }

  /** The rendering of an integer holds only digits and a minus sign. */
  lemma IntTextChars(i: int)
    ensures forall k :: 0 <= k < |IntText(i)| ==> IsDigit(IntText(i)[k]) || IntText(i)[k] == '-'
  {
    var digits := Decimal(if i < 0 then -i else i);
    if i < 0 {
      forall k | 0 <= k < |IntText(i)|
        ensures IsDigit(IntText(i)[k]) || IntText(i)[k] == '-'
      {
        if k > 0 {
          assert IntText(i)[k] == digits[k - 1];
        }
      }
    }
  }

  /** A cell holds no comma and no line feed. */
  lemma CellChars(h: Habit, d: Day)
    ensures ',' !in Cell(h, d) && '\n' !in Cell(h, d)
  {
    if !IsActiveDay(h, d) {
      var r := "REST DAY";
      assert forall k :: 0 <= k < |r| ==> r[k] != ',' && r[k] != '\n';
    } else {
      ActiveCell(h, d);
      PercentTextChars(Trunc(CompletionValue(h, d) * 100.0));
    }
  }

  /** A percentage and its sign hold neither a comma nor a line feed. */
  lemma PercentTextChars(p: int)
    ensures ',' !in IntText(p) + "%" && '\n' !in IntText(p) + "%"
  {
    var t := IntText(p);
    IntTextChars(p);
    var s := t + "%";
    forall k | 0 <= k < |s|
      ensures s[k] != ',' && s[k] != '\n'
    {
      if k < |t| {
        assert s[k] == t[k];
      }
    }
  }

  /** The cells of a row hold one comma per habit and no line feed. */
  lemma {:induction false} CellsSeparators(habits: seq<Habit>, d: Day)
    ensures CountChar(Cells(habits, d), ',') == |habits|
    ensures CountChar(Cells(habits, d), '\n') == 0
    decreases |habits|
  {
    if habits != [] {
      var prefix := habits[..|habits| - 1];
      var h := habits[|habits| - 1];
      CellsSeparators(prefix, d);
      CellChars(h, d);
      CountCharConcat(Cells(prefix, d), ",", ',');
      CountCharConcat(Cells(prefix, d) + ",", Cell(h, d), ',');
      CountCharConcat(Cells(prefix, d), ",", '\n');
      CountCharConcat(Cells(prefix, d) + ",", Cell(h, d), '\n');
    }
  }

  /** A row has one field per habit after the date, and ends its line. */
  lemma RowShape(habits: seq<Habit>, d: Day)
    ensures CountChar(Row(habits, d), ',') == |habits|
    ensures CountChar(Row(habits, d), '\n') == 1
    ensures Row(habits, d)[|Row(habits, d)| - 1] == '\n'
  {
    DateStringChars(d);
    assert ',' !in DateString(d) && '\n' !in DateString(d);
    CellsSeparators(habits, d);
    CountCharConcat(DateString(d), Cells(habits, d), ',');
    CountCharConcat(DateString(d) + Cells(habits, d), "\n", ',');
    CountCharConcat(DateString(d), Cells(habits, d), '\n');
    CountCharConcat(DateString(d) + Cells(habits, d), "\n", '\n');
  }

  /** There is one line per exported day. */
  lemma {:induction false} RowsLines(habits: seq<Habit>, ds: seq<Day>)
    ensures CountChar(Rows(habits, ds), '\n') == |ds|
    decreases |ds|
  {
    if ds != [] {
      RowsLines(habits, ds[..|ds| - 1]);
      RowShape(habits, ds[|ds| - 1]);
      CountCharConcat(Rows(habits, ds[..|ds| - 1]), Row(habits, ds[|ds| - 1]), '\n');
    }
  }

  /** The exported days run one by one from the earliest start date to today. */
  lemma ExportDaysRange(habits: seq<Habit>, today: Day)
    requires habits != []
    ensures var ds := ExportDays(habits, today);
            var earliest := MinStart(habits).value;
            && |ds| == Max(0, today - earliest + 1)
            && (forall k :: 0 <= k < |ds| ==> ds[k] == earliest + k)
  {
    var earliest := EarliestStart(habits, today);
    WindowDaysRange(earliest, today, earliest, ExportDays(habits, today));
  }

  /** Every day from a habit's start to today has a row. */
  lemma EveryStartedDayExported(habits: seq<Habit>, today: Day, i: int, d: Day)
    requires 0 <= i < |habits| && habits[i].startDate <= d <= today
    ensures d in ExportDays(habits, today)
  {
    ExportDaysRange(habits, today);
    var earliest := MinStart(habits).value;
    assert ExportDays(habits, today)[d - earliest] == d;
  }

  /** With titles free of line feeds, the table has a header line and one line per day. */
  lemma CsvLines(habits: seq<Habit>, today: Day)
    requires habits != []
    requires forall i :: 0 <= i < |habits| ==> '\n' !in habits[i].title
    ensures CountChar(CsvText(habits, today), '\n') == 1 + |ExportDays(habits, today)|
  {
    HeaderCellsLines(habits);
    RowsLines(habits, ExportDays(habits, today));
    CountCharConcat("Date", HeaderCells(habits), '\n');
    CountCharConcat("Date" + HeaderCells(habits), "\n", '\n');
    CountCharConcat(Header(habits), Rows(habits, ExportDays(habits, today)), '\n');
  }

  /** Titles free of line feeds give a header without one. */
  lemma {:induction false} HeaderCellsLines(habits: seq<Habit>)
    requires forall i :: 0 <= i < |habits| ==> '\n' !in habits[i].title
    ensures CountChar(HeaderCells(habits), '\n') == 0
    decreases |habits|
  {
    if habits != [] {
      var prefix := habits[..|habits| - 1];
      var t := habits[|habits| - 1].title;
      HeaderCellsLines(prefix);
      assert !NeedsQuoting(t) ==> EscapeCsv(t) == t;
      CountCharConcat(HeaderCells(prefix), ",", '\n');
      CountCharConcat(HeaderCells(prefix) + ",", EscapeCsv(t), '\n');
      if NeedsQuoting(t) {
        NoLineFeedDoubled(t);
        CountCharConcat("\"", DoubleQuotes(t), '\n');
        CountCharConcat("\"" + DoubleQuotes(t), "\"", '\n');
      }
    }
  }

  lemma {:induction false} NoLineFeedDoubled(s: string)
    requires '\n' !in s
    ensures CountChar(DoubleQuotes(s), '\n') == 0
    decreases |s|
  {
    if s != [] {
      assert s[0] in s;
      assert forall c :: c in s[1..] ==> c in s;
      NoLineFeedDoubled(s[1..]);
      var head := if s[0] == '"' then "\"\"" else [s[0]];
      CountCharConcat(head, DoubleQuotes(s[1..]), '\n');
    }
  }

  /**
   * On an active day a cell is a whole percentage from 0 to 100 (no minutes
   * entry being negative): "100%" when the habit is complete, "0%" when it
   * has nothing logged.
   */
  lemma CellPercent(h: Habit, d: Day)
    requires IsActiveDay(h, d) && MinutesOn(h, d) >= 0
    ensures var p := Trunc(CompletionValue(h, d) * 100.0);
            && 0 <= p <= 100
            && Cell(h, d) == Decimal(p) + "%"
  {
    PercentOf(CompletionValue(h, d));
    ActiveCell(h, d);
  }

  /** The cell of an active day, in terms of the completion value. */
  lemma ActiveCell(h: Habit, d: Day)
    requires IsActiveDay(h, d)
    ensures Cell(h, d) == IntText(Trunc(CompletionValue(h, d) * 100.0)) + "%"
  {
  }

  /** A cell reads "REST DAY" exactly on the days off the cadence; the start date is not consulted. */
  lemma RestDayCell(h: Habit, d: Day, start: Day)
    ensures Cell(h, d) == "REST DAY" <==> !IsActiveDay(h, d)
    ensures Cell(h.(startDate := start), d) == Cell(h, d)
  {
    var moved := h.(startDate := start);
    assert IsActiveDay(moved, d) == IsActiveDay(h, d);
    assert CompletionValue(moved, d) == CompletionValue(h, d);
    if IsActiveDay(h, d) {
      ActiveCell(h, d);
      ActiveCell(moved, d);
      var text := IntText(Trunc(CompletionValue(h, d) * 100.0));
      assert Cell(h, d) == text + "%";
      assert Cell(h, d)[|text|] == '%';
    }
  }

  /** A complete day exports as "100%" and a missed one as "0%". */
  lemma CellPercentEnds(h: Habit, d: Day)
    requires IsActiveDay(h, d)
    ensures CompletionValue(h, d) == 1.0 ==> Cell(h, d) == "100%"
    ensures CompletionValue(h, d) == 0.0 ==> Cell(h, d) == "0%"
  {
    var v := CompletionValue(h, d);
    if v == 1.0 || v == 0.0 {
      PercentOf(v);
      var text := IntText(Trunc(v * 100.0));
      assert text == "100" ==> text + "%" == "100%";
      assert text == "0" ==> text + "%" == "0%";
    }
  }

  /** The truncated percentage of a fraction between 0 and 1, and its rendering at both ends. */
  lemma PercentOf(v: real)
    requires 0.0 <= v <= 1.0
    ensures var p := Trunc(v * 100.0);
            && 0 <= p <= 100
            && IntText(p) == Decimal(p)
            && (v == 1.0 ==> IntText(p) == "100")
            && (v == 0.0 ==> IntText(p) == "0")
  {
    var p := Trunc(v * 100.0);
    assert 0 <= p <= 100;
    if v == 1.0 {
      assert p == 100;
      assert Decimal(100) == "100" by {
        assert Padded(1, 0) == "1";
        assert Padded(10, 0) == "10";
      }
    }
    if v == 0.0 {
      assert p == 0;
    }
  }
}
