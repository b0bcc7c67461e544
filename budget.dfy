/**
 * create_budget.py: the budget workbook built from the activities table. Its
 * three sheets are the priced activities, a seven-day skeleton for the week of
 * August 17 to 23, and a summary whose totals are spreadsheet formulas over the
 * other two. Formulas are kept as structured values and never evaluated; Render
 * gives the text that is written into the cell.
 */
module Budget {
  import opened Wrappers
  import opened Text
  import opened Cells
  import Calendar

  /** The columns of an activities row that the budget reads. */
  datatype Row = Row(name: Cell, costEstimate: Cell)

  /** The filter's marker: the pattern `\$` is a literal dollar sign. */
  const Dollar: string := "$"

  /** The extraction pattern's marker as its text reads: a backslash, then a dollar sign. */
  const BackslashDollar: string := "\\$"

  // ------------------------------------------------------------ filter

  /** `str.contains("\$", na=False)`: the cost mentions a dollar sign; a missing cost does not. */
  predicate HasCurrency(r: Row)
  {
    r.costEstimate.Str? && Contains(r.costEstimate.text, Dollar)
  }

  /** The rows the budget keeps, in input order. */
  function Kept(rows: seq<Row>): (kept: seq<Row>)
    ensures |kept| <= |rows|
    ensures forall r :: r in kept <==> r in rows && HasCurrency(r)
  {
    if rows == [] then []
    else
      var last := rows[|rows| - 1];
      assert rows == rows[..|rows| - 1] + [last];
      Kept(rows[..|rows| - 1]) + (if HasCurrency(last) then [last] else [])
  }

  /** One unfolding of Kept, stated for the row read last. */
  lemma KeptStep(rows: seq<Row>)
    requires rows != []
    ensures Kept(rows) == Kept(rows[..|rows| - 1]) + (if HasCurrency(rows[|rows| - 1]) then [rows[|rows| - 1]] else [])
  {
  }

  /** Filtering two batches is filtering each: the kept rows keep their input order. */
  lemma {:induction false} KeptAppend(a: seq<Row>, b: seq<Row>)
    ensures Kept(a + b) == Kept(a) + Kept(b)
    decreases |b|
  {
    if b == [] {
      assert a + b == a;
    } else {
      var ab, b', last := a + b, b[..|b| - 1], b[|b| - 1];
      assert ab[..|ab| - 1] == a + b' && ab[|ab| - 1] == last;
      KeptAppend(a, b');
      KeptStep(ab);
      KeptStep(b);
      var tail := if HasCurrency(last) then [last] else [];
      assert Kept(a) + (Kept(b') + tail) == (Kept(a) + Kept(b')) + tail;
    }
  }

  // ------------------------------------------------------------ extraction

  /** The longest run of digits at the start of t. */
  function LeadingDigits(t: string): (d: string)
    ensures AllDigits(d) && StartsWith(t, d)
    ensures |d| == |t| || !IsDigit(t[|d|])
    decreases |t|
  {
    if t != [] && IsDigit(t[0]) then
      var d := [t[0]] + LeadingDigits(t[1..]);
      assert t[..|d|] == [t[0]] + t[1..][..|d| - 1];
      d
    else []
  }

  /** The marker occurs at i and a digit follows it. */
  predicate AmountAt(s: string, marker: string, i: nat)
  {
    OccursAt(s, marker, i) && i + |marker| < |s| && IsDigit(s[i + |marker|])
  }

  /** The amount written after the marker at i: the whole digit run that follows it. */
  function AmountValue(s: string, marker: string, i: nat): nat
    requires i + |marker| <= |s|
  {
    DigitsValue(LeadingDigits(s[i + |marker|..]))
  }

  predicate NoAmountBetween(s: string, marker: string, from: nat, i: nat)
  {
    forall j :: from <= j < i ==> !AmountAt(s, marker, j)
  }

  /**
   * `str.extract(marker + r'(\d+)')` followed by `astype(float)`, searching from
   * `from`; ExtractFromSpec states what it finds.
   */
  function ExtractFrom(s: string, marker: string, from: nat): Option<nat>
    requires from <= |s|
    decreases |s| - from
  {
    if from == |s| then None
    else if AmountAt(s, marker, from) then Some(AmountValue(s, marker, from))
    else ExtractFrom(s, marker, from + 1)
  }

  /** Below any marker followed by a digit there is a leftmost one. */
  lemma {:induction false} FirstAmount(s: string, marker: string, from: nat, j: nat) returns (i: nat)
    requires from <= j && AmountAt(s, marker, j)
    ensures from <= i <= j && AmountAt(s, marker, i) && NoAmountBetween(s, marker, from, i)
    decreases j - from
  {
    if AmountAt(s, marker, from) {
      i := from;
    } else {
      i := FirstAmount(s, marker, from + 1, j);
    }
  }

  /** The first marker followed by a digit, at or after `from`, gives the amount. */
  lemma {:induction false} ExtractLeftmost(s: string, marker: string, from: nat, i: nat)
    requires from <= i < |s|
    requires AmountAt(s, marker, i) && NoAmountBetween(s, marker, from, i)
    ensures ExtractFrom(s, marker, from) == Some(AmountValue(s, marker, i))
    decreases i - from
  {
    if from < i {
      assert !AmountAt(s, marker, from);
      ExtractLeftmost(s, marker, from + 1, i);
    }
  }

  /** No marker followed by a digit at or after `from`: the amount is missing. */
  lemma {:induction false} ExtractNone(s: string, marker: string, from: nat)
    requires from <= |s|
    requires forall i :: from <= i < |s| ==> !AmountAt(s, marker, i)
    ensures ExtractFrom(s, marker, from) == None
    decreases |s| - from
  {
    if from < |s| {
      assert !AmountAt(s, marker, from);
      ExtractNone(s, marker, from + 1);
    }
  }

  /**
   * The leftmost marker that a digit follows gives the value of the maximal
   * digit run after it; with no such marker the amount is missing.
   */
  lemma ExtractFromSpec(s: string, marker: string, from: nat)
    requires from <= |s|
    ensures ExtractFrom(s, marker, from).None? <==> forall i :: from <= i <= |s| ==> !AmountAt(s, marker, i)
    ensures ExtractFrom(s, marker, from).Some? ==>
              exists i :: from <= i < |s| && AmountAt(s, marker, i) && NoAmountBetween(s, marker, from, i)
                          && ExtractFrom(s, marker, from).value == AmountValue(s, marker, i)
  {
    if j :| from <= j < |s| && AmountAt(s, marker, j) {
      var i := FirstAmount(s, marker, from, j);
      ExtractLeftmost(s, marker, from, i);
    } else {
      ExtractNone(s, marker, from);
    }
  }

  function Extract(s: string, marker: string): Option<nat>
  {
    ExtractFrom(s, marker, 0)
  }

  /** A digit run followed by a non-digit is exactly the leading digits. */
  lemma {:induction false} LeadingDigitsOf(d: string, rest: string)
    requires AllDigits(d) && (rest == [] || !IsDigit(rest[0]))
    ensures LeadingDigits(d + rest) == d
    decreases |d|
  {
    if d != [] {
      assert (d + rest)[1..] == d[1..] + rest;
      LeadingDigitsOf(d[1..], rest);
    } else {
      assert d + rest == rest;
    }
  }

  /**
   * With the dollar sign as marker, a cost such as "about $10-15 each" gives the
   * number printed right after the first dollar sign: 10 here, never 0.
   */
  lemma AmountPrinted(p: string, k: nat, rest: string)
    requires forall i :: 0 <= i < |p| ==> p[i] != '$'
    requires rest == [] || !IsDigit(rest[0])
    ensures Extract(p + Dollar + NatToString(k) + rest, Dollar) == Some(k)
  {
    var ks := NatToString(k);
    var s := p + Dollar + ks + rest;
    NatToStringRoundTrip(k);
    assert s[|p|] == '$' && s[|p|..|p| + 1] == Dollar;
    assert s[|p| + 1] == ks[0];
    assert AmountAt(s, Dollar, |p|);
    forall j | 0 <= j < |p| ensures !AmountAt(s, Dollar, j) {
      assert s[j..j + 1][0] == s[j] == p[j];
    }
    assert s[|p| + 1..] == ks + rest;
    LeadingDigitsOf(ks, rest);
    ExtractLeftmost(s, Dollar, 0, |p|);
  }

  /** A cost with no dollar sign followed by a digit has no amount: missing, not zero. */
  lemma NoAmountMissing(s: string)
    requires forall i :: 0 <= i < |s| - 1 ==> !(s[i] == '$' && IsDigit(s[i + 1]))
    ensures Extract(s, Dollar) == None
  {
    forall i | 0 <= i < |s| ensures !AmountAt(s, Dollar, i) {
      if i + 1 < |s| && OccursAt(s, Dollar, i) {
        assert s[i..i + 1][0] == s[i];
      }
    }
    ExtractNone(s, Dollar, 0);
  }

  /** As the pattern's text reads, a backslash must precede the dollar sign: costs without one never give an amount. */
  lemma AsWrittenAmountMissing(s: string)
    requires forall i :: 0 <= i < |s| ==> s[i] != '\\'
    ensures Extract(s, BackslashDollar) == None
  {
    forall i | 0 <= i < |s| ensures !AmountAt(s, BackslashDollar, i) {
      if i + 2 <= |s| {
        assert s[i..i + 2][0] == s[i];
      }
    }
    ExtractNone(s, BackslashDollar, 0);
  }

  /** "$25" passes the filter, yet the pattern as its text reads extracts nothing from it. */
  lemma AsWrittenKeptWithoutAmount(name: Cell, k: nat)
    ensures HasCurrency(Row(name, Str(Dollar + NatToString(k))))
    ensures Extract(Dollar + NatToString(k), BackslashDollar) == None
    ensures Extract(Dollar + NatToString(k), Dollar) == Some(k)
  {
    var s := Dollar + NatToString(k);
    NatToStringRoundTrip(k);
    assert OccursAt(s, Dollar, 0);
    ContainsAt(s, Dollar, 0);
    forall i | 0 <= i < |s| ensures s[i] != '\\' {
      if i > 0 { assert s[i] == NatToString(k)[i - 1]; }
    }
    AsWrittenAmountMissing(s);
    AmountPrinted([], k, []);
    assert [] + Dollar + NatToString(k) + [] == s;
  }

  // ------------------------------------------------------------ cells and formulas

  /** The SUM and division formulas the summary sheet writes; sheet rows are numbered from 1. */
  datatype Formula =
    | Sum(sheet: Option<string>, column: char, top: nat, bottom: nat)
    | Divide(column: char, row: nat, divisor: nat)

  datatype Value = Text(text: string) | Number(n: nat) | Blank | Formula(f: Formula)

  /** The text written into a formula cell. */
  function Render(f: Formula): string
  {
    match f
    case Sum(sheet, col, top, bottom) =>
      "=SUM(" + (match sheet case None => "" case Some(t) => t + "!")
        + [col] + NatToString(top) + ":" + [col] + NatToString(bottom) + ")"
    case Divide(col, row, d) => "=" + [col] + NatToString(row) + "/" + NatToString(d)
  }

  /** The spreadsheet column letter of a zero-based column index: A is 0. */
  function ColumnIndex(c: char): nat
    requires 'A' <= c <= 'Z'
  {
    c as int - 'A' as int
  }

  function CellValue(c: Cell): Value
  {
    match c
    case Str(t) => Text(t)
    case NaN => Blank
  }

  function AmountCell(a: Option<nat>): Value
  {
    match a
    case None => Blank
    case Some(n) => Number(n)
  }

  datatype Sheet = Sheet(title: string, rows: seq<seq<Value>>)

  datatype Workbook = Workbook(sheets: seq<Sheet>)

  // ------------------------------------------------------------ the activities sheet

  const ActivitiesHeader: seq<Value> := [Text("name"), Text("est_cost"), Text("count"), Text("notes")]

  /** A kept activity: its name, the amount after the marker, a count of one and no notes. */
  function ActivityLine(r: Row, marker: string): seq<Value>
    requires |marker| > 0
  {
    [CellValue(r.name), AmountCell(Extract(Show(r.costEstimate), marker)), Number(1), Text("")]
  }

  /** Appends the header and one line per kept row, as `dataframe_to_rows` hands them to the sheet. */
  method AppendActivities(kept: seq<Row>, marker: string) returns (sheet: seq<seq<Value>>)
    requires |marker| > 0
    ensures |sheet| == |kept| + 1 && sheet[0] == ActivitiesHeader
    ensures forall i :: 0 <= i < |kept| ==> sheet[i + 1] == ActivityLine(kept[i], marker)
  {
    sheet := [ActivitiesHeader];
    for i := 0 to |kept|
      invariant |sheet| == i + 1 && sheet[0] == ActivitiesHeader
      invariant forall j :: 0 <= j < i ==> sheet[j + 1] == ActivityLine(kept[j], marker)
    {
      sheet := sheet + [ActivityLine(kept[i], marker)];
    }
  }

  // ------------------------------------------------------------ the daily sheet

  const DailyHeader: seq<Value> := [Text("date"), Text("subtotal_activities"), Text("meals"), Text("misc")]

  /** The ISO date of a day of August 2025, as the f-string prints it. */
  function DailyDate(day: nat): string
  {
    "2025-08-" + NatToString(day)
  }

  /** Appends the header and one zeroed line per day from the 17th up to, not including, the 24th. */
  method AppendDaily() returns (sheet: seq<seq<Value>>)
    ensures |sheet| == 8 && sheet[0] == DailyHeader
    ensures forall k :: 1 <= k < 8 ==> sheet[k] == [Text(DailyDate(16 + k)), Number(0), Number(0), Number(0)]
  {
    sheet := [DailyHeader];
    for day := 17 to 24
      invariant |sheet| == day - 16 && sheet[0] == DailyHeader
      invariant forall k :: 1 <= k < day - 16 ==> sheet[k] == [Text(DailyDate(16 + k)), Number(0), Number(0), Number(0)]
    {
      sheet := sheet + [[Text(DailyDate(day)), Number(0), Number(0), Number(0)]];
    }
  }

  /**
   * Each daily date is "2025-08-" and a day the calendar's date parser reads
   * back as that same day: the rows run from August 17 to 23 in order.
   */
  lemma DailyDatesAreAugustDays(k: nat)
    requires 1 <= k < 8
    ensures DailyDate(16 + k)[..8] == "2025-08-"
    ensures Calendar.ParseDate(DailyDate(16 + k)[8..]) == Success(Calendar.AllDay(16 + k))
  {
    assert DailyDate(16 + k)[8..] == NatToString(16 + k);
    Calendar.DateRoundTrip(16 + k);
  }

  // ------------------------------------------------------------ the summary sheet

  const SummaryHeader: seq<Value> := [Text("category"), Text("total")]

  const TotalActivities: Formula := Sum(Some("activities"), 'B', 2, 100)
  const TotalMeals: Formula := Sum(Some("daily"), 'C', 2, 8)
  const TotalMisc: Formula := Sum(Some("daily"), 'D', 2, 8)
  const GrandTotal: Formula := Sum(None, 'B', 2, 4)
  const PerAdult: Formula := Divide('B', 5, 6)
  const PerKid: Formula := Divide('B', 5, 3)

  /** The rows of the summary sheet, as the summary sheet holds them. */
  function SummaryRows(): seq<seq<Value>>
  {
    [SummaryHeader,
     [Text("Total Activities"), Formula(TotalActivities)],
     [Text("Total Meals"), Formula(TotalMeals)],
     [Text("Total Misc"), Formula(TotalMisc)],
     [Text("Grand Total"), Formula(GrandTotal)],
     [Text("Per Adult (6)"), Formula(PerAdult)],
     [Text("Per Kid (3)"), Formula(PerKid)]]
  }

  /** Appends the summary rows one by one. */
  method AppendSummary() returns (sheet: seq<seq<Value>>)
    ensures sheet == SummaryRows()
  {
    sheet := [SummaryHeader];
    sheet := sheet + [[Text("Total Activities"), Formula(TotalActivities)]];
    sheet := sheet + [[Text("Total Meals"), Formula(TotalMeals)]];
    sheet := sheet + [[Text("Total Misc"), Formula(TotalMisc)]];
    sheet := sheet + [[Text("Grand Total"), Formula(GrandTotal)]];
    sheet := sheet + [[Text("Per Adult (6)"), Formula(PerAdult)]];
    sheet := sheet + [[Text("Per Kid (3)"), Formula(PerKid)]];
  }

  // ------------------------------------------------------------ the workbook

  /** The workbook create_budget_tracker saves for the given rows. */
  predicate IsBudget(book: Workbook, rows: seq<Row>)
  {
    var kept := Kept(rows);
    && |book.sheets| == 3
    && book.sheets[0].title == "activities" && book.sheets[1].title == "daily" && book.sheets[2].title == "summary"
    && |book.sheets[0].rows| == |kept| + 1 && book.sheets[0].rows[0] == ActivitiesHeader
    && (forall i :: 0 <= i < |kept| ==> book.sheets[0].rows[i + 1] == ActivityLine(kept[i], Dollar))
    && |book.sheets[1].rows| == 8 && book.sheets[1].rows[0] == DailyHeader
    && (forall k :: 1 <= k < 8 ==> book.sheets[1].rows[k] == [Text(DailyDate(16 + k)), Number(0), Number(0), Number(0)])
    && book.sheets[2].rows == SummaryRows()
  }

  /**
   * create_budget_tracker: None stands for the missing input file, in which case
   * no workbook is built or saved. The amounts are read after the dollar sign.
   */
  method CreateBudgetTracker(input: Option<seq<Row>>) returns (book: Option<Workbook>)
    ensures input.None? <==> book.None?
    ensures input.Some? ==> IsBudget(book.value, input.value)
  {
    if input.None? {
      return None;
    }
    var activities := AppendActivities(Kept(input.value), Dollar);
    var daily := AppendDaily();
    var summary := AppendSummary();
    book := Some(Workbook([Sheet("activities", activities), Sheet("daily", daily), Sheet("summary", summary)]));
  }

  // ------------------------------------------------------------ what the formulas refer to

  function SheetNamed(book: Workbook, title: string): (r: Option<Sheet>)
    ensures r.Some? ==> r.value in book.sheets && r.value.title == title
    ensures r.None? ==> forall s :: s in book.sheets ==> s.title != title
    decreases |book.sheets|
  {
    if book.sheets == [] then None
    else if book.sheets[0].title == title then Some(book.sheets[0])
    else SheetNamed(Workbook(book.sheets[1..]), title)
  }

  /** Column `column` of the sheet is headed `name`. */
  predicate Heads(s: Sheet, column: char, name: string)
  {
    'A' <= column <= 'Z' && |s.rows| > 0 && ColumnIndex(column) < |s.rows[0]| && s.rows[0][ColumnIndex(column)] == Text(name)
  }

  /** The rows top..bottom, numbered from 1, are the data rows 2..|rows| below the header. */
  predicate SpansData(s: Sheet, top: nat, bottom: nat)
  {
    top == 2 && bottom == |s.rows|
  }

  /**
   * The meals and misc totals sum the "meals" and "misc" columns of the daily
   * sheet over exactly its seven day rows; the activities total sums the
   * "est_cost" column from the first activity down, and reaches the last one
   * exactly when there are at most 99 kept activities.
   */
  lemma CategoryTotalsReadTheirColumns(book: Workbook, rows: seq<Row>)
    requires IsBudget(book, rows)
    ensures SheetNamed(book, "daily") == Some(book.sheets[1])
    ensures Heads(book.sheets[1], TotalMeals.column, "meals") && SpansData(book.sheets[1], TotalMeals.top, TotalMeals.bottom)
    ensures Heads(book.sheets[1], TotalMisc.column, "misc") && SpansData(book.sheets[1], TotalMisc.top, TotalMisc.bottom)
    ensures SheetNamed(book, "activities") == Some(book.sheets[0])
    ensures Heads(book.sheets[0], TotalActivities.column, "est_cost") && TotalActivities.top == 2
    ensures |book.sheets[0].rows| <= TotalActivities.bottom <==> |Kept(rows)| <= 99
  {
    assert book.sheets[0].title != "daily";
  }

  function Label(line: seq<Value>): string
  {
    if |line| > 0 && line[0].Text? then line[0].text else ""
  }

  /**
   * The grand total sums the "total" column of its own sheet over exactly the
   * rows whose label names a category ("Total ..."), and nothing else.
   */
  lemma GrandTotalSumsCategories()
    ensures SummaryRows()[4] == [Text("Grand Total"), Formula(GrandTotal)]
    ensures GrandTotal.sheet.None? && Heads(Sheet("summary", SummaryRows()), GrandTotal.column, "total")
    ensures forall i :: 0 <= i < |SummaryRows()| ==>
              (GrandTotal.top <= i + 1 <= GrandTotal.bottom <==> StartsWith(Label(SummaryRows()[i]), "Total "))
  {
    var rows := SummaryRows();
    forall i | 0 <= i < |rows|
      ensures GrandTotal.top <= i + 1 <= GrandTotal.bottom <==> StartsWith(Label(rows[i]), "Total ")
    {
      var caption := Label(rows[i]);
      if 1 <= i <= 3 {
        assert caption[..6] == "Total ";
      } else {
        assert caption[0] != 'T';
        assert !StartsWith(caption, "Total ") by { if |caption| >= 6 { assert caption[..6][0] == caption[0]; } }
      }
    }
  }

  /**
   * Per Adult and Per Kid divide the grand total's cell (row 5 of column B) by
   * the head count that their own label states in parentheses: 6 and 3.
   */
  lemma PerHeadDividesGrandTotal()
    ensures Label(SummaryRows()[PerAdult.row - 1]) == "Grand Total" && PerAdult.column == GrandTotal.column
    ensures Label(SummaryRows()[PerKid.row - 1]) == "Grand Total" && PerKid.column == GrandTotal.column
    ensures Label(SummaryRows()[5]) == "Per Adult (" + NatToString(PerAdult.divisor) + ")" && SummaryRows()[5][1] == Formula(PerAdult)
    ensures Label(SummaryRows()[6]) == "Per Kid (" + NatToString(PerKid.divisor) + ")" && SummaryRows()[6][1] == Formula(PerKid)
  {
  }

  /** The activities total renders to the SUM over the activities sheet's cost column. */
  lemma ActivitiesTotalRenders()
    ensures Render(TotalActivities) == "=SUM(activities!B2:B100)"
  {
  }

  /** The meals and miscellaneous totals render to SUMs over the daily sheet's week. */
  lemma DailyTotalsRender()
    ensures Render(TotalMeals) == "=SUM(daily!C2:C8)"
    ensures Render(TotalMisc) == "=SUM(daily!D2:D8)"
  {
  }

  /** The grand total and the per-head shares render to the cell texts of the summary sheet. */
  lemma GrandTotalRenders()
    ensures Render(GrandTotal) == "=SUM(B2:B4)"
    ensures Render(PerAdult) == "=B5/6"
    ensures Render(PerKid) == "=B5/3"
  {
  }
}
