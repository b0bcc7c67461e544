/**
 * app/page.tsx: the dashboard's CSV reader, its choice of activities for a day
 * of the forecast, and how an advisory is shown (badge colour and label).
 * JavaScript's `undefined` field is a key missing from the record.
 */
module Dashboard {
  import opened Wrappers
  import opened Text

  /** A parsed CSV line: the object `reduce` builds, from trimmed header to value. */
  type Record = map<string, string>

  // ------------------------------------------------------------ CSV

  /** `.replace(/^"|"$/g, '')`: one leading and one trailing double quote go; a lone quote leaves nothing. */
  function StripQuotes(s: string): string
  {
    var u := if |s| > 0 && s[0] == '"' then s[1..] else s;
    if |u| > 0 && u[|u| - 1] == '"' then u[..|u| - 1] else u
  }

  /** Quoting a value and reading it back gives the value, even one that itself starts or ends with a quote. */
  lemma StripQuotesRoundTrip(v: string)
    ensures StripQuotes("\"" + v + "\"") == v
  {
    var s := "\"" + v + "\"";
    assert s[1..] == v + "\"";
    assert (v + "\"")[..|v|] == v;
  }

  /** A value that neither starts nor ends with a quote is left as it is. */
  lemma StripQuotesUnquoted(v: string)
    requires |v| > 0 ==> v[0] != '"' && v[|v| - 1] != '"'
    ensures StripQuotes(v) == v
  {
  }

  /** `values[i]?.trim().replace(...) || ''`: the cleaned segment, or '' past the last segment. */
  function FieldValue(values: seq<string>, i: nat): string
  {
    if i < |values| then StripQuotes(JsTrim(values[i])) else ""
  }

  /** The `reduce` over the headers: each trimmed header is set, in order, to its field's value. */
  function RecordOf(headers: seq<string>, values: seq<string>): Record
    decreases |headers|
  {
    if headers == [] then map[]
    else
      var n := |headers| - 1;
      RecordOf(headers[..n], values)[JsTrim(headers[n]) := FieldValue(values, n)]
  }

  /** Every trimmed header is a key of the record. */
  lemma {:induction false} HeaderIsKey(headers: seq<string>, values: seq<string>, i: nat)
    requires i < |headers|
    ensures JsTrim(headers[i]) in RecordOf(headers, values)
    decreases |headers|
  {
    var n := |headers| - 1;
    if i < n {
      assert headers[..n][i] == headers[i];
      HeaderIsKey(headers[..n], values, i);
    }
  }

  /** Every key of the record is a trimmed header: the index of one such header. */
  lemma {:induction false} KeyHeader(headers: seq<string>, values: seq<string>, k: string) returns (i: nat)
    requires k in RecordOf(headers, values)
    ensures i < |headers| && JsTrim(headers[i]) == k
    decreases |headers|
  {
    assert headers != [];
    var n := |headers| - 1;
    if k == JsTrim(headers[n]) {
      i := n;
    } else {
      i := KeyHeader(headers[..n], values, k);
      assert headers[..n][i] == headers[i];
    }
  }

  /** The keys of a record are exactly the trimmed headers. */
  lemma RecordKeys(headers: seq<string>, values: seq<string>)
    ensures forall k :: k in RecordOf(headers, values) <==> exists i :: 0 <= i < |headers| && JsTrim(headers[i]) == k
  {
    forall k | k in RecordOf(headers, values)
      ensures exists i :: 0 <= i < |headers| && JsTrim(headers[i]) == k
    {
      var i := KeyHeader(headers, values, k);
    }
    forall k | exists i :: 0 <= i < |headers| && JsTrim(headers[i]) == k
      ensures k in RecordOf(headers, values)
    {
      var i :| 0 <= i < |headers| && JsTrim(headers[i]) == k;
      HeaderIsKey(headers, values, i);
    }
  }

  /** A header's value is its own field's, unless a later header trims to the same name and overwrites it. */
  lemma {:induction false} RecordValue(headers: seq<string>, values: seq<string>, i: nat)
    requires i < |headers|
    requires forall j :: i < j < |headers| ==> JsTrim(headers[j]) != JsTrim(headers[i])
    ensures JsTrim(headers[i]) in RecordOf(headers, values)
    ensures RecordOf(headers, values)[JsTrim(headers[i])] == FieldValue(values, i)
    decreases |headers|
  {
    var n := |headers| - 1;
    var m := RecordOf(headers[..n], values);
    assert RecordOf(headers, values) == m[JsTrim(headers[n]) := FieldValue(values, n)];
    if i < n {
      forall j | i < j < n ensures JsTrim(headers[..n][j]) != JsTrim(headers[..n][i]) {
        assert headers[..n][j] == headers[j];
      }
      assert headers[..n][i] == headers[i];
      RecordValue(headers[..n], values, i);
      assert JsTrim(headers[n]) != JsTrim(headers[i]);
    }
  }

  /** Two lines whose segments clean up alike under every header give the same record. */
  lemma {:induction false} RecordOfFields(headers: seq<string>, values: seq<string>, others: seq<string>)
    requires forall i :: 0 <= i < |headers| ==> FieldValue(values, i) == FieldValue(others, i)
    ensures RecordOf(headers, values) == RecordOf(headers, others)
    decreases |headers|
  {
    if headers != [] {
      RecordOfFields(headers[..|headers| - 1], values, others);
    }
  }

  /** Segments beyond the header count are ignored. */
  lemma ExtraSegmentsIgnored(headers: seq<string>, values: seq<string>, extra: seq<string>)
    requires |headers| <= |values|
    ensures RecordOf(headers, values + extra) == RecordOf(headers, values)
  {
    RecordOfFields(headers, values + extra, values);
  }

  /** A line with too few segments reads as if the missing ones were empty. */
  lemma MissingSegmentsEmpty(headers: seq<string>, values: seq<string>, n: nat)
    ensures RecordOf(headers, values + seq(n, _ => "")) == RecordOf(headers, values)
  {
    var padded := values + seq(n, _ => "");
    forall i | 0 <= i < |headers| ensures FieldValue(padded, i) == FieldValue(values, i) {
      if |values| <= i < |padded| {
        assert padded[i] == "";
      }
    }
    RecordOfFields(headers, padded, values);
  }

  /** `parseCSV` with the line separator as a parameter: one record per line after the header line. */
  function ParseCsvWith(text: string, sep: string): seq<Record>
    requires |sep| > 0
  {
    var lines := Split(JsTrim(text), sep);
    var headers := Split(lines[0], ",");
    seq(|lines| - 1, k requires 0 <= k < |lines| - 1 => RecordOf(headers, Split(lines[k + 1], ",")))
  }

  /** `parseCSV` as the dashboard calls it, on newlines. */
  function ParseCsv(text: string): seq<Record>
  {
    ParseCsvWith(text, "\n")
  }

  /**
   * The trimmed text is cut into newline-free lines that join back into it;
   * the first is the header line, and every later line gives exactly one record,
   * read against those headers.
   */
  lemma OneRecordPerLine(text: string)
    ensures var lines := Split(JsTrim(text), "\n");
      && Join(lines, "\n") == JsTrim(text)
      && (forall k :: 0 <= k < |lines| ==> !Contains(lines[k], "\n"))
      && |ParseCsv(text)| == |lines| - 1
      && forall k :: 0 <= k < |lines| - 1 ==> ParseCsv(text)[k] == RecordOf(Split(lines[0], ","), Split(lines[k + 1], ","))
  {
    var lines := Split(JsTrim(text), "\n");
    JoinSplit(JsTrim(text), "\n");
    forall k | 0 <= k < |lines| ensures !Contains(lines[k], "\n") {
      SplitPiecesFree(JsTrim(text), "\n", k);
    }
  }

  // ------------------------------------------------------------ activities for a day

  /** `date.split('-')[2]`; past the end it is `undefined`, which `includes` reads as the text "undefined". */
  function DayNumber(date: string): string
  {
    var parts := Split(date, "-");
    if |parts| > 2 then parts[2] else "undefined"
  }

  /** The range of the whole vacation week, as activities for any day write it. */
  const WholeWeek: string := "Aug 17-23"

  /** The activity's window mentions the day, or is the whole week. */
  predicate InWindow(a: Record, dayNum: string)
    requires "date_window" in a
  {
    Contains(a["date_window"], dayNum) || Contains(a["date_window"], WholeWeek)
  }

  /** rain_safe is exactly "yes" for the backup plan, exactly "no" for the primary one. */
  predicate MatchesWeather(a: Record, rainSafe: bool)
  {
    "rain_safe" in a && a["rain_safe"] == (if rainSafe then "yes" else "no")
  }

  /** Reading `includes` on a missing date_window throws a TypeError. */
  datatype DayError = MissingDateWindow

  /** The `filter` of getActivitiesForDay, over the activities in order. */
  function SelectForDay(acts: seq<Record>, dayNum: string, rainSafe: bool): Result<seq<Record>, DayError>
  {
    if acts == [] then Success([])
    else
      var init, last := acts[..|acts| - 1], acts[|acts| - 1];
      match SelectForDay(init, dayNum, rainSafe)
      case Failure(e) => Failure(e)
      case Success(picked) =>
        if "date_window" !in last then Failure(MissingDateWindow)
        else Success(picked + (if InWindow(last, dayNum) && MatchesWeather(last, rainSafe) then [last] else []))
  }

  /**
   * The filter fails exactly when some activity has no date_window; otherwise
   * it holds exactly the activities in the day's window whose rain_safe matches.
   */
  lemma {:induction false} SelectForDayMembers(acts: seq<Record>, dayNum: string, rainSafe: bool)
    ensures SelectForDay(acts, dayNum, rainSafe).Failure? <==> exists a :: a in acts && "date_window" !in a
    ensures SelectForDay(acts, dayNum, rainSafe).Success? ==> forall a :: a in SelectForDay(acts, dayNum, rainSafe).value <==>
              a in acts && "date_window" in a && InWindow(a, dayNum) && MatchesWeather(a, rainSafe)
    decreases |acts|
  {
    if acts != [] {
      var init, last := acts[..|acts| - 1], acts[|acts| - 1];
      assert acts == init + [last];
      SelectForDayMembers(init, dayNum, rainSafe);
    }
  }

  /** getActivitiesForDay(date, rainSafe). */
  function ActivitiesForDay(acts: seq<Record>, date: string, rainSafe: bool): Result<seq<Record>, DayError>
  {
    SelectForDay(acts, DayNumber(date), rainSafe)
  }

  /** Selecting from two batches is selecting from each: the chosen activities keep their order. */
  lemma {:induction false} SelectForDayAppend(a: seq<Record>, b: seq<Record>, dayNum: string, rainSafe: bool)
    requires SelectForDay(a + b, dayNum, rainSafe).Success?
    ensures SelectForDay(a, dayNum, rainSafe).Success? && SelectForDay(b, dayNum, rainSafe).Success?
    ensures SelectForDay(a + b, dayNum, rainSafe).value
         == SelectForDay(a, dayNum, rainSafe).value + SelectForDay(b, dayNum, rainSafe).value
    decreases |b|
  {
    if b == [] {
      assert a + b == a;
    } else {
      var ab, b', last := a + b, b[..|b| - 1], b[|b| - 1];
      assert ab[..|ab| - 1] == a + b' && ab[|ab| - 1] == last;
      SelectStep(ab, dayNum, rainSafe);
      SelectStep(b, dayNum, rainSafe);
      SelectForDayAppend(a, b', dayNum, rainSafe);
      var pa, pb' := SelectForDay(a, dayNum, rainSafe).value, SelectForDay(b', dayNum, rainSafe).value;
      assert SelectForDay(ab, dayNum, rainSafe).value == (pa + pb') + Chosen(last, dayNum, rainSafe);
      assert SelectForDay(b, dayNum, rainSafe).value == pb' + Chosen(last, dayNum, rainSafe);
    }
  }

  /** What the filter takes from one activity that has a date_window: the activity, or nothing. */
  function Chosen(a: Record, dayNum: string, rainSafe: bool): seq<Record>
  {
    if "date_window" in a && InWindow(a, dayNum) && MatchesWeather(a, rainSafe) then [a] else []
  }

  /** One more activity either ends the filter with an error, or is added at the end, or is left out. */
  lemma SelectStep(acts: seq<Record>, dayNum: string, rainSafe: bool)
    requires acts != []
    ensures var init, last := acts[..|acts| - 1], acts[|acts| - 1];
      && (SelectForDay(acts, dayNum, rainSafe).Success? <==>
            SelectForDay(init, dayNum, rainSafe).Success? && "date_window" in last)
      && (SelectForDay(acts, dayNum, rainSafe).Success? ==>
            SelectForDay(acts, dayNum, rainSafe).value == SelectForDay(init, dayNum, rainSafe).value + Chosen(last, dayNum, rainSafe))
  {
  }

  /**
   * For one day the primary and backup lists share no activity, and an activity
   * whose rain_safe is neither "yes" nor "no", or missing, is in neither.
   */
  lemma PlansDisjoint(acts: seq<Record>, date: string)
    requires forall a :: a in acts ==> "date_window" in a
    ensures ActivitiesForDay(acts, date, false).Success? && ActivitiesForDay(acts, date, true).Success?
    ensures forall a :: !(a in ActivitiesForDay(acts, date, false).value && a in ActivitiesForDay(acts, date, true).value)
    ensures forall a :: a in acts && !("rain_safe" in a && a["rain_safe"] in {"yes", "no"}) ==>
              a !in ActivitiesForDay(acts, date, false).value && a !in ActivitiesForDay(acts, date, true).value
  {
    SelectForDayMembers(acts, DayNumber(date), false);
    SelectForDayMembers(acts, DayNumber(date), true);
  }

  // ------------------------------------------------------------ advisories

  const Red: string := "bg-red-600 border-red-800"
  const Orange: string := "bg-orange-500 border-orange-700"
  const Yellow: string := "bg-yellow-500 border-yellow-700"

  /** getRiskBadgeColor: red for a HIGH advisory, else orange for MODERATE, else yellow. */
  function BadgeColor(advisory: string): (c: string)
    ensures c == Red <==> Contains(advisory, "HIGH")
    ensures c == Orange <==> !Contains(advisory, "HIGH") && Contains(advisory, "MODERATE")
    ensures c == Yellow <==> !Contains(advisory, "HIGH") && !Contains(advisory, "MODERATE")
  {
    if Contains(advisory, "HIGH") then Red
    else if Contains(advisory, "MODERATE") then Orange
    else Yellow
  }

  /** How alarming a badge colour is. */
  function Severity(c: string): nat
  {
    if c == Red then 2 else if c == Orange then 1 else 0
  }

  /** Adding text before or after an advisory never makes its badge less alarming. */
  lemma BadgeNeverDowngrades(before: string, advisory: string, after: string)
    ensures Severity(BadgeColor(advisory)) <= Severity(BadgeColor(before + advisory + after))
  {
    if Contains(advisory, "HIGH") {
      ContainsGrows(before, advisory, after, "HIGH");
    } else if Contains(advisory, "MODERATE") {
      ContainsGrows(before, advisory, after, "MODERATE");
    }
  }

  /** `advisory.replace('_', ' ')`: only the first underscore becomes a space. */
  function AdvisoryLabel(advisory: string): string
  {
    ReplaceFirst(advisory, "_", " ")
  }

  /** "RIP_CURRENT_HIGH" is shown as "RIP CURRENT_HIGH": the first underscore changes and the rest stay. */
  lemma LabelFirstUnderscore(p: string, q: string)
    requires !Contains(p, "_")
    ensures AdvisoryLabel(p + "_" + q) == p + " " + q
  {
    ReplaceFirstAt(p, '_', q, " ");
  }

  /** Without an underscore the label is the advisory itself. */
  lemma LabelWithoutUnderscore(advisory: string)
    requires !Contains(advisory, "_")
    ensures AdvisoryLabel(advisory) == advisory
  {
  }
}
