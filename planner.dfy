/**
 * vacation_cape_may/public/script.js: the static page's CSV reader, the
 * primary and backup plans of a day card, and the class and label of an
 * advisory badge. Records, day numbers and advisory labels are the ones the
 * dashboard uses; where the two front ends differ, the lemmas here say how.
 */
module Planner {
  import opened Wrappers
  import opened Text
  import opened Dashboard

  /** The line separator as the script's text writes it: a backslash, then the letter n. */
  const AsWrittenSeparator: string := "\\n"

  // ------------------------------------------------------------ CSV

  /** `values[i].trim().replace(...)` with no fallback: reading past the last segment throws. */
  datatype CsvError = ShortLine(line: nat)

  /** The `reduce` over the headers when every header has a segment. */
  function FieldsOf(headers: seq<string>, values: seq<string>): Record
    requires |headers| <= |values|
    decreases |headers|
  {
    if headers == [] then map[]
    else
      var n := |headers| - 1;
      FieldsOf(headers[..n], values)[JsTrim(headers[n]) := StripQuotes(JsTrim(values[n]))]
  }

  /** With a segment for every header, the script's record is the dashboard's. */
  lemma {:induction false} FieldsAgree(headers: seq<string>, values: seq<string>)
    requires |headers| <= |values|
    ensures FieldsOf(headers, values) == RecordOf(headers, values)
    decreases |headers|
  {
    if headers != [] {
      FieldsAgree(headers[..|headers| - 1], values);
    }
  }

  /** The records of lines[from..], or the first line (counted in the whole text) with too few segments. */
  function RecordsFrom(lines: seq<string>, headers: seq<string>, from: nat): (r: Result<seq<Record>, CsvError>)
    requires from <= |lines|
    ensures r.Success? <==> forall k :: from <= k < |lines| ==> |headers| <= |Split(lines[k], ",")|
    ensures r.Success? ==> |r.value| == |lines| - from
    ensures r.Failure? ==> from <= r.error.line < |lines| && |Split(lines[r.error.line], ",")| < |headers|
    ensures r.Failure? ==> forall k :: from <= k < r.error.line ==> |headers| <= |Split(lines[k], ",")|
    decreases |lines| - from
  {
    if from == |lines| then Success([])
    else
      var values := Split(lines[from], ",");
      if |values| < |headers| then Failure(ShortLine(from))
      else
        match RecordsFrom(lines, headers, from + 1)
        case Failure(e) => Failure(e)
        case Success(rest) => Success([FieldsOf(headers, values)] + rest)
  }

  /** `parseCSV`, with the line separator as a parameter. */
  function ParseCsv(text: string, sep: string): Result<seq<Record>, CsvError>
    requires |sep| > 0
  {
    var lines := Split(JsTrim(text), sep);
    RecordsFrom(lines, Split(lines[0], ","), 1)
  }

  lemma {:induction false} RecordsFromAgree(lines: seq<string>, from: nat)
    requires 1 <= from <= |lines|
    requires RecordsFrom(lines, Split(lines[0], ","), from).Success?
    ensures forall k :: from <= k < |lines| ==>
      RecordsFrom(lines, Split(lines[0], ","), from).value[k - from] == RecordOf(Split(lines[0], ","), Split(lines[k], ","))
    decreases |lines| - from
  {
    if from < |lines| {
      var headers, values := Split(lines[0], ","), Split(lines[from], ",");
      var r, rest := RecordsFrom(lines, headers, from), RecordsFrom(lines, headers, from + 1);
      assert rest.Success? && r.value == [FieldsOf(headers, values)] + rest.value;
      RecordsFromAgree(lines, from + 1);
      FieldsAgree(headers, values);
      forall k | from < k < |lines|
        ensures r.value[k - from] == RecordOf(headers, Split(lines[k], ","))
      {
        assert rest.value[k - (from + 1)] == RecordOf(headers, Split(lines[k], ","));
        assert r.value[k - from] == rest.value[k - (from + 1)];
      }
    }
  }

  /**
   * On the same text and separator the script fails exactly when some line
   * after the header has fewer segments than there are headers; otherwise it
   * reads the same records as the dashboard.
   */
  lemma ParseCsvAgrees(text: string, sep: string)
    requires |sep| > 0
    ensures var lines := Split(JsTrim(text), sep);
      ParseCsv(text, sep).Failure? <==> exists k :: 1 <= k < |lines| && |Split(lines[k], ",")| < |Split(lines[0], ",")|
    ensures ParseCsv(text, sep).Success? ==> ParseCsv(text, sep).value == ParseCsvWith(text, sep)
  {
    var lines := Split(JsTrim(text), sep);
    if ParseCsv(text, sep).Success? {
      RecordsFromAgree(lines, 1);
      var a, b := ParseCsv(text, sep).value, ParseCsvWith(text, sep);
      assert |a| == |b|;
      forall k | 0 <= k < |a| ensures a[k] == b[k] {
        assert a[(k + 1) - 1] == a[k];
      }
    }
  }

  /**
   * With the separator as written, a text with no backslash is a single line,
   * the header line, and gives no activity at all.
   */
  lemma AsWrittenSeparatorNoRecords(text: string)
    requires forall i :: 0 <= i < |text| ==> text[i] != '\\'
    ensures ParseCsv(text, AsWrittenSeparator) == Success([])
  {
    var t := JsTrim(text);
    var i, j := TrimSlice(text, IsJsSpace);
    forall k | 0 <= k < |t| ensures t[k] != '\\' {
      assert t[k] == text[i + k];
    }
    NotContainsFirst(t, AsWrittenSeparator);
  }

  // ------------------------------------------------------------ the day plans

  /** JavaScript truthiness of a field: present and not the empty string. */
  predicate Truthy(a: Record, key: string)
  {
    key in a && a[key] != ""
  }

  /** The activity's date_window mentions the day. */
  predicate OnDay(a: Record, dayNum: string)
    requires "date_window" in a
  {
    Contains(a["date_window"], dayNum)
  }

  /**
   * The `filter` for one plan: the activities whose rain_safe truthiness is
   * `rainy` and whose window mentions the day. The window is read only when
   * the truthiness test has passed, so only those activities can throw.
   */
  function Plan(acts: seq<Record>, dayNum: string, rainy: bool): Result<seq<Record>, DayError>
  {
    if acts == [] then Success([])
    else
      var init, last := acts[..|acts| - 1], acts[|acts| - 1];
      match Plan(init, dayNum, rainy)
      case Failure(e) => Failure(e)
      case Success(picked) =>
        if Truthy(last, "rain_safe") != rainy then Success(picked)
        else if "date_window" !in last then Failure(MissingDateWindow)
        else Success(picked + (if OnDay(last, dayNum) then [last] else []))
  }

  /**
   * A plan fails exactly when an activity it reads has no date_window; otherwise
   * it holds exactly the activities with the plan's truthiness that mention the day.
   */
  lemma {:induction false} PlanMembers(acts: seq<Record>, dayNum: string, rainy: bool)
    ensures Plan(acts, dayNum, rainy).Failure? <==> exists a :: a in acts && Truthy(a, "rain_safe") == rainy && "date_window" !in a
    ensures Plan(acts, dayNum, rainy).Success? ==> forall a :: a in Plan(acts, dayNum, rainy).value <==>
              a in acts && Truthy(a, "rain_safe") == rainy && "date_window" in a && OnDay(a, dayNum)
    decreases |acts|
  {
    if acts != [] {
      var init, last := acts[..|acts| - 1], acts[|acts| - 1];
      assert acts == init + [last];
      PlanMembers(init, dayNum, rainy);
    }
  }

  /** primaryPlan: `!a.rain_safe && a.date_window.includes(day)`. */
  function PrimaryPlan(acts: seq<Record>, date: string): Result<seq<Record>, DayError>
  {
    Plan(acts, DayNumber(date), false)
  }

  /** backupPlan: `a.rain_safe && a.date_window.includes(day)`. */
  function BackupPlan(acts: seq<Record>, date: string): Result<seq<Record>, DayError>
  {
    Plan(acts, DayNumber(date), true)
  }

  /** The activities whose date_window mentions the day, in order. */
  function DayMatching(acts: seq<Record>, dayNum: string): seq<Record>
    requires forall a :: a in acts ==> "date_window" in a
  {
    if acts == [] then []
    else
      var init, last := acts[..|acts| - 1], acts[|acts| - 1];
      assert forall a :: a in init ==> a in acts;
      DayMatching(init, dayNum) + (if OnDay(last, dayNum) then [last] else [])
  }

  /**
   * When every activity has a date_window, both plans are built, and together
   * they hold every activity for the day exactly once: each day-matching
   * activity lands in exactly one of them.
   */
  lemma {:induction false} PlansPartitionDay(acts: seq<Record>, dayNum: string)
    requires forall a :: a in acts ==> "date_window" in a
    ensures Plan(acts, dayNum, false).Success? && Plan(acts, dayNum, true).Success?
    ensures multiset(Plan(acts, dayNum, false).value) + multiset(Plan(acts, dayNum, true).value)
         == multiset(DayMatching(acts, dayNum))
    decreases |acts|
  {
    if acts != [] {
      var init, last := acts[..|acts| - 1], acts[|acts| - 1];
      assert forall a :: a in init ==> a in acts;
      PlansPartitionDay(init, dayNum);
      PlanStep(acts, dayNum, false);
      PlanStep(acts, dayNum, true);
      var p, b := Plan(init, dayNum, false).value, Plan(init, dayNum, true).value;
      var tail := if OnDay(last, dayNum) then [last] else [];
      if Truthy(last, "rain_safe") {
        assert Plan(acts, dayNum, false).value == p + [];
        assert Plan(acts, dayNum, true).value == b + tail;
      } else {
        assert Plan(acts, dayNum, false).value == p + tail;
        assert Plan(acts, dayNum, true).value == b + [];
      }
      assert DayMatching(acts, dayNum) == DayMatching(init, dayNum) + tail;
    }
  }

  /** What a plan takes from one activity: the activity, or nothing. */
  function Picked(a: Record, dayNum: string, rainy: bool): seq<Record>
  {
    if Truthy(a, "rain_safe") == rainy && "date_window" in a && OnDay(a, dayNum) then [a] else []
  }

  /** One more activity either ends the plan with an error, is added at its end, or is left out. */
  lemma PlanStep(acts: seq<Record>, dayNum: string, rainy: bool)
    requires acts != []
    ensures var init, last := acts[..|acts| - 1], acts[|acts| - 1];
      && (Plan(acts, dayNum, rainy).Success? <==>
            Plan(init, dayNum, rainy).Success? && !(Truthy(last, "rain_safe") == rainy && "date_window" !in last))
      && (Plan(acts, dayNum, rainy).Success? ==>
            Plan(acts, dayNum, rainy).value == Plan(init, dayNum, rainy).value + Picked(last, dayNum, rainy))
  {
  }

  /** No activity is in both plans of a day. */
  lemma PlansDisjoint(acts: seq<Record>, dayNum: string)
    requires Plan(acts, dayNum, false).Success? && Plan(acts, dayNum, true).Success?
    ensures forall a :: !(a in Plan(acts, dayNum, false).value && a in Plan(acts, dayNum, true).value)
  {
    PlanMembers(acts, dayNum, false);
    PlanMembers(acts, dayNum, true);
  }

  /** Planning two batches is planning each: both plans keep the input order. */
  lemma {:induction false} PlanAppend(a: seq<Record>, b: seq<Record>, dayNum: string, rainy: bool)
    requires Plan(a + b, dayNum, rainy).Success?
    ensures Plan(a, dayNum, rainy).Success? && Plan(b, dayNum, rainy).Success?
    ensures Plan(a + b, dayNum, rainy).value == Plan(a, dayNum, rainy).value + Plan(b, dayNum, rainy).value
    decreases |b|
  {
    if b == [] {
      assert a + b == a;
    } else {
      var ab, b', last := a + b, b[..|b| - 1], b[|b| - 1];
      assert ab[..|ab| - 1] == a + b' && ab[|ab| - 1] == last;
      PlanStep(ab, dayNum, rainy);
      PlanStep(b, dayNum, rainy);
      PlanAppend(a, b', dayNum, rainy);
      var pa, pb' := Plan(a, dayNum, rainy).value, Plan(b', dayNum, rainy).value;
      assert Plan(ab, dayNum, rainy).value == (pa + pb') + Picked(last, dayNum, rainy);
      assert Plan(b, dayNum, rainy).value == pb' + Picked(last, dayNum, rainy);
    }
  }

  /**
   * An activity marked rain_safe "no" for the day is in the script's backup
   * plan, because "no" is a non-empty string, while the dashboard lists it
   * in its primary plan.
   */
  lemma RainSafeNoDiverges(a: Record, date: string)
    requires "date_window" in a && Contains(a["date_window"], DayNumber(date))
    requires "rain_safe" in a && a["rain_safe"] == "no"
    ensures BackupPlan([a], date) == Success([a])
    ensures PrimaryPlan([a], date) == Success([])
    ensures ActivitiesForDay([a], date, false) == Success([a])
    ensures ActivitiesForDay([a], date, true) == Success([])
  {
    assert [a][..0] == [] && [a][0] == a;
    assert Truthy(a, "rain_safe");
    assert OnDay(a, DayNumber(date)) && InWindow(a, DayNumber(date));
    assert MatchesWeather(a, false) && !MatchesWeather(a, true);
    assert Plan([a][..1 - 1], DayNumber(date), true) == Success([]);
    PlanStep([a], DayNumber(date), true);
    PlanStep([a], DayNumber(date), false);
    var day := DayNumber(date);
    assert SelectForDay([a][..1 - 1], day, true) == Success([]);
    assert SelectForDay([a], day, true) == Success([] + []);
    assert SelectForDay([a][..1 - 1], day, false) == Success([]);
    assert SelectForDay([a], day, false) == Success([] + [a]);
    assert Plan([a], day, true).value == [a];
    assert BackupPlan([a], date) == Plan([a], day, true);
  }

  // ------------------------------------------------------------ advisories

  /** `advisory.split('_')[0].toLowerCase()`: the badge's CSS class. */
  function RiskClass(advisory: string): string
  {
    AsciiLower(Split(advisory, "_")[0])
  }

  /**
   * For "HIGH_RIP_CURRENT" the class is "high", the lower-cased text before the
   * first underscore, and the label is "HIGH RIP_CURRENT", which starts with
   * that same text, followed by a space.
   */
  lemma RiskClassAndLabel(p: string, q: string)
    requires !Contains(p, "_")
    ensures RiskClass(p + "_" + q) == AsciiLower(p)
    ensures AdvisoryLabel(p + "_" + q) == p + " " + q
  {
    SplitFirstPiece(p, '_', q);
    LabelFirstUnderscore(p, q);
  }

  /** An advisory without underscore is its own label, and its class is all of it, lower-cased. */
  lemma RiskClassWhole(advisory: string)
    requires !Contains(advisory, "_")
    ensures RiskClass(advisory) == AsciiLower(advisory)
    ensures AdvisoryLabel(advisory) == advisory
  {
    SplitAbsent(advisory, '_');
  }
}
