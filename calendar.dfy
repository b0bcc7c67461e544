/**
 * create_calendar.py: every activity whose date window mentions August becomes
 * a calendar event. The date window gives the start day (first day of a list
 * or of a range), the typical time gives a start hour with a fixed two-hour
 * duration, or the event is all-day. A row that cannot be read is reported and
 * skipped; the others are still turned into events.
 */
module Calendar {
  import opened Wrappers
  import opened Text
  import opened Cells

  const Year: nat := 2025
  const Month: nat := 8
  /** Every timed event lasts two hours, whatever end time the row gives. */
  const DefaultDurationHours: nat := 2

  /** The columns of an activity row that the calendar reads. */
  datatype Row = Row(name: Cell, address: Cell, dateWindow: Cell, typicalTime: Cell)

  /** When an event starts: a bare date in August 2025, or a full hour of one with a duration. */
  datatype Begin = AllDay(day: nat) | Timed(day: nat, hour: nat, durationHours: nat)

  datatype Event = Event(name: Cell, location: Cell, begin: Begin)

  /** The exceptions a row can raise while it is interpreted. */
  datatype ParseError =
    | NotIterable      // `'pm' in typical_time` when the cell is NaN: a TypeError
    | FormatMismatch   // strptime: time data does not match the format
    | UnconvertedData  // strptime: the format matched a prefix and text remains

  datatype Outcome = Skipped | Failed(error: ParseError) | Parsed(event: Event)

  /** What the script prints: the missing input file, or one line per failed row. */
  datatype Report = FileMissing | RowFailed(name: Cell, error: ParseError)

  // ------------------------------------------------------------ date window

  /** The date window with every "Aug" and every space removed: the list case. */
  function ListCleaned(dw: string): string
  {
    ReplaceAll(ReplaceAll(dw, "Aug", ""), " ", "")
  }

  /**
   * The start-day text: a list (a comma anywhere) gives its first item, a range
   * (a dash and no comma) the text before the first dash, else the whole window.
   */
  function StartDay(dw: string): string
  {
    if Contains(dw, ",") then Split(ListCleaned(dw), ",")[0]
    else if Contains(dw, "-") then PyStrip(ReplaceAll(Split(dw, "-")[0], "Aug", ""))
    else PyStrip(ReplaceAll(dw, "Aug", ""))
  }

  // ------------------------------------------------------------ time of day

  /** The row is timed when its typical time mentions "pm" or "am" (lower case). */
  predicate IsTimed(tt: string)
  {
    Contains(tt, "pm") || Contains(tt, "am")
  }

  /** The start time text: what precedes the first dash. */
  function StartTime(tt: string): string
  {
    Split(tt, "-")[0]
  }

  /** The 12-hour clock on the 24-hour clock: 12am is 0, 12pm is 12, other pm hours add 12. */
  function To24(hour12: nat, pm: bool): (h: nat)
    requires 1 <= hour12 <= 12
    ensures h < 24 && h % 12 == hour12 % 12
    ensures h >= 12 <==> pm
  {
    if pm then (if hour12 == 12 then 12 else hour12 + 12)
    else (if hour12 == 12 then 0 else hour12)
  }

  // ------------------------------------------------------------ strptime

  /*
   * datetime.strptime turns its format into a regular expression. After the
   * fixed text "2025-08-", which the %Y and %m groups can match in one way only,
   * `%d` becomes 3[01]|[12]\d|0[1-9]|[1-9]| [1-9], the space of the format
   * becomes \s+, `%I` becomes 1[0-2]|0[1-9]|[1-9]| [1-9] and `%p` becomes am|pm,
   * matched without regard to case. The regular expression engine takes the
   * first match in its backtracking order; strptime then fails if text is left.
   */

  /** One position of an alternative: one character, or a range of characters. */
  datatype Class = Char(c: char) | Range(lo: char, hi: char)

  predicate InClass(c: char, k: Class)
  {
    match k
    case Char(x) => c == x
    case Range(lo, hi) => lo <= c <= hi
  }

  /** The alternatives of `%d`, in the order the regular expression tries them. */
  const DayAlternativeCount := 5

  function DayAlternative(k: nat): seq<Class>
    requires k < DayAlternativeCount
  {
    if k == 0 then [Char('3'), Range('0', '1')]
    else if k == 1 then [Range('1', '2'), Range('0', '9')]
    else if k == 2 then [Char('0'), Range('1', '9')]
    else if k == 3 then [Range('1', '9')]
    else [Char(' '), Range('1', '9')]
  }

  /** The alternatives of `%I`, in the order the regular expression tries them. */
  const HourAlternativeCount := 4

  function HourAlternative(k: nat): seq<Class>
    requires k < HourAlternativeCount
  {
    if k == 0 then [Char('1'), Range('0', '2')]
    else if k == 1 then [Char('0'), Range('1', '9')]
    else if k == 2 then [Range('1', '9')]
    else [Char(' '), Range('1', '9')]
  }

  /** The alternative matches s at position at. */
  predicate Fits(alt: seq<Class>, s: string, at: nat)
  {
    at + |alt| <= |s| && forall k :: 0 <= k < |alt| ==> InClass(s[at + k], alt[k])
  }

  /** Python's int() of the matched text: its digits, any leading space ignored. */
  function NumberIn(t: string): nat
  {
    if t == [] then 0
    else if IsDigit(t[|t| - 1]) then 10 * NumberIn(t[..|t| - 1]) + (t[|t| - 1] as int - '0' as int)
    else NumberIn(t[..|t| - 1])
  }

  /** int() of a one- or two-character match whose last character is a digit. */
  lemma NumberInShort(t: string)
    requires 1 <= |t| <= 2 && IsDigit(t[|t| - 1])
    ensures |t| == 1 ==> NumberIn(t) == t[0] as int - '0' as int
    ensures |t| == 2 && IsDigit(t[0]) ==> NumberIn(t) == 10 * (t[0] as int - '0' as int) + (t[1] as int - '0' as int)
    ensures |t| == 2 && !IsDigit(t[0]) ==> NumberIn(t) == t[1] as int - '0' as int
  {
    var u := t[..|t| - 1];
    if |u| == 1 {
      assert u[..0] == [];
      assert NumberIn(u) == if IsDigit(u[0]) then NumberIn([]) * 10 + (u[0] as int - '0' as int) else NumberIn([]);
    }
  }

  /** Any day alternative reads a day of the month: 1 to 31. */
  lemma DayFitValue(k: nat, s: string, at: nat)
    requires k < DayAlternativeCount && Fits(DayAlternative(k), s, at)
    ensures 1 <= NumberIn(s[at..at + |DayAlternative(k)|]) <= 31
  {
    var t := s[at..at + |DayAlternative(k)|];
    assert forall j :: 0 <= j < |t| ==> InClass(t[j], DayAlternative(k)[j]);
    NumberInShort(t);
  }

  /** Any hour alternative reads an hour of the 12-hour clock: 1 to 12. */
  lemma HourFitValue(k: nat, s: string, at: nat)
    requires k < HourAlternativeCount && Fits(HourAlternative(k), s, at)
    ensures 1 <= NumberIn(s[at..at + |HourAlternative(k)|]) <= 12
  {
    var t := s[at..at + |HourAlternative(k)|];
    assert forall j :: 0 <= j < |t| ==> InClass(t[j], HourAlternative(k)[j]);
    NumberInShort(t);
  }

  /** The first day alternative, from the k-th on, that matches at the start of s, as its length. */
  function FirstFit(s: string, k: nat): Option<nat>
    requires k <= DayAlternativeCount
    decreases DayAlternativeCount - k
  {
    if k == DayAlternativeCount then None
    else if Fits(DayAlternative(k), s, 0) then Some(|DayAlternative(k)|)
    else FirstFit(s, k + 1)
  }

  /** `%p`: "am" or "pm" in any case at position at; Some(true) for pm. */
  function MeridiemAt(s: string, at: nat): Option<bool>
  {
    if at + 2 <= |s| && AsciiLower(s[at..at + 2]) == "am" then Some(false)
    else if at + 2 <= |s| && AsciiLower(s[at..at + 2]) == "pm" then Some(true)
    else None
  }

  /** A successful match of the timed format: the groups and where the match ends. */
  datatype Clock = Clock(day: nat, hour12: nat, pm: bool, end: nat)

  /** `%I%p` at position at, trying the hour alternatives in order from the k-th. */
  function MatchHour(s: string, at: nat, day: nat, k: nat): Option<Clock>
    requires k <= HourAlternativeCount
    decreases HourAlternativeCount - k
  {
    if k == HourAlternativeCount then None
    else
      var alt := HourAlternative(k);
      var here :=
        if Fits(alt, s, at) then
          match MeridiemAt(s, at + |alt|)
          case Some(pm) => Some(Clock(day, NumberIn(s[at..at + |alt|]), pm, at + |alt| + 2))
          case None => None
        else None;
      if here.Some? then here else MatchHour(s, at, day, k + 1)
  }

  /** How many whitespace characters start at position at. */
  function SpaceRun(s: string, at: nat): (w: nat)
    ensures at + w <= |s| || w == 0
    decreases |s| - at
  {
    if at < |s| && IsPySpace(s[at]) then 1 + SpaceRun(s, at + 1) else 0
  }

  /** `\s+` is greedy: with w whitespace characters after the day it tries w, w - 1, ..., 1 of them. */
  function MatchSpaces(s: string, at: nat, day: nat, w: nat): Option<Clock>
  {
    if w == 0 then None
    else
      var r := MatchHour(s, at + w, day, 0);
      if r.Some? then r else MatchSpaces(s, at, day, w - 1)
  }

  /** The whole timed pattern, trying the day alternatives in order from the k-th. */
  function MatchTimed(s: string, k: nat): Option<Clock>
    requires k <= DayAlternativeCount
    decreases DayAlternativeCount - k
  {
    if k == DayAlternativeCount then None
    else
      var alt := DayAlternative(k);
      var here :=
        if Fits(alt, s, 0) then
          MatchSpaces(s, |alt|, NumberIn(s[..|alt|]), SpaceRun(s, |alt|))
        else None;
      if here.Some? then here else MatchTimed(s, k + 1)
  }

  /**
   * The text of s from position at reads as `%I%p` giving c: an hour
   * alternative of `%I` naming c's hour, then "am" or "pm" in any case, and the
   * match ends right after it.
   */
  ghost predicate ReadsHour(s: string, at: nat, c: Clock)
  {
    && at + 2 < c.end <= |s|
    && (exists j :: 0 <= j < HourAlternativeCount && Fits(HourAlternative(j), s, at) && c.end == at + |HourAlternative(j)| + 2)
    && c.hour12 == NumberIn(s[at..c.end - 2])
    && MeridiemAt(s, c.end - 2) == Some(c.pm)
  }

  /**
   * s reads as "%d %I%p" up to c's end: a day alternative of `%d` naming c's
   * day, at least one whitespace character, then `%I%p` as above.
   */
  ghost predicate ReadsTimed(s: string, c: Clock)
  {
    exists k :: 0 <= k < DayAlternativeCount && Fits(DayAlternative(k), s, 0)
      && c.day == NumberIn(s[..|DayAlternative(k)|])
      && (exists p :: |DayAlternative(k)| < p <= |s| && ReadsHour(s, p, c)
            && forall i :: |DayAlternative(k)| <= i < p ==> IsPySpace(s[i]))
  }

  /** A match of `%I%p` reads an hour of the 12-hour clock and ends after the meridiem, within s. */
  lemma {:induction false} MatchHourSound(s: string, at: nat, day: nat, k: nat)
    requires k <= HourAlternativeCount
    ensures var r := MatchHour(s, at, day, k);
      r.Some? ==> r.value.day == day && 1 <= r.value.hour12 <= 12 && at < r.value.end <= |s|
    decreases HourAlternativeCount - k
  {
    if k < HourAlternativeCount {
      if Fits(HourAlternative(k), s, at) {
        HourFitValue(k, s, at);
      }
      MatchHourSound(s, at, day, k + 1);
    }
  }

  /** The k-th hour alternative followed by a meridiem reads as `%I%p`. */
  lemma HourReadsHere(s: string, at: nat, day: nat, k: nat)
    requires k < HourAlternativeCount && Fits(HourAlternative(k), s, at)
    requires MeridiemAt(s, at + |HourAlternative(k)|).Some?
    ensures var n := |HourAlternative(k)|;
      ReadsHour(s, at, Clock(day, NumberIn(s[at..at + n]), MeridiemAt(s, at + n).value, at + n + 2))
  {
  }

  /** The text a match of `%I%p` consumed is an hour alternative, then am or pm. */
  lemma {:induction false} MatchHourReads(s: string, at: nat, day: nat, k: nat, c: Clock)
    requires k <= HourAlternativeCount && MatchHour(s, at, day, k) == Some(c)
    ensures ReadsHour(s, at, c)
    decreases HourAlternativeCount - k
  {
    var alt := HourAlternative(k);
    if Fits(alt, s, at) && MeridiemAt(s, at + |alt|).Some? {
      HourReadsHere(s, at, day, k);
    } else {
      MatchHourReads(s, at, day, k + 1, c);
    }
  }

  /** Whatever run of spaces `\s+` takes, at least one, the hour that follows is read as above. */
  lemma {:induction false} MatchSpacesSound(s: string, at: nat, day: nat, w: nat, c: Clock)
    requires MatchSpaces(s, at, day, w) == Some(c)
    ensures c.day == day && 1 <= c.hour12 <= 12 && at + 1 < c.end <= |s|
  {
    assert w > 0;
    var r := MatchHour(s, at + w, day, 0);
    if r.Some? {
      assert r == Some(c);
      MatchHourSound(s, at + w, day, 0);
    } else {
      assert MatchSpaces(s, at, day, w - 1) == Some(c);
      MatchSpacesSound(s, at, day, w - 1, c);
    }
  }

  /** The hour that `\s+` lets match starts at p, within the run of spaces tried, and `%I%p` matches there. */
  lemma {:induction false} MatchSpacesReads(s: string, at: nat, day: nat, w: nat, c: Clock) returns (p: nat)
    requires MatchSpaces(s, at, day, w) == Some(c)
    ensures at < p <= at + w && MatchHour(s, p, day, 0) == Some(c)
  {
    assert w > 0;
    if MatchHour(s, at + w, day, 0).Some? {
      p := at + w;
    } else {
      assert MatchSpaces(s, at, day, w - 1) == Some(c);
      p := MatchSpacesReads(s, at, day, w - 1, c);
    }
  }

  /** The run SpaceRun counts is all whitespace. */
  lemma {:induction false} SpaceRunSpaces(s: string, at: nat)
    ensures forall i :: at <= i < at + SpaceRun(s, at) ==> i < |s| && IsPySpace(s[i])
    decreases |s| - at
  {
    if at < |s| && IsPySpace(s[at]) {
      assert SpaceRun(s, at) == 1 + SpaceRun(s, at + 1);
      SpaceRunSpaces(s, at + 1);
    } else {
      assert SpaceRun(s, at) == 0;
    }
  }

  /** A match of the timed pattern reads a day of the month and an hour of the 12-hour clock, within s. */
  lemma {:induction false} MatchTimedSound(s: string, k: nat)
    requires k <= DayAlternativeCount
    ensures var r := MatchTimed(s, k);
      r.Some? ==> 1 <= r.value.day <= 31 && 1 <= r.value.hour12 <= 12 && r.value.end <= |s|
    decreases DayAlternativeCount - k
  {
    if k < DayAlternativeCount {
      var alt := DayAlternative(k);
      if Fits(alt, s, 0) {
        DayFitValue(k, s, 0);
        var here := MatchSpaces(s, |alt|, NumberIn(s[..|alt|]), SpaceRun(s, |alt|));
        if here.Some? {
          MatchSpacesSound(s, |alt|, NumberIn(s[..|alt|]), SpaceRun(s, |alt|), here.value);
        }
      }
      MatchTimedSound(s, k + 1);
    }
  }

  /** A day alternative, then a match of `\s+` and `%I%p` after it, reads as the timed pattern. */
  lemma SpacesReadTimed(s: string, k: nat, c: Clock)
    requires k < DayAlternativeCount && Fits(DayAlternative(k), s, 0)
    requires var n := |DayAlternative(k)|;
      MatchSpaces(s, n, NumberIn(s[..n]), SpaceRun(s, n)) == Some(c)
    ensures ReadsTimed(s, c)
  {
    var n := |DayAlternative(k)|;
    var w := SpaceRun(s, n);
    MatchSpacesSound(s, n, NumberIn(s[..n]), w, c);
    var p := MatchSpacesReads(s, n, NumberIn(s[..n]), w, c);
    MatchHourReads(s, p, NumberIn(s[..n]), 0, c);
    SpaceRunSpaces(s, n);
    assert forall i :: n <= i < p ==> IsPySpace(s[i]);
  }

  /** The text a match of the timed pattern consumed has the shape ReadsTimed describes. */
  lemma {:induction false} MatchTimedReads(s: string, k: nat, c: Clock)
    requires k <= DayAlternativeCount && MatchTimed(s, k) == Some(c)
    ensures ReadsTimed(s, c)
    decreases DayAlternativeCount - k
  {
    var n := |DayAlternative(k)|;
    if Fits(DayAlternative(k), s, 0) && MatchSpaces(s, n, NumberIn(s[..n]), SpaceRun(s, n)).Some? {
      SpacesReadTimed(s, k, c);
    } else {
      MatchTimedReads(s, k + 1, c);
    }
  }

  /** strptime("2025-08-" + s, "%Y-%m-%d"). */
  function ParseDate(s: string): Result<Begin, ParseError>
  {
    match FirstFit(s, 0)
    case None => Failure(FormatMismatch)
    case Some(n) => if n == |s| then Success(AllDay(NumberIn(s))) else Failure(UnconvertedData)
  }

  /** strptime("2025-08-" + s, "%Y-%m-%d %I%p"), with the default duration attached. */
  function ParseDateTime(s: string): Result<Begin, ParseError>
  {
    match MatchTimed(s, 0)
    case None => Failure(FormatMismatch)
    case Some(c) =>
      MatchTimedSound(s, 0);
      if c.end == |s| then Success(Timed(c.day, To24(c.hour12, c.pm), DefaultDurationHours))
      else Failure(UnconvertedData)
  }

  // ------------------------------------------------------------ one row

  /** create_calendar's loop body for one row. */
  function Interpret(row: Row): Outcome
  {
    if !Contains(Show(row.dateWindow), "Aug") then Skipped
    else
      var day := StartDay(Show(row.dateWindow));
      match row.typicalTime
      case NaN => Failed(NotIterable)
      case Str(tt) =>
        var begin := if IsTimed(tt) then ParseDateTime(day + " " + StartTime(tt)) else ParseDate(day);
        match begin
        case Failure(e) => Failed(e)
        case Success(b) => Parsed(Event(row.name, row.address, b))
  }

  // ------------------------------------------------------------ the whole table

  /** The event one row adds to the calendar: none unless it interprets. */
  function Emitted(r: Row): seq<Event>
  {
    var o := Interpret(r);
    if o.Parsed? then [o.event] else []
  }

  /** The failure line one row prints: none unless it fails. */
  function Reported(r: Row): seq<Report>
  {
    var o := Interpret(r);
    if o.Failed? then [RowFailed(r.name, o.error)] else []
  }

  /** The events of the rows that interpret, in row order. */
  function Events(rows: seq<Row>): seq<Event>
  {
    if rows == [] then []
    else Events(rows[..|rows| - 1]) + Emitted(rows[|rows| - 1])
  }

  /** The failure lines printed for the rows that do not interpret, in row order. */
  function Failures(rows: seq<Row>): seq<Report>
  {
    if rows == [] then []
    else Failures(rows[..|rows| - 1]) + Reported(rows[|rows| - 1])
  }

  /** The rows whose date window mentions August. */
  function AugustRows(rows: seq<Row>): seq<Row>
  {
    if rows == [] then []
    else
      var r := rows[|rows| - 1];
      AugustRows(rows[..|rows| - 1]) + (if Contains(Show(r.dateWindow), "Aug") then [r] else [])
  }

  /**
   * create_calendar: None stands for the missing input file, in which case
   * nothing is built or written. Otherwise the calendar holds the events of
   * the rows that interpret, and each failing row is reported.
   */
  method CreateCalendar(input: Option<seq<Row>>) returns (calendar: Option<seq<Event>>, log: seq<Report>)
    ensures input.None? ==> calendar == None && log == [FileMissing]
    ensures input.Some? ==> calendar == Some(Events(input.value)) && log == Failures(input.value)
  {
    if input.None? {
      return None, [FileMissing];
    }
    var rows := input.value;
    var events: seq<Event> := [];
    log := [];
    var i := 0;
    while i < |rows|
      invariant 0 <= i <= |rows|
      invariant events == Events(rows[..i])
      invariant log == Failures(rows[..i])
    {
      assert rows[..i + 1][..i] == rows[..i];
      var o := Interpret(rows[i]);
      match o {
        case Skipped =>
        case Failed(e) =>
          log := log + [RowFailed(rows[i].name, e)];
        case Parsed(e) =>
          events := events + [e];
      }
      i := i + 1;
    }
    assert rows[..i] == rows;
    calendar := Some(events);
  }

  // ------------------------------------------------------------ properties of strptime

  /** "am" or "pm" as the source writes them. */
  function Meridiem(pm: bool): string
  {
    if pm then "pm" else "am"
  }

  lemma {:induction false} NatToStringSmall(n: nat)
    requires n < 100
    ensures n < 10 ==> NatToString(n) == [DigitChar(n)]
    ensures 10 <= n ==> NatToString(n) == [DigitChar(n / 10), DigitChar(n % 10)]
  {
    if 10 <= n {
      assert NatToString(n / 10) == [DigitChar(n / 10)];
    }
  }

  lemma MatchHourSkip(s: string, at: nat, day: nat, k: nat)
    requires k < HourAlternativeCount && !Fits(HourAlternative(k), s, at)
    ensures MatchHour(s, at, day, k) == MatchHour(s, at, day, k + 1)
  {
  }

  lemma MatchTimedSkip(s: string, k: nat)
    requires k < DayAlternativeCount && !Fits(DayAlternative(k), s, 0)
    ensures MatchTimed(s, k) == MatchTimed(s, k + 1)
  {
  }

  lemma MatchTimedTake(s: string, k: nat, n: nat, day: nat, c: Clock)
    requires k < DayAlternativeCount && n == |DayAlternative(k)| && Fits(DayAlternative(k), s, 0)
    requires NumberIn(s[..n]) == day && MatchSpaces(s, n, day, SpaceRun(s, n)) == Some(c)
    ensures MatchTimed(s, k) == Some(c)
  {
  }

  /**
   * The k-th day alternative is the first that fits, from the i-th on, and the
   * rest of the pattern matches after it: the match is the one it gives.
   */
  lemma {:induction false} MatchTimedFirst(s: string, i: nat, k: nat, n: nat, day: nat, c: Clock)
    requires i <= k < DayAlternativeCount && n == |DayAlternative(k)| && Fits(DayAlternative(k), s, 0)
    requires forall j :: i <= j < k ==> !Fits(DayAlternative(j), s, 0)
    requires NumberIn(s[..n]) == day && MatchSpaces(s, n, day, SpaceRun(s, n)) == Some(c)
    ensures MatchTimed(s, i) == Some(c)
    decreases k - i
  {
    if i == k {
      MatchTimedTake(s, k, n, day, c);
    } else {
      MatchTimedSkip(s, i);
      MatchTimedFirst(s, i + 1, k, n, day, c);
    }
  }

  lemma MatchHourTake(s: string, at: nat, day: nat, k: nat, pm: bool)
    requires k < HourAlternativeCount && Fits(HourAlternative(k), s, at)
    requires MeridiemAt(s, at + |HourAlternative(k)|) == Some(pm)
    ensures var n := |HourAlternative(k)|;
      MatchHour(s, at, day, k) == Some(Clock(day, NumberIn(s[at..at + n]), pm, at + n + 2))
  {
  }

  /**
   * The k-th hour alternative is the first that fits at position at, from the
   * i-th on, and a meridiem follows it: the match is the one it gives.
   */
  lemma {:induction false} MatchHourFirst(s: string, at: nat, day: nat, i: nat, k: nat, pm: bool)
    requires i <= k < HourAlternativeCount && Fits(HourAlternative(k), s, at)
    requires forall j :: i <= j < k ==> !Fits(HourAlternative(j), s, at)
    requires MeridiemAt(s, at + |HourAlternative(k)|) == Some(pm)
    ensures var n := |HourAlternative(k)|;
      MatchHour(s, at, day, i) == Some(Clock(day, NumberIn(s[at..at + n]), pm, at + n + 2))
    decreases k - i
  {
    if i == k {
      MatchHourTake(s, at, day, k, pm);
    } else {
      MatchHourSkip(s, at, day, i);
      MatchHourFirst(s, at, day, i + 1, k, pm);
    }
  }

  lemma MeridiemMatches(s: string, at: nat, pm: bool)
    requires at + 2 <= |s| && s[at..at + 2] == Meridiem(pm)
    ensures MeridiemAt(s, at) == Some(pm)
  {
    assert AsciiLower(Meridiem(pm)) == Meridiem(pm);
  }

  /** An hour printed as the source prints it, followed by its meridiem, matches `%I%p`. */
  lemma HourMatches(s: string, at: nat, day: nat, h: nat, pm: bool)
    requires 1 <= h <= 12 && at + |NatToString(h)| + 2 <= |s|
    requires s[at..at + |NatToString(h)| + 2] == NatToString(h) + Meridiem(pm)
    ensures MatchHour(s, at, day, 0) == Some(Clock(day, h, pm, at + |NatToString(h)| + 2))
  {
    NatToStringSmall(h);
    NatToStringRoundTrip(h);
    var m := Meridiem(pm);
    assert |m| == 2 && (m[0] == 'a' || m[0] == 'p');
    var hs := NatToString(h);
    var w := |hs|;
    var u := s[at..at + w + 2];
    assert u[..w] == hs && u[w..] == m;
    assert s[at..at + w] == hs;
    assert s[at + w..at + w + 2] == m;
    MeridiemMatches(s, at + w, pm);
    assert u[0] == s[at];
    assert u[..w][0] == hs[0];
    if h < 10 {
      HourMatchesOneDigit(s, at, day, h, pm);
    } else {
      assert s[at + 1] == u[1] == hs[1];
      HourMatchesTwoDigits(s, at, day, h, pm);
    }
  }

  lemma HourMatchesTwoDigits(s: string, at: nat, day: nat, h: nat, pm: bool)
    requires 10 <= h <= 12 && at + 4 <= |s|
    requires s[at] == DigitChar(h / 10) && s[at + 1] == DigitChar(h % 10)
    requires MeridiemAt(s, at + 2) == Some(pm)
    ensures MatchHour(s, at, day, 0) == Some(Clock(day, h, pm, at + 4))
  {
    assert Fits(HourAlternative(0), s, at);
    MatchHourTake(s, at, day, 0, pm);
    NumberInShort(s[at..at + 2]);
  }

  lemma HourMatchesOneDigit(s: string, at: nat, day: nat, h: nat, pm: bool)
    requires 1 <= h < 10 && at + 3 <= |s| && s[at] == DigitChar(h)
    requires s[at + 1] == 'a' || s[at + 1] == 'p'
    requires MeridiemAt(s, at + 1) == Some(pm)
    ensures MatchHour(s, at, day, 0) == Some(Clock(day, h, pm, at + 3))
  {
    assert !Fits(HourAlternative(0), s, at) by {
      assert HourAlternative(0)[1] == Range('0', '2');
      assert !InClass(s[at + 1], HourAlternative(0)[1]);
    }
    assert !Fits(HourAlternative(1), s, at) by {
      assert HourAlternative(1)[0] == Char('0');
      assert !InClass(s[at], HourAlternative(1)[0]);
    }
    assert |HourAlternative(2)| == 1;
    assert NumberIn(s[at..at + 1]) == h by {
      NumberInShort(s[at..at + 1]);
    }
    assert Fits(HourAlternative(2), s, at);
    assert forall j :: 0 <= j < 2 ==> !Fits(HourAlternative(j), s, at);
    MatchHourFirst(s, at, day, 0, 2, pm);
  }

  /** A day printed as a number, one space, then text that matches `%I%p`: the whole pattern matches. */
  lemma DayMatches(s: string, d: nat, at: nat, c: Clock)
    requires 1 <= d <= 31 && at == |NatToString(d)| + 1
    requires at < |s| && s[..at - 1] == NatToString(d) && s[at - 1] == ' ' && !IsPySpace(s[at])
    requires MatchHour(s, at, d, 0) == Some(c)
    ensures MatchTimed(s, 0) == Some(c)
  {
    NatToStringSmall(d);
    var ds := NatToString(d);
    if d < 10 {
      assert s[0] == ds[0] && s[1] == ' ';
      OneSpace(s, 1, d, c);
      DayMatchesOneDigit(s, d, c);
    } else {
      assert s[0] == ds[0] && s[1] == ds[1] && s[2] == ' ';
      OneSpace(s, 2, d, c);
      DayMatchesTwoDigits(s, d, c);
    }
  }

  /** One space before text that matches `%I%p`: `\s+` can take only that space. */
  lemma OneSpace(s: string, w: nat, d: nat, c: Clock)
    requires w + 1 < |s| && s[w] == ' ' && !IsPySpace(s[w + 1])
    requires MatchHour(s, w + 1, d, 0) == Some(c)
    ensures MatchSpaces(s, w, d, SpaceRun(s, w)) == Some(c)
  {
    assert SpaceRun(s, w + 1) == 0;
    assert SpaceRun(s, w) == 1;
  }

  /** A one-digit day: only the fourth alternative, `[1-9]`, fits it. */
  lemma DayMatchesOneDigit(s: string, d: nat, c: Clock)
    requires 1 <= d < 10 && 2 <= |s| && s[0] == DigitChar(d) && s[1] == ' '
    requires MatchSpaces(s, 1, d, SpaceRun(s, 1)) == Some(c)
    ensures MatchTimed(s, 0) == Some(c)
  {
    assert !Fits(DayAlternative(0), s, 0) by {
      assert DayAlternative(0)[1] == Range('0', '1');
      assert !InClass(s[1], DayAlternative(0)[1]);
    }
    assert !Fits(DayAlternative(1), s, 0) by {
      assert DayAlternative(1)[1] == Range('0', '9');
      assert !InClass(s[1], DayAlternative(1)[1]);
    }
    assert !Fits(DayAlternative(2), s, 0) by {
      assert DayAlternative(2)[0] == Char('0');
      assert !InClass(s[0], DayAlternative(2)[0]);
    }
    assert Fits(DayAlternative(3), s, 0);
    assert NumberIn(s[..1]) == d by {
      NumberInShort(s[..1]);
    }
    assert forall j :: 0 <= j < 3 ==> !Fits(DayAlternative(j), s, 0);
    MatchTimedFirst(s, 0, 3, 1, d, c);
  }

  /** A two-digit day: `3[01]` fits the thirties, `[12]\d` the teens and twenties. */
  lemma DayMatchesTwoDigits(s: string, d: nat, c: Clock)
    requires 10 <= d <= 31 && 3 <= |s| && s[0] == DigitChar(d / 10) && s[1] == DigitChar(d % 10) && s[2] == ' '
    requires MatchSpaces(s, 2, d, SpaceRun(s, 2)) == Some(c)
    ensures MatchTimed(s, 0) == Some(c)
  {
    assert NumberIn(s[..2]) == d by {
      NumberInShort(s[..2]);
      assert s[..2][0] == s[0] && s[..2][1] == s[1];
      assert d == 10 * (d / 10) + d % 10;
    }
    if d < 30 {
      assert !Fits(DayAlternative(0), s, 0) by {
        assert DayAlternative(0)[0] == Char('3');
        assert !InClass(s[0], DayAlternative(0)[0]);
      }
      assert Fits(DayAlternative(1), s, 0);
      assert forall j :: 0 <= j < 1 ==> !Fits(DayAlternative(j), s, 0);
      MatchTimedFirst(s, 0, 1, 2, d, c);
    } else {
      assert Fits(DayAlternative(0), s, 0);
      MatchTimedTake(s, 0, 2, d, c);
    }
  }

  /**
   * A day of August and an hour of the 12-hour clock, printed as numbers with
   * one space between them and "am" or "pm" after the hour, read back as that
   * day at that hour of the 24-hour clock, for the default two hours.
   */
  lemma DateTimeRoundTrip(d: nat, h: nat, pm: bool)
    requires 1 <= d <= 31 && 1 <= h <= 12
    ensures ParseDateTime(NatToString(d) + " " + NatToString(h) + Meridiem(pm))
         == Success(Timed(d, To24(h, pm), DefaultDurationHours))
  {
    var ds, hs, m := NatToString(d), NatToString(h), Meridiem(pm);
    var s := ds + " " + hs + m;
    TimedMatches(s, d, h, pm, []);
  }

  /** "D Hm" followed by any text: the timed pattern matches up to the meridiem. */
  lemma TimedMatches(s: string, d: nat, h: nat, pm: bool, tail: string)
    requires 1 <= d <= 31 && 1 <= h <= 12
    requires s == NatToString(d) + " " + NatToString(h) + Meridiem(pm) + tail
    ensures MatchTimed(s, 0) == Some(Clock(d, h, pm, |s| - |tail|))
  {
    var ds, hs, m := NatToString(d), NatToString(h), Meridiem(pm);
    NatToStringRoundTrip(h);
    TimedText(s, ds, hs, m, tail);
    var at := |ds| + 1;
    var c := Clock(d, h, pm, at + |hs| + 2);
    assert c == Clock(d, h, pm, |s| - |tail|);
    HourMatches(s, at, d, h, pm);
    DayMatches(s, d, at, c);
  }

  lemma SpacedText(ds: string, a: string)
    ensures ds + " " + (a + " ") == ds + " " + a + " "
  {
  }

  /** Where the pieces of "D Hm..." sit in the text strptime reads. */
  lemma TimedText(s: string, ds: string, hs: string, m: string, tail: string)
    requires s == ds + " " + hs + m + tail
    requires |hs| > 0 && IsDigit(hs[0]) && |m| == 2
    ensures |ds| + 1 + |hs| + 2 <= |s| && |s| == |ds| + 1 + |hs| + 2 + |tail|
    ensures s[..|ds|] == ds && s[|ds|] == ' ' && !IsPySpace(s[|ds| + 1])
    ensures s[|ds| + 1..|ds| + 1 + |hs| + 2] == hs + m
  {
    assert s[|ds| + 1] == hs[0];
  }

  /** A day of August printed as a number reads back as that all-day date. */
  lemma DateRoundTrip(d: nat)
    requires 1 <= d <= 31
    ensures ParseDate(NatToString(d)) == Success(AllDay(d))
  {
    var s := NatToString(d);
    NatToStringSmall(d);
    if d < 10 {
      assert s == [DigitChar(d)];
      assert !Fits(DayAlternative(0), s, 0) && !Fits(DayAlternative(1), s, 0);
      assert !Fits(DayAlternative(2), s, 0) by {
        assert DayAlternative(2)[0] == Char('0');
        assert !InClass(s[0], DayAlternative(2)[0]);
      }
      assert Fits(DayAlternative(3), s, 0);
      assert forall j :: 0 <= j < 3 ==> !Fits(DayAlternative(j), s, 0);
      FirstFitFirst(s, 0, 3);
    } else if d < 30 {
      assert !Fits(DayAlternative(0), s, 0) by {
        assert DayAlternative(0)[0] == Char('3');
        assert !InClass(s[0], DayAlternative(0)[0]);
      }
      assert Fits(DayAlternative(1), s, 0);
      assert forall j :: 0 <= j < 1 ==> !Fits(DayAlternative(j), s, 0);
      FirstFitFirst(s, 0, 1);
    } else {
      assert Fits(DayAlternative(0), s, 0);
      FirstFitFirst(s, 0, 0);
    }
    assert NumberIn(s) == d by {
      NumberInShort(s);
    }
  }

  /** The k-th day alternative is the first that fits from the i-th on: it gives the length matched. */
  lemma {:induction false} FirstFitFirst(s: string, i: nat, k: nat)
    requires i <= k < DayAlternativeCount && Fits(DayAlternative(k), s, 0)
    requires forall j :: i <= j < k ==> !Fits(DayAlternative(j), s, 0)
    ensures FirstFit(s, i) == Some(|DayAlternative(k)|)
    decreases k - i
  {
    if i < k {
      assert !Fits(DayAlternative(i), s, 0);
      FirstFitFirst(s, i + 1, k);
    }
  }

  /** Every day alternative is one or two positions long, ends in a digit and may start with a space. */
  lemma DayAlternativeShape(k: nat)
    requires k < DayAlternativeCount
    ensures 1 <= |DayAlternative(k)| <= 2
    ensures forall c :: InClass(c, DayAlternative(k)[|DayAlternative(k)| - 1]) ==> IsDigit(c)
    ensures |DayAlternative(k)| == 2 ==> forall c :: InClass(c, DayAlternative(k)[0]) ==> IsDigit(c) || c == ' '
  {
  }

  /**
   * What an all-day date accepts: one or two characters, digits or a leading
   * space, naming a day from 1 to 31. Anything else ("0", "32", "17-19", "Sept")
   * makes the row fail.
   */
  lemma ParseDateSound(s: string)
    requires ParseDate(s).Success?
    ensures 1 <= |s| <= 2 && IsDigit(s[|s| - 1]) && (|s| == 2 ==> IsDigit(s[0]) || s[0] == ' ')
    ensures ParseDate(s).value == AllDay(NumberIn(s)) && 1 <= NumberIn(s) <= 31
  {
    var j := FirstFitWitness(s, 0);
    var alt := DayAlternative(j);
    assert |alt| == |s|;
    assert s[0..|alt|] == s;
    DayAlternativeShape(j);
    DayFitValue(j, s, 0);
    assert InClass(s[|s| - 1], alt[|alt| - 1]);
    if |s| == 2 {
      assert InClass(s[0], alt[0]);
    }
  }

  lemma {:induction false} FirstFitWitness(s: string, k: nat) returns (j: nat)
    requires k <= DayAlternativeCount && FirstFit(s, k).Some?
    ensures k <= j < DayAlternativeCount && Fits(DayAlternative(j), s, 0)
    ensures FirstFit(s, k).value == |DayAlternative(j)|
    decreases DayAlternativeCount - k
  {
    if Fits(DayAlternative(k), s, 0) {
      j := k;
    } else {
      j := FirstFitWitness(s, k + 1);
    }
  }

  /**
   * A timed begin is a day of August at an hour of the day, lasting the default
   * two hours. The text it came from is a `%d` day, whitespace, a `%I` hour and
   * am/pm, with nothing after.
   */
  lemma ParseDateTimeSound(s: string)
    requires ParseDateTime(s).Success?
    ensures ParseDateTime(s).value.Timed?
    ensures 1 <= ParseDateTime(s).value.day <= 31 && ParseDateTime(s).value.hour < 24
    ensures ParseDateTime(s).value.durationHours == DefaultDurationHours
    ensures MatchTimed(s, 0).Some?
    ensures var c := MatchTimed(s, 0).value;
      && c.end == |s| && ReadsTimed(s, c) && 1 <= c.hour12 <= 12
      && ParseDateTime(s).value == Timed(c.day, To24(c.hour12, c.pm), DefaultDurationHours)
  {
    MatchTimedSound(s, 0);
    MatchTimedReads(s, 0, MatchTimed(s, 0).value);
  }

  // ------------------------------------------------------------ properties of the date window

  /**
   * A list: the start day is the first comma-separated item of the window once
   * every "Aug" and every space is removed; any dash inside it is kept.
   */
  lemma ListStartsAtFirstItem(dw: string)
    requires Contains(dw, ",")
    ensures var c, tok := ListCleaned(dw), StartDay(dw);
      && StartsWith(c, tok) && !Contains(tok, ",")
      && (tok == c || c[|tok|] == ',')
      && forall i :: 0 <= i < |tok| ==> tok[i] != ' '
  {
    var c, tok := ListCleaned(dw), StartDay(dw);
    SplitHead(c, ",");
    SplitPiecesFree(c, ",", 0);
    if |Split(c, ",")| > 1 {
      assert (tok + ",")[|tok|] == ',';
    }
    ReplaceAllDeletes(ReplaceAll(dw, "Aug", ""), ' ');
    assert forall i :: 0 <= i < |tok| ==> tok[i] == c[i];
  }

  /**
   * A range: the start day is what the lower bound alone would give; the text
   * after the first dash never matters.
   */
  lemma RangeStartsAtLowerBound(a: string, t: string)
    requires !Contains(a, ",") && !Contains(a, "-") && !Contains(t, ",")
    ensures StartDay(a + "-" + t) == StartDay(a) == PyStrip(ReplaceAll(a, "Aug", ""))
  {
    NotContainsFirst("-", [',']);
    ContainsCharConcat(a, "-", ',');
    ContainsCharConcat(a + "-", t, ',');
    assert (a + "-" + t)[|a|..|a| + 1] == "-";
    ContainsAt(a + "-" + t, "-", |a|);
    SplitFirstPiece(a, '-', t);
  }

  // ------------------------------------------------------------ properties of one row

  /**
   * A row is skipped exactly when its date window does not mention "Aug"; an
   * event carries the row's name and address, is timed exactly when the typical
   * time mentions "am" or "pm", falls on a day of August and, when timed, starts
   * at an hour of the day and lasts two hours.
   */
  lemma InterpretSound(row: Row)
    ensures Interpret(row).Skipped? <==> !Contains(Show(row.dateWindow), "Aug")
    ensures Interpret(row).Parsed? ==>
      var e := Interpret(row).event;
      && e.name == row.name && e.location == row.address
      && row.typicalTime.Str?
      && (e.begin.Timed? <==> IsTimed(row.typicalTime.text))
      && 1 <= e.begin.day <= 31
      && (e.begin.Timed? ==> e.begin.hour < 24 && e.begin.durationHours == DefaultDurationHours)
  {
    if Interpret(row).Parsed? {
      var day := StartDay(Show(row.dateWindow));
      var tt := row.typicalTime.text;
      if IsTimed(tt) {
        ParseDateTimeSound(day + " " + StartTime(tt));
      } else {
        ParseDateSound(day);
      }
    }
  }

  /** An empty typical time is NaN to pandas, and `'pm' in NaN` raises: the row fails. */
  lemma EmptyTimeFails(row: Row)
    requires Contains(Show(row.dateWindow), "Aug") && row.typicalTime == NaN
    ensures Interpret(row) == Failed(NotIterable)
  {
  }

  /**
   * The end of a timed range never matters: two rows whose typical times share
   * the start before the dash, which already says "am" or "pm", interpret alike.
   */
  lemma EndTimeIgnored(row: Row, a: string, t: string, t': string)
    requires !Contains(a, "-") && IsTimed(a)
    requires row.typicalTime == Str(a + "-" + t)
    ensures Interpret(row) == Interpret(row.(typicalTime := Str(a + "-" + t')))
  {
    StartOfTimedRange(a, t);
    StartOfTimedRange(a, t');
  }

  lemma StartOfTimedRange(a: string, u: string)
    requires !Contains(a, "-") && IsTimed(a)
    ensures IsTimed(a + "-" + u) && StartTime(a + "-" + u) == a
  {
    assert [] + a + ("-" + u) == a + "-" + u;
    if Contains(a, "pm") { ContainsGrows([], a, "-" + u, "pm"); } else { ContainsGrows([], a, "-" + u, "am"); }
    SplitFirstPiece(a, '-', u);
  }

  // ------------------------------------------------------------ properties of the loop

  /** One unfolding of Events, stated for the row added last. */
  lemma EventsStep(rows: seq<Row>)
    requires rows != []
    ensures Events(rows) == Events(rows[..|rows| - 1]) + Emitted(rows[|rows| - 1])
  {
  }

  /** One unfolding of Failures, stated for the row added last. */
  lemma FailuresStep(rows: seq<Row>)
    requires rows != []
    ensures Failures(rows) == Failures(rows[..|rows| - 1]) + Reported(rows[|rows| - 1])
  {
  }

  /** Rows do not affect each other: the events of two batches are the events of each. */
  lemma {:induction false} EventsAppend(a: seq<Row>, b: seq<Row>)
    ensures Events(a + b) == Events(a) + Events(b)
    decreases |b|
  {
    if b == [] {
      assert a + b == a;
    } else {
      var ab, b', last := a + b, b[..|b| - 1], b[|b| - 1];
      assert ab[..|ab| - 1] == a + b' && ab[|ab| - 1] == last;
      EventsAppend(a, b');
      EventsStep(ab);
      EventsStep(b);
      assert Events(a) + (Events(b') + Emitted(last)) == (Events(a) + Events(b')) + Emitted(last);
    }
  }

  /** Likewise the failure lines of two batches are the failure lines of each. */
  lemma {:induction false} FailuresAppend(a: seq<Row>, b: seq<Row>)
    ensures Failures(a + b) == Failures(a) + Failures(b)
    decreases |b|
  {
    if b == [] {
      assert a + b == a;
    } else {
      var ab, b', last := a + b, b[..|b| - 1], b[|b| - 1];
      assert ab[..|ab| - 1] == a + b' && ab[|ab| - 1] == last;
      FailuresAppend(a, b');
      FailuresStep(ab);
      FailuresStep(b);
      assert Failures(a) + (Failures(b') + Reported(last)) == (Failures(a) + Failures(b')) + Reported(last);
    }
  }

  /** Every event comes from a row that interprets to it: the index of one such row. */
  lemma {:induction false} EventSource(rows: seq<Row>, e: Event) returns (i: nat)
    requires e in Events(rows)
    ensures i < |rows| && Interpret(rows[i]) == Parsed(e)
    decreases |rows|
  {
    assert rows != [];
    var init, last := rows[..|rows| - 1], rows[|rows| - 1];
    EventsStep(rows);
    if e in Events(init) {
      i := EventSource(init, e);
      assert rows[i] == init[i];
    } else {
      assert e in Emitted(last);
      i := |rows| - 1;
    }
  }

  /** A row that interprets adds exactly its event. */
  lemma EmittedParsed(r: Row, e: Event)
    requires Interpret(r) == Parsed(e)
    ensures Emitted(r) == [e]
  {
  }

  /** Every row that interprets gives its event. */
  lemma {:induction false} EventOfRow(rows: seq<Row>, i: nat, e: Event)
    requires i < |rows| && Interpret(rows[i]) == Parsed(e)
    ensures e in Events(rows)
    decreases |rows|
  {
    var init, last := rows[..|rows| - 1], rows[|rows| - 1];
    EventsStep(rows);
    if i < |init| {
      assert init[i] == rows[i];
      EventOfRow(init, i, e);
    } else {
      assert i == |rows| - 1;
      EmittedParsed(rows[i], e);
    }
  }

  /** The events are exactly the results of the rows that interpret. */
  lemma EventsTrace(rows: seq<Row>, e: Event)
    ensures e in Events(rows) <==> exists i :: 0 <= i < |rows| && Interpret(rows[i]) == Parsed(e)
  {
    if e in Events(rows) {
      var i := EventSource(rows, e);
    }
    if exists i :: 0 <= i < |rows| && Interpret(rows[i]) == Parsed(e) {
      var i :| 0 <= i < |rows| && Interpret(rows[i]) == Parsed(e);
      EventOfRow(rows, i, e);
    }
  }

  /** Each August row either becomes an event or is reported; no other row does either. */
  lemma {:induction false} EveryAugustRowAccounted(rows: seq<Row>)
    ensures |Events(rows)| + |Failures(rows)| == |AugustRows(rows)|
    decreases |rows|
  {
    if rows != [] {
      EveryAugustRowAccounted(rows[..|rows| - 1]);
    }
  }

  // ------------------------------------------------------------ worked rows

  /** "Aug " followed by text free of "A", "," and "-" is read as that text, stripped. */
  lemma AugustDay(rest: string)
    requires forall i :: 0 <= i < |rest| ==> rest[i] != 'A' && rest[i] != ',' && rest[i] != '-'
    ensures Contains("Aug " + rest, "Aug")
    ensures StartDay("Aug " + rest) == PyStrip(" " + rest)
  {
    var dw := "Aug " + rest;
    var tail := " " + rest;
    forall i | 0 <= i < |dw| ensures dw[i] != ',' && dw[i] != '-' {
      if i >= 4 { assert dw[i] == rest[i - 4]; }
    }
    forall i | 0 <= i < |tail| ensures tail[i] != 'A' {
      if i >= 1 { assert tail[i] == rest[i - 1]; }
    }
    NotContainsFirst(dw, ",");
    NotContainsFirst(dw, "-");
    assert dw[..3] == "Aug";
    ContainsAt(dw, "Aug", 0);
    assert dw[3..] == tail;
    NotContainsFirst(tail, "Aug");
    ReplaceAllAbsent(tail, "Aug", "");
    assert StartsWith(dw, "Aug");
    assert ReplaceAll(dw, "Aug", "") == "" + ReplaceAll(dw[3..], "Aug", "") == tail;
  }

  /** "Aug " and a day printed as a number: the start day is that number's text. */
  lemma AugustNumberedDay(d: nat)
    ensures Contains("Aug " + NatToString(d), "Aug")
    ensures StartDay("Aug " + NatToString(d)) == NatToString(d)
  {
    var ds := NatToString(d);
    NatToStringRoundTrip(d);
    StripNumber(ds);
    AugustDay(ds);
  }

  /** A space and then digits strips to the digits. */
  lemma StripNumber(ds: string)
    requires |ds| > 0 && AllDigits(ds)
    ensures PyStrip(" " + ds) == ds
  {
    assert (" " + ds)[1..] == ds;
    assert !IsPySpace(ds[0]) && !IsPySpace(ds[|ds| - 1]);
    assert TrimStart(" " + ds, IsPySpace) == ds;
    assert TrimEnd(ds, IsPySpace) == ds;
  }

  /** The start of a typical time such as "10am-12pm": the hour and its meridiem, timed, before the dash. */
  lemma TimedStart(h: nat, pm: bool, t: string)
    requires 1 <= h <= 12
    ensures var a := NatToString(h) + Meridiem(pm);
      IsTimed(a + "-" + t) && StartTime(a + "-" + t) == a
  {
    var hs, m := NatToString(h), Meridiem(pm);
    var a := hs + m;
    NatToStringRoundTrip(h);
    assert |m| == 2 && m[0] != '-' && m[1] != '-';
    forall i | 0 <= i < |a| ensures a[i] != '-' {
      if i < |hs| { assert a[i] == hs[i]; } else { assert a[i] == m[i - |hs|]; }
    }
    NotContainsFirst(a, "-");
    assert a[|hs|..|hs| + 2] == m;
    ContainsAt(a, m, |hs|);
    StartOfTimedRange(a, t);
  }

  lemma InterpretTimed(row: Row, dw: string, tt: string, r: Result<Begin, ParseError>)
    requires row.dateWindow == Str(dw) && Contains(dw, "Aug")
    requires row.typicalTime == Str(tt) && IsTimed(tt)
    requires ParseDateTime(StartDay(dw) + " " + StartTime(tt)) == r
    ensures r.Success? ==> Interpret(row) == Parsed(Event(row.name, row.address, r.value))
    ensures r.Failure? ==> Interpret(row) == Failed(r.error)
  {
  }

  /**
   * A row such as "Aug 18" at "10am-12pm": the event starts on that day at that
   * hour of the 24-hour clock and lasts two hours, whatever the end time says.
   */
  lemma TimedAugustRow(row: Row, d: nat, h: nat, pm: bool, t: string)
    requires 1 <= d <= 31 && 1 <= h <= 12
    requires row.dateWindow == Str("Aug " + NatToString(d))
    requires row.typicalTime == Str(NatToString(h) + Meridiem(pm) + "-" + t)
    ensures Interpret(row) == Parsed(Event(row.name, row.address, Timed(d, To24(h, pm), DefaultDurationHours)))
  {
    var ds, hs, m := NatToString(d), NatToString(h), Meridiem(pm);
    var dw, tt := "Aug " + ds, hs + m + "-" + t;
    AugustNumberedDay(d);
    assert StartDay(dw) == ds;
    TimedStart(h, pm, t);
    assert IsTimed(tt) && StartTime(tt) == hs + m;
    DateTimeRoundTrip(d, h, pm);
    assert ds + " " + (hs + m) == ds + " " + hs + m;
    InterpretTimed(row, dw, tt, Success(Timed(d, To24(h, pm), DefaultDurationHours)));
  }

  /** A row such as "Aug 20" at "Evening": no "am" or "pm", so an all-day event on that day. */
  lemma AllDayAugustRow(row: Row, d: nat)
    requires 1 <= d <= 31
    requires row.dateWindow == Str("Aug " + NatToString(d))
    requires row.typicalTime.Str? && !IsTimed(row.typicalTime.text)
    ensures Interpret(row) == Parsed(Event(row.name, row.address, AllDay(d)))
  {
    AugustNumberedDay(d);
    DateRoundTrip(d);
  }

  /** "20-22" does not mention "Aug": the row gives no event at all. */
  lemma MuseumSkipped(address: Cell, tt: Cell)
    ensures Interpret(Row(Str("Museum"), address, Str("20-22"), tt)) == Skipped
  {
    NotContainsFirst("20-22", "Aug");
  }

  /** The start of "10am -...": the hour, the meridiem and the space before the dash. */
  lemma SpacedStart(h: nat, pm: bool, t: string)
    requires 1 <= h <= 12
    ensures var a := NatToString(h) + Meridiem(pm) + " ";
      IsTimed(a + "-" + t) && StartTime(a + "-" + t) == a
  {
    var hs, m := NatToString(h), Meridiem(pm);
    NatToStringRoundTrip(h);
    var a := hs + m + " ";
    assert |m| == 2 && m[0] != '-' && m[1] != '-';
    forall i | 0 <= i < |a| ensures a[i] != '-' {
      if i < |hs| { assert a[i] == hs[i]; } else if i < |hs| + 2 { assert a[i] == m[i - |hs|]; }
    }
    NotContainsFirst(a, "-");
    assert a[|hs|..|hs| + 2] == m;
    ContainsAt(a, m, |hs|);
    StartOfTimedRange(a, t);
  }

  /** strptime on "D Hm " matches up to the trailing space and reports it as left over. */
  lemma SpacedTimeMatch(s: string, d: nat, h: nat, pm: bool)
    requires 1 <= d <= 31 && 1 <= h <= 12
    requires s == NatToString(d) + " " + (NatToString(h) + Meridiem(pm) + " ")
    ensures ParseDateTime(s) == Failure(UnconvertedData)
  {
    var ds, hs, m := NatToString(d), NatToString(h), Meridiem(pm);
    assert s == ds + " " + hs + m + " " by {
      SpacedText(ds, hs + m);
    }
    TimedMatches(s, d, h, pm, " ");
  }

  /** "10am - 12pm": the space left after "10am" is not consumed by strptime, so the row fails. */
  lemma SpacedTimeFails(row: Row, d: nat, h: nat, pm: bool, t: string)
    requires 1 <= d <= 31 && 1 <= h <= 12
    requires row.dateWindow == Str("Aug " + NatToString(d))
    requires row.typicalTime == Str(NatToString(h) + Meridiem(pm) + " -" + t)
    ensures Interpret(row) == Failed(UnconvertedData)
  {
    var ds, hs, m := NatToString(d), NatToString(h), Meridiem(pm);
    var dw, tt := "Aug " + ds, hs + m + " -" + t;
    // The start time is the hour, the meridiem and the space before the dash.
    var a := hs + m + " ";
    assert a + "-" + t == tt;
    SpacedStart(h, pm, t);
    assert IsTimed(tt) && StartTime(tt) == a;
    AugustNumberedDay(d);
    assert StartDay(dw) == ds;
    SpacedTimeMatch(ds + " " + a, d, h, pm);
    InterpretTimed(row, dw, tt, Failure(UnconvertedData));
  }
}
