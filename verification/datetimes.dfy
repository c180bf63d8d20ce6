/**
  Naive date-times and the three fixed formats the meal handlers use:
  "%Y-%m-%d %H:%M:%S" (create, and every read), "%Y-%m-%d" (date-only
  update) and "%H:%M:%S" (time-only update).

  A format is a list of directives. Parsing (strptime) reads each field
  at its fixed zero-padded width, collects the fields it saw, fills the
  missing ones from 1900-01-01 00:00:00, and then rejects a value that is
  not a real calendar date-time, as Python's datetime constructor does
  with ValueError. Formatting (strftime) writes every field zero-padded,
  except %Y: the model takes the interpreter to hand %Y to the C library's
  strftime unchanged, and glibc prints the year without padding.
 */
module DateTimes {
  import opened Wrappers
  import opened Digits

  datatype DateTime = DateTime(year: nat, month: nat, day: nat, hour: nat, minute: nat, second: nat)

  const MinYear: nat := 1
  const MaxYear: nat := 9999

  /** Gregorian leap years. */
  predicate IsLeapYear(year: nat) {
    year % 4 == 0 && (year % 100 != 0 || year % 400 == 0)
  }

  function DaysInMonth(year: nat, month: nat): (n: nat)
    requires 1 <= month <= 12
    ensures 28 <= n <= 31
    ensures n == 29 <==> month == 2 && IsLeapYear(year)
  {
    if month == 2 then (if IsLeapYear(year) then 29 else 28)
    else if month == 4 || month == 6 || month == 9 || month == 11 then 30
    else 31
  }

  predicate ValidDate(year: nat, month: nat, day: nat) {
    MinYear <= year <= MaxYear && 1 <= month <= 12 && 1 <= day <= DaysInMonth(year, month)
  }

  predicate ValidTime(hour: nat, minute: nat, second: nat) {
    hour <= 23 && minute <= 59 && second <= 59
  }

  /** The values Python's datetime accepts (no microseconds, no time zone). */
  predicate Valid(dt: DateTime) {
    ValidDate(dt.year, dt.month, dt.day) && ValidTime(dt.hour, dt.minute, dt.second)
  }

  // ---------------------------------------------------------------------------
  // Formats

  datatype Field = Year | Month | Day | Hour | Minute | Second

  /** A conversion such as %Y, or a character that must appear literally. */
  datatype Directive = Conv(field: Field) | Lit(ch: char)

  type Format = seq<Directive>

  /** "%Y-%m-%d" */
  const DateFormat: Format := [Conv(Year), Lit('-'), Conv(Month), Lit('-'), Conv(Day)]

  /** "%H:%M:%S" */
  const TimeFormat: Format := [Conv(Hour), Lit(':'), Conv(Minute), Lit(':'), Conv(Second)]

  /** "%Y-%m-%d %H:%M:%S" */
  const DateTimeFormat: Format :=
    DateFormat + [Lit(' ')] + TimeFormat

  /** The number of characters a conversion reads: four for %Y, two for the others. */
  function Width(f: Field): nat {
    if f == Year then 4 else 2
  }

  function DirectiveWidth(d: Directive): nat {
    match d
    case Conv(f) => Width(f)
    case Lit(_) => 1
  }

  function FormatWidth(fmt: Format): nat {
    if fmt == [] then 0 else DirectiveWidth(fmt[0]) + FormatWidth(fmt[1..])
  }

  /** The fields a format mentions. */
  function FieldsOf(fmt: Format): set<Field> {
    if fmt == [] then {}
    else (if fmt[0].Conv? then {fmt[0].field} else {}) + FieldsOf(fmt[1..])
  }

  /** No field is converted twice. */
  predicate DistinctFields(fmt: Format) {
    fmt == [] || ((fmt[0].Conv? ==> fmt[0].field !in FieldsOf(fmt[1..])) && DistinctFields(fmt[1..]))
  }

  function Get(dt: DateTime, f: Field): nat {
    match f
    case Year => dt.year
    case Month => dt.month
    case Day => dt.day
    case Hour => dt.hour
    case Minute => dt.minute
    case Second => dt.second
  }

  /** What strptime fills in for a field the format does not mention. */
  const Epoch := DateTime(1900, 1, 1, 0, 0, 0)

  function Lookup(found: map<Field, nat>, f: Field, default: nat): nat {
    if f in found then found[f] else default
  }

  /** The date-time made from the fields a parse found, defaults elsewhere. */
  function Build(found: map<Field, nat>): (dt: DateTime)
    ensures forall f :: Get(dt, f) == if f in found then found[f] else Get(Epoch, f)
  {
    DateTime(Lookup(found, Year, 1900), Lookup(found, Month, 1), Lookup(found, Day, 1),
             Lookup(found, Hour, 0), Lookup(found, Minute, 0), Lookup(found, Second, 0))
  }

  /**
    Matches the whole of s against fmt and returns the fields found; a later
    conversion of the same field overrides an earlier one. None when a
    literal does not match, a field is not all digits, the input ends
    early, or characters remain after the format.
   */
  function Scan(s: string, fmt: Format): Option<map<Field, nat>>
    decreases fmt
  {
    if fmt == [] then
      if s == [] then Some(map[]) else None
    else
      match fmt[0]
      case Lit(c) =>
        if |s| > 0 && s[0] == c then Scan(s[1..], fmt[1..]) else None
      case Conv(f) =>
        var w := Width(f);
        if |s| >= w && AllDigits(s[..w]) then
          match Scan(s[w..], fmt[1..])
          case None => None
          case Some(rest) => Some(map[f := Value(s[..w])] + rest)
        else None
  }

  /** datetime.strptime: None stands for the ValueError it raises. */
  function Strptime(s: string, fmt: Format): (r: Option<DateTime>)
    ensures r.Some? ==> Valid(r.value)
  {
    match Scan(s, fmt)
    case None => None
    case Some(found) =>
      var dt := Build(found);
      if Valid(dt) then Some(dt) else None
  }

  /** A successful parse is the date-time built from the fields the scan found. */
  lemma StrptimeBuilds(s: string, fmt: Format)
    requires Strptime(s, fmt).Some?
    ensures Scan(s, fmt).Some? && Strptime(s, fmt).value == Build(Scan(s, fmt).value)
  {
  }

  function RenderField(dt: DateTime, f: Field): string {
    if f == Year then Decimal(dt.year) else Fixed(Get(dt, f), 2)
  }

  /** datetime.strftime. */
  function Strftime(dt: DateTime, fmt: Format): string {
    if fmt == [] then []
    else
      (match fmt[0]
       case Lit(c) => [c]
       case Conv(f) => RenderField(dt, f))
      + Strftime(dt, fmt[1..])
  }

  // ---------------------------------------------------------------------------
  // The parses and the format the handlers use

  /** The create handler's parse of date + " " + time. */
  function ParseDateTime(s: string): (r: Option<DateTime>)
    ensures r.Some? ==> Valid(r.value)
  {
    Strptime(s, DateTimeFormat)
  }

  /** The date-only parse of an update; its time of day is midnight. */
  function ParseDate(s: string): (r: Option<DateTime>)
    ensures r.Some? ==> Valid(r.value) && r.value.hour == 0 && r.value.minute == 0 && r.value.second == 0
  {
    Strptime(s, DateFormat)
  }

  /** The time-only parse of an update; its date is 1900-01-01. */
  function ParseTime(s: string): (r: Option<DateTime>)
    ensures r.Some? ==> Valid(r.value) && r.value.year == 1900 && r.value.month == 1 && r.value.day == 1
  {
    Strptime(s, TimeFormat)
  }

  /** The "datetime" string of a meal in a read response. */
  function FormatDateTime(dt: DateTime): string {
    Strftime(dt, DateTimeFormat)
  }

  /** dt.replace(year=d.year, month=d.month, day=d.day) */
  function ReplaceDate(dt: DateTime, d: DateTime): DateTime {
    DateTime(d.year, d.month, d.day, dt.hour, dt.minute, dt.second)
  }

  /** dt.replace(hour=t.hour, minute=t.minute, second=t.second) */
  function ReplaceTime(dt: DateTime, t: DateTime): DateTime {
    DateTime(dt.year, dt.month, dt.day, t.hour, t.minute, t.second)
  }

  /** Neither replacement can make a valid date-time invalid, so .replace never raises here. */
  lemma ReplacePreservesValid(dt: DateTime, other: DateTime)
    requires Valid(dt) && Valid(other)
    ensures Valid(ReplaceDate(dt, other)) && Valid(ReplaceTime(dt, other))
  {
  }

  // ---------------------------------------------------------------------------
  // Facts about Scan

  lemma {:induction false} ScanLength(s: string, fmt: Format)
    requires Scan(s, fmt).Some?
    ensures |s| == FormatWidth(fmt)
    decreases fmt
  {
    if fmt != [] {
      match fmt[0]
      case Lit(c) => ScanLength(s[1..], fmt[1..]);
      case Conv(f) => ScanLength(s[Width(f)..], fmt[1..]);
    }
  }

  lemma {:induction false} ScanKeys(s: string, fmt: Format)
    requires Scan(s, fmt).Some?
    ensures Scan(s, fmt).value.Keys == FieldsOf(fmt)
    decreases fmt
  {
    if fmt != [] {
      match fmt[0]
      case Lit(c) => ScanKeys(s[1..], fmt[1..]);
      case Conv(f) => ScanKeys(s[Width(f)..], fmt[1..]);
    }
  }

  /** A character that is neither a digit nor a literal of the format cannot occur in accepted input. */
  lemma {:induction false} ScanAvoids(s: string, fmt: Format, c: char)
    requires !IsDigit(c) && Lit(c) !in fmt
    requires Scan(s, fmt).Some?
    ensures c !in s
    decreases fmt
  {
    if fmt != [] {
      assert Lit(c) !in fmt[1..] by {
        forall i | 0 <= i < |fmt[1..]| ensures fmt[1..][i] != Lit(c) {
          assert fmt[1..][i] == fmt[i + 1];
        }
      }
      match fmt[0]
      case Lit(d) =>
        ScanAvoids(s[1..], fmt[1..], c);
        assert s == [s[0]] + s[1..];
      case Conv(f) =>
        var w := Width(f);
        ScanAvoids(s[w..], fmt[1..], c);
        assert c !in s[..w] by {
          forall i | 0 <= i < w ensures s[..w][i] != c {
            assert IsDigit(s[..w][i]);
          }
        }
        assert s == s[..w] + s[w..];
    }
  }

  function Join(a: Option<map<Field, nat>>, b: Option<map<Field, nat>>): Option<map<Field, nat>> {
    if a.Some? && b.Some? then Some(a.value + b.value) else None
  }

  /** Scanning against a concatenation of formats splits the input at the first format's width. */
  lemma {:induction false} ScanAppend(s: string, f1: Format, f2: Format)
    ensures Scan(s, f1 + f2) ==
      if |s| < FormatWidth(f1) then None
      else Join(Scan(s[..FormatWidth(f1)], f1), Scan(s[FormatWidth(f1)..], f2))
    decreases |f1|, 1
  {
    if f1 == [] {
      assert f1 + f2 == f2;
      assert s[..0] == [] && s[0..] == s;
      match Scan(s, f2)
      case None =>
      case Some(m) => assert map[] + m == m;
    } else if f1[0].Lit? {
      ScanAppendLit(s, f1, f2);
    } else {
      ScanAppendConv(s, f1, f2);
    }
  }

  lemma {:induction false} ScanAppendLit(s: string, f1: Format, f2: Format)
    requires f1 != [] && f1[0].Lit?
    ensures Scan(s, f1 + f2) ==
      if |s| < FormatWidth(f1) then None
      else Join(Scan(s[..FormatWidth(f1)], f1), Scan(s[FormatWidth(f1)..], f2))
    decreases |f1|, 0
  {
    var w := FormatWidth(f1);
    assert (f1 + f2)[0] == f1[0];
    assert (f1 + f2)[1..] == f1[1..] + f2;
    if |s| > 0 {
      ScanAppend(s[1..], f1[1..], f2);
      if |s| >= w {
        assert s[..w][1..] == s[1..][..w - 1];
        assert s[1..][w - 1..] == s[w..];
      }
    }
  }

  lemma {:induction false} ScanAppendConv(s: string, f1: Format, f2: Format)
    requires f1 != [] && f1[0].Conv?
    ensures Scan(s, f1 + f2) ==
      if |s| < FormatWidth(f1) then None
      else Join(Scan(s[..FormatWidth(f1)], f1), Scan(s[FormatWidth(f1)..], f2))
    decreases |f1|, 0
  {
    var w := FormatWidth(f1);
    var f := f1[0].field;
    var k := Width(f);
    assert w == k + FormatWidth(f1[1..]);
    assert (f1 + f2)[0] == f1[0];
    assert (f1 + f2)[1..] == f1[1..] + f2;
    if |s| >= k && AllDigits(s[..k]) {
      ScanAppend(s[k..], f1[1..], f2);
      if |s| >= w {
        assert s[..w][..k] == s[..k];
        assert s[..w][k..] == s[k..][..w - k];
        assert s[k..][w - k..] == s[w..];
        var a, b := Scan(s[k..][..w - k], f1[1..]), Scan(s[w..], f2);
        if a.Some? && b.Some? {
          var v := Value(s[..k]);
          assert (map[f := v] + a.value) + b.value == map[f := v] + (a.value + b.value);
        }
      }
    } else if |s| >= w {
      assert s[..w][..k] == s[..k];
    }
  }

  /** The values that RenderField writes at a width the parser reads back. */
  predicate Renderable(dt: DateTime) {
    1000 <= dt.year <= 9999 && dt.month < 100 && dt.day < 100
    && dt.hour < 100 && dt.minute < 100 && dt.second < 100
  }

  lemma RenderFieldReads(dt: DateTime, f: Field)
    requires Renderable(dt)
    ensures |RenderField(dt, f)| == Width(f) && AllDigits(RenderField(dt, f))
    ensures Value(RenderField(dt, f)) == Get(dt, f)
  {
    if f == Year {
      assert Pow10(3) == 1000 && Pow10(4) == 10000;
      DecimalIsFixed(dt.year, 4);
      ValueOfFixed(dt.year, 4);
    } else {
      assert Pow10(2) == 100;
      ValueOfFixed(Get(dt, f), 2);
    }
  }

  function Restrict(dt: DateTime, fmt: Format): map<Field, nat> {
    map f | f in FieldsOf(fmt) :: Get(dt, f)
  }

  /** Scanning what strftime wrote finds exactly the fields of the format, with their values. */
  lemma {:induction false} ScanRendered(dt: DateTime, fmt: Format)
    requires Renderable(dt)
    ensures Scan(Strftime(dt, fmt), fmt) == Some(Restrict(dt, fmt))
    decreases fmt
  {
    if fmt == [] {
      assert Restrict(dt, fmt) == map[];
    } else {
      var t := Strftime(dt, fmt[1..]);
      ScanRendered(dt, fmt[1..]);
      match fmt[0]
      case Lit(c) =>
        assert Strftime(dt, fmt)[1..] == t;
        assert Restrict(dt, fmt) == Restrict(dt, fmt[1..]);
      case Conv(f) =>
        var r := RenderField(dt, f);
        var s := Strftime(dt, fmt);
        RenderFieldReads(dt, f);
        assert s[..Width(f)] == r && s[Width(f)..] == t;
        assert map[f := Get(dt, f)] + Restrict(dt, fmt[1..]) == Restrict(dt, fmt);
    }
  }

  /**
    An accepted input is the strftime rendering of any date-time that agrees
    with the fields found, provided no field is read twice and the year, if
    read, has four significant digits.
   */
  lemma {:induction false} ScanCanonical(s: string, fmt: Format, dt: DateTime)
    requires Scan(s, fmt).Some? && DistinctFields(fmt)
    requires forall f :: f in Scan(s, fmt).value ==> Get(dt, f) == Scan(s, fmt).value[f]
    requires Year in Scan(s, fmt).value ==> dt.year >= 1000
    ensures Strftime(dt, fmt) == s
    decreases fmt
  {
    if fmt != [] {
      var found := Scan(s, fmt).value;
      match fmt[0]
      case Lit(c) =>
        ScanCanonical(s[1..], fmt[1..], dt);
        assert s == [c] + s[1..];
      case Conv(f) =>
        var w := Width(f);
        var head := s[..w];
        var rest := Scan(s[w..], fmt[1..]).value;
        ScanKeys(s[w..], fmt[1..]);
        assert found == map[f := Value(head)] + rest;
        assert Get(dt, f) == Value(head);
        ScanCanonical(s[w..], fmt[1..], dt);
        FixedOfValue(head);
        if f == Year {
          ValueBound(head);
          assert Pow10(3) == 1000 && Pow10(4) == 10000;
          DecimalIsFixed(dt.year, 4);
        }
        assert RenderField(dt, f) == head;
        assert s == head + s[w..];
    }
  }

  // ---------------------------------------------------------------------------
  // Properties of the handlers' parses and format

  /** The fields of a concatenation are the fields of its parts. */
  lemma {:induction false} FieldsOfAppend(f1: Format, f2: Format)
    ensures FieldsOf(f1 + f2) == FieldsOf(f1) + FieldsOf(f2)
    decreases |f1|
  {
    if f1 != [] {
      assert (f1 + f2)[0] == f1[0];
      assert (f1 + f2)[1..] == f1[1..] + f2;
      FieldsOfAppend(f1[1..], f2);
    } else {
      assert f1 + f2 == f2;
    }
  }

  /** Two formats without repeated fields and without a field in common concatenate to one. */
  lemma {:induction false} DistinctAppend(f1: Format, f2: Format)
    requires DistinctFields(f1) && DistinctFields(f2) && FieldsOf(f1) !! FieldsOf(f2)
    ensures DistinctFields(f1 + f2)
    decreases |f1|
  {
    if f1 != [] {
      assert (f1 + f2)[0] == f1[0];
      assert (f1 + f2)[1..] == f1[1..] + f2;
      FieldsOfAppend(f1[1..], f2);
      DistinctAppend(f1[1..], f2);
    } else {
      assert f1 + f2 == f2;
    }
  }

  lemma DateFormatShape()
    ensures FieldsOf(DateFormat) == {Year, Month, Day}
    ensures DistinctFields(DateFormat)
    ensures FormatWidth(DateFormat) == 10
    ensures Lit(' ') !in DateFormat
  {
    var f := DateFormat;
    assert f[4..][1..] == [];
    assert FieldsOf(f[4..]) == {Day} && FormatWidth(f[4..]) == 2 && DistinctFields(f[4..]);
    assert f[3..][1..] == f[4..];
    assert FieldsOf(f[3..]) == {Day} && FormatWidth(f[3..]) == 3 && DistinctFields(f[3..]);
    assert f[2..][1..] == f[3..];
    assert FieldsOf(f[2..]) == {Month, Day} && FormatWidth(f[2..]) == 5 && DistinctFields(f[2..]);
    assert f[1..][1..] == f[2..];
    assert FieldsOf(f[1..]) == {Month, Day} && FormatWidth(f[1..]) == 6 && DistinctFields(f[1..]);
  }

  lemma TimeFormatShape()
    ensures FieldsOf(TimeFormat) == {Hour, Minute, Second}
    ensures DistinctFields(TimeFormat)
    ensures Lit(' ') !in TimeFormat
  {
    var f := TimeFormat;
    assert f[4..][1..] == [];
    assert FieldsOf(f[4..]) == {Second} && DistinctFields(f[4..]);
    assert f[3..][1..] == f[4..];
    assert FieldsOf(f[3..]) == {Second} && DistinctFields(f[3..]);
    assert f[2..][1..] == f[3..];
    assert FieldsOf(f[2..]) == {Minute, Second} && DistinctFields(f[2..]);
    assert f[1..][1..] == f[2..];
    assert FieldsOf(f[1..]) == {Minute, Second} && DistinctFields(f[1..]);
  }

  /** The read format converts each of the six fields exactly once. */
  lemma DateTimeFormatShape()
    ensures FieldsOf(DateTimeFormat) == {Year, Month, Day, Hour, Minute, Second}
    ensures DistinctFields(DateTimeFormat)
  {
    var dated := DateFormat + [Lit(' ')];
    DateFormatShape();
    TimeFormatShape();
    assert FieldsOf([Lit(' ')]) == {} && DistinctFields([Lit(' ')]);
    FieldsOfAppend(DateFormat, [Lit(' ')]);
    DistinctAppend(DateFormat, [Lit(' ')]);
    FieldsOfAppend(dated, TimeFormat);
    DistinctAppend(dated, TimeFormat);
  }

  /** Parsing the read format gives back the stored date-time, for years from 1000 on. */
  lemma FormatThenParse(dt: DateTime)
    requires Valid(dt) && dt.year >= 1000
    ensures ParseDateTime(FormatDateTime(dt)) == Some(dt)
  {
    DateTimeFormatShape();
    ScanRendered(dt, DateTimeFormat);
    assert Build(Restrict(dt, DateTimeFormat)) == dt;
  }

  /** Every accepted string with a four-digit year from 1000 on is its own canonical rendering. */
  lemma ParseThenFormat(s: string)
    requires ParseDateTime(s).Some? && ParseDateTime(s).value.year >= 1000
    ensures FormatDateTime(ParseDateTime(s).value) == s
  {
    DateTimeFormatShape();
    StrptimeBuilds(s, DateTimeFormat);
    var dt := ParseDateTime(s).value;
    ScanKeys(s, DateTimeFormat);
    ScanCanonical(s, DateTimeFormat, dt);
  }

  /** How date + " " + time scans against the combined format: only a ten-character date can match. */
  lemma {:induction false} ScanSpaced(date: string, time: string)
    ensures Scan(date + " " + time, DateTimeFormat) ==
      if |date| == 10 then Join(Scan(date, DateFormat), Scan(time, TimeFormat)) else None
  {
    DateFormatShape();
    var s := date + " " + time;
    var spaced := [Lit(' ')] + TimeFormat;
    assert DateTimeFormat == DateFormat + spaced;
    ScanAppend(s, DateFormat, spaced);
    if |s| > 10 {
      assert Scan(s[10..], spaced) == if s[10] == ' ' then Scan(s[11..], TimeFormat) else None;
    }
    if |date| == 10 {
      assert s[..10] == date && s[11..] == time && s[10] == ' ';
    } else if |date| < 10 {
      if |s| >= 10 {
        ShortDateRejected(s[..10], |date|);
      }
    } else if s[10] == ' ' {
      assert s[11..][|date| - 11] == ' ';
      TimeWithSpaceRejected(s[11..], |date| - 11);
    }
  }

  lemma ShortDateRejected(s: string, k: nat)
    requires k < |s| && s[k] == ' '
    ensures Scan(s, DateFormat).None?
  {
    if Scan(s, DateFormat).Some? {
      DateFormatShape();
      ScanAvoids(s, DateFormat, ' ');
    }
  }

  lemma TimeWithSpaceRejected(s: string, k: nat)
    requires k < |s| && s[k] == ' '
    ensures Scan(s, TimeFormat).None?
  {
    if Scan(s, TimeFormat).Some? {
      TimeFormatShape();
      ScanAvoids(s, TimeFormat, ' ');
    }
  }

  /** Date fields and time fields found apart build the date-time of both. */
  lemma BuildJoined(dates: map<Field, nat>, times: map<Field, nat>)
    requires dates.Keys == {Year, Month, Day} && times.Keys == {Hour, Minute, Second}
    ensures Build(dates + times) == ReplaceTime(Build(dates), Build(times))
    ensures Valid(Build(dates + times)) <==> Valid(Build(dates)) && Valid(Build(times))
  {
  }

  /**
    In this model, with its strict parse, the create handler's single parse
    of date + " " + time agrees with the update handler's two parses: it
    succeeds exactly when the date-only and the time-only parses both
    succeed, and then combines their components.
   */
  lemma ParseDateTimeSplits(date: string, time: string)
    ensures ParseDateTime(date + " " + time) ==
      if ParseDate(date).Some? && ParseTime(time).Some?
      then Some(ReplaceTime(ParseDate(date).value, ParseTime(time).value))
      else None
  {
    ScanSpaced(date, time);
    var d, t := Scan(date, DateFormat), Scan(time, TimeFormat);
    if |date| == 10 {
      if d.Some? && t.Some? {
        DateFormatShape();
        TimeFormatShape();
        ScanKeys(date, DateFormat);
        ScanKeys(time, TimeFormat);
        BuildJoined(d.value, t.value);
        var both := Build(d.value + t.value);
        assert ParseDateTime(date + " " + time) == if Valid(both) then Some(both) else None;
        assert ParseDate(date) == if Valid(Build(d.value)) then Some(Build(d.value)) else None;
        assert ParseTime(time) == if Valid(Build(t.value)) then Some(Build(t.value)) else None;
      }
    } else if d.Some? {
      DateFormatShape();
      ScanLength(date, DateFormat);
    }
  }
}
