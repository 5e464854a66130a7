/** Timestamp conversion and cleaning (main.py:49-56, 65): the date and time
    tokens of each record are read under `%Y/%m/%d %H:%M:%S`; records whose
    timestamp does not convert are dropped, and the survivors carry their
    calendar date and weekday. */
module Timestamps {
  import opened Text
  import opened Wrappers
  import opened Calendar
  import opened Records
  import opened Seqs

  // ---------------------------------------------------------------- numeric fields

  function DigitValue(c: char): (v: nat)
    requires IsDigit(c)
    ensures v < 10
  {
    c as int - '0' as int
  }

  function Pow10(n: nat): (p: nat)
    ensures p >= 1
  {
    if n == 0 then 1 else 10 * Pow10(n - 1)
  }

  /** The decimal value of a digit string, most significant digit first. */
  function DigitsValue(s: string): (v: nat)
    requires AllDigits(s)
    ensures v < Pow10(|s|)
  {
    if s == [] then 0 else DigitsValue(s[..|s| - 1]) * 10 + DigitValue(s[|s| - 1])
  }

  /** A numeric directive: between lo and hi ASCII digits, read as a number. */
  function Field(s: string, lo: nat, hi: nat): (r: Option<nat>)
    ensures r.Some? <==> lo <= |s| <= hi && AllDigits(s)
    ensures r.Some? ==> r.value < Pow10(|s|)
  {
    if lo <= |s| <= hi && AllDigits(s) then Some(DigitsValue(s)) else None
  }

  // ---------------------------------------------------------------- to_datetime

  /** `pd.to_datetime(date + " " + time, format='%Y/%m/%d %H:%M:%S', errors='coerce')`:
      the timestamp, or None for NaT. `%Y` takes four digits, the other
      directives one or two; the fields must name a real Gregorian date and
      time of day inside the datetime64[ns] range. */
  function ToDatetime(date: string, time: string): (t: Option<Timestamp>)
    ensures t.Some? ==> ValidTimestamp(t.value)
    ensures t.Some? ==> exists y, mo, d, h, mi, s ::
      && TokenShape(y, mo, d, h, mi, s)
      && date == JoinWith([y, mo, d], '/') && time == JoinWith([h, mi, s], ':')
      && t.value == Spelled(y, mo, d, h, mi, s)
  {
    var ds := SplitOn(date, '/');
    var ts := SplitOn(time, ':');
    JoinSplitOn(date, '/');
    JoinSplitOn(time, ':');
    if |ds| != 3 || |ts| != 3 then None
    else
      var y, mo, d := Field(ds[0], 4, 4), Field(ds[1], 1, 2), Field(ds[2], 1, 2);
      var h, mi, s := Field(ts[0], 1, 2), Field(ts[1], 1, 2), Field(ts[2], 1, 2);
      if y.None? || mo.None? || d.None? || h.None? || mi.None? || s.None? then None
      else
        var t := Timestamp(Date(y.value, mo.value, d.value), h.value, mi.value, s.value);
        assert ds == [ds[0], ds[1], ds[2]] && ts == [ts[0], ts[1], ts[2]];
        assert TokenShape(ds[0], ds[1], ds[2], ts[0], ts[1], ts[2]);
        assert t == Spelled(ds[0], ds[1], ds[2], ts[0], ts[1], ts[2]);
        if ValidTimestamp(t) then Some(t) else None
  }

  /** Six tokens in the `%Y/%m/%d %H:%M:%S` layout: four ASCII digits for the
      year and one or two for every other field. */
  predicate TokenShape(y: string, mo: string, d: string, h: string, mi: string, s: string) {
    && |y| == 4 && 1 <= |mo| <= 2 && 1 <= |d| <= 2
    && 1 <= |h| <= 2 && 1 <= |mi| <= 2 && 1 <= |s| <= 2
    && AllDigits(y) && AllDigits(mo) && AllDigits(d)
    && AllDigits(h) && AllDigits(mi) && AllDigits(s)
  }

  /** The timestamp whose fields are the numbers the tokens spell. */
  function Spelled(y: string, mo: string, d: string, h: string, mi: string, s: string): Timestamp
    requires TokenShape(y, mo, d, h, mi, s)
  {
    Timestamp(Date(DigitsValue(y), DigitsValue(mo), DigitsValue(d)), DigitsValue(h), DigitsValue(mi), DigitsValue(s))
  }

  // ---------------------------------------------------------------- formatting

  function DigitChar(n: nat): (c: char)
    requires n < 10
    ensures IsDigit(c) && DigitValue(c) == n
  {
    ('0' as int + n) as char
  }

  /** n written with exactly w digits, leading zeros included. */
  function Padded(n: nat, w: nat): (s: string)
    requires n < Pow10(w)
    ensures |s| == w && AllDigits(s) && DigitsValue(s) == n
  {
    if w == 0 then []
    else
      var s := Padded(n / 10, w - 1) + [DigitChar(n % 10)];
      assert s[..|s| - 1] == Padded(n / 10, w - 1);
      s
  }

  /** Fields a zero-padded rendering can show: a year of at most four digits
      and the other fields of at most two. */
  predicate Printable(t: Timestamp) {
    && 0 <= t.date.year < 10000 && 0 <= t.date.month < 100 && 0 <= t.date.day < 100
    && 0 <= t.hour < 100 && 0 <= t.minute < 100 && 0 <= t.second < 100
  }

  /** `strftime('%Y/%m/%d')`. */
  function FormatDate(t: Timestamp): string
    requires Printable(t)
  {
    JoinWith([Padded(t.date.year, 4), Padded(t.date.month, 2), Padded(t.date.day, 2)], '/')
  }

  /** `strftime('%H:%M:%S')`. */
  function FormatTime(t: Timestamp): string
    requires Printable(t)
  {
    JoinWith([Padded(t.hour, 2), Padded(t.minute, 2), Padded(t.second, 2)], ':')
  }

  lemma NoSepInDigits(s: string, sep: char)
    requires AllDigits(s) && !IsDigit(sep)
    ensures sep !in s
  {
  }

  lemma SplitThree(a: string, b: string, c: string, sep: char)
    requires AllDigits(a) && AllDigits(b) && AllDigits(c) && !IsDigit(sep)
    ensures SplitOn(JoinWith([a, b, c], sep), sep) == [a, b, c]
  {
    NoSepInDigits(a, sep);
    NoSepInDigits(b, sep);
    NoSepInDigits(c, sep);
    SplitOnJoin([a, b, c], sep);
  }

  /** Any tokens in the layout, padded or not ("2024/1/5" and "9:03:07" as
      much as "2024/01/05" and "09:03:07"), convert exactly when the numbers
      they spell form a valid timestamp, and then to that timestamp. */
  lemma ToDatetimeOfTokens(y: string, mo: string, d: string, h: string, mi: string, s: string)
    requires TokenShape(y, mo, d, h, mi, s)
    ensures ToDatetime(JoinWith([y, mo, d], '/'), JoinWith([h, mi, s], ':'))
         == if ValidTimestamp(Spelled(y, mo, d, h, mi, s)) then Some(Spelled(y, mo, d, h, mi, s)) else None
  {
    SplitThree(y, mo, d, '/');
    SplitThree(h, mi, s, ':');
  }

  /** A record sent on 5 January 2024 at 9:03:07, written without padding, converts. */
  lemma UnpaddedAccepted(date: string, time: string)
    requires date == "2024/1/5" && time == "9:03:07"
    ensures ToDatetime(date, time) == Some(Timestamp(Date(2024, 1, 5), 9, 3, 7))
  {
    var t := Timestamp(Date(2024, 1, 5), 9, 3, 7);
    JoinThree("2024", "1", "5", '/');
    JoinThree("9", "03", "07", ':');
    assert JoinWith(["2024", "1", "5"], '/') == date;
    assert JoinWith(["9", "03", "07"], ':') == time;
    UnpaddedSpelled();
    UnpaddedValid(t);
    ToDatetimeOfTokens("2024", "1", "5", "9", "03", "07");
  }

  lemma UnpaddedSpelled()
    ensures TokenShape("2024", "1", "5", "9", "03", "07")
    ensures Spelled("2024", "1", "5", "9", "03", "07") == Timestamp(Date(2024, 1, 5), 9, 3, 7)
  {
    assert "2024"[..3] == "202" && "202"[..2] == "20" && "20"[..1] == "2";
    assert "03"[..1] == "0" && "07"[..1] == "0";
    assert "2"[..0] == [] && "0"[..0] == [] && "1"[..0] == [] && "5"[..0] == [] && "9"[..0] == [];
  }

  lemma UnpaddedValid(t: Timestamp)
    requires t == Timestamp(Date(2024, 1, 5), 9, 3, 7)
    ensures ValidTimestamp(t)
  {
  }

  /** Tokens in the `%Y/%m/%d %H:%M:%S` layout convert exactly when the fields
      they show form a valid timestamp, and then to that timestamp. */
  lemma ToDatetimeOfFormat(t: Timestamp)
    requires Printable(t)
    ensures ToDatetime(FormatDate(t), FormatTime(t)) == if ValidTimestamp(t) then Some(t) else None
  {
    SplitThree(Padded(t.date.year, 4), Padded(t.date.month, 2), Padded(t.date.day, 2), '/');
    SplitThree(Padded(t.hour, 2), Padded(t.minute, 2), Padded(t.second, 2), ':');
  }

  /** The years of the datetime64[ns] range all have four digits. */
  lemma ValidYears(t: Timestamp)
    requires ValidTimestamp(t)
    ensures 1677 <= t.date.year <= 2262
  {
    if t.date.year < 1677 {
      DayNumberMonotone(t.date, Date(1677, 9, 21));
    } else if t.date.year > 2262 {
      DayNumberMonotone(Date(2262, 4, 11), t.date);
    }
  }

  /** Reading back a formatted valid timestamp gives the same timestamp. */
  lemma ToDatetimeRoundTrip(t: Timestamp)
    requires ValidTimestamp(t)
    ensures Printable(t) && ToDatetime(FormatDate(t), FormatTime(t)) == Some(t)
  {
    ValidYears(t);
    ToDatetimeOfFormat(t);
  }

  /** 2024 is a leap year, so 29 February converts. */
  lemma LeapDayAccepted(t: Timestamp)
    requires t == Timestamp(Date(2024, 2, 29), 8, 5, 9)
    ensures Printable(t) && ToDatetime(FormatDate(t), FormatTime(t)) == Some(t)
  {
    LeapDayValid(t);
    ToDatetimeRoundTrip(t);
  }

  lemma LeapDayValid(t: Timestamp)
    requires t == Timestamp(Date(2024, 2, 29), 8, 5, 9)
    ensures ValidTimestamp(t)
  {
  }

  /** 2023 is not a leap year: 29 February is NaT. */
  lemma NonLeapDayRejected(t: Timestamp)
    requires t == Timestamp(Date(2023, 2, 29), 8, 5, 9)
    ensures Printable(t) && ToDatetime(FormatDate(t), FormatTime(t)) == None
  {
    ToDatetimeOfFormat(t);
  }

  /** Minute 60 is NaT. */
  lemma MinuteSixtyRejected(t: Timestamp)
    requires t == Timestamp(Date(2024, 2, 29), 12, 60, 0)
    ensures Printable(t) && ToDatetime(FormatDate(t), FormatTime(t)) == None
  {
    ToDatetimeOfFormat(t);
  }

  // ---------------------------------------------------------------- cleaning

  /** A row of the cleaned DataFrame: `QQ` is a copy of `name`, and `date` is
      the calendar date of `time`. */
  datatype Row = Row(name: string, content: string, time: Timestamp)

  function DateOf(r: Row): Date {
    r.time.date
  }

  /** `df['time'].dt.weekday + 1`: 1 for Monday through 7 for Sunday. */
  function WeekdayOf(r: Row): (w: int)
    requires ValidDate(r.time.date)
    ensures 1 <= w <= 7
  {
    Weekday(DayNumber(r.time.date))
  }

  /** What one parsed record leaves after `dropna(subset=['time'])`. */
  function Survivor(r: RawRecord): (rows: seq<Row>)
    ensures |rows| <= 1
  {
    match ToDatetime(r.date, r.timeText)
    case Some(t) => [Row(r.name, r.content, t)]
    case None => []
  }

  /** The cleaned DataFrame, in the order of data_list. */
  function Cleaned(rs: seq<RawRecord>): (rows: seq<Row>) {
    FlatMap(Survivor, rs)
  }

  /** main.py:49-56 over the rows of the DataFrame. */
  method CleanRecords(rs: seq<RawRecord>) returns (df: seq<Row>)
    ensures df == Cleaned(rs)
  {
    df := [];
    var i := 0;
    while i < |rs|
      invariant 0 <= i <= |rs|
      invariant df == Cleaned(rs[..i])
    {
      FlatMapPrefix(Survivor, rs, i);
      var t := ToDatetime(rs[i].date, rs[i].timeText);
      if t.Some? {
        df := df + [Row(rs[i].name, rs[i].content, t.value)];
      }
      i := i + 1;
    }
    assert rs[..i] == rs;
  }

  predicate AllValid(rows: seq<Row>) {
    forall k :: 0 <= k < |rows| ==> ValidTimestamp(rows[k].time)
  }

  /** Every surviving row carries a valid timestamp. */
  lemma {:induction false} CleanedValid(rs: seq<RawRecord>)
    ensures AllValid(Cleaned(rs))
    decreases |rs|
  {
    if rs != [] {
      var rs', x := rs[..|rs| - 1], rs[|rs| - 1];
      assert rs == rs' + [x];
      CleanedValid(rs');
      FlatMapSnoc(Survivor, rs', x);
    }
  }

  /** Rows are dropped one record at a time, keeping the order: the result for
      a + b is the result for a followed by the result for b. */
  lemma CleanedAppend(a: seq<RawRecord>, b: seq<RawRecord>)
    ensures Cleaned(a + b) == Cleaned(a) + Cleaned(b)
  {
    FlatMapAppend(Survivor, a, b);
  }

  /** A record survives exactly when its date and time convert; the row keeps
      its name and content and carries the converted timestamp. */
  lemma CleanedOne(r: RawRecord)
    ensures Cleaned([r]) == (if ToDatetime(r.date, r.timeText).Some?
                             then [Row(r.name, r.content, ToDatetime(r.date, r.timeText).value)]
                             else [])
  {
    FlatMapOne(Survivor, r);
  }
}
