/** Calendar dates, times of day and timestamps in the strict ISO forms the
    W3C extended log format uses: `YYYY-MM-DD`, `HH:MM:SS` and
    `YYYY-MM-DD HH:MM:SS` (the `date`, `time` and `datetime` constructors
    of the value-type library). */
module Temporal {
  import opened Wrappers
  import opened Text

  datatype Date = Date(year: nat, month: nat, day: nat)
  datatype Time = Time(hour: nat, minute: nat, second: nat)
  datatype DateTime = DateTime(date: Date, time: Time)

  // ----------------------------------------------------------------------
  // Validity (the ranges Python's `datetime.date` and `datetime.time`
  // accept)
  // ----------------------------------------------------------------------

  predicate IsLeapYear(y: nat)
  {
    y % 4 == 0 && (y % 100 != 0 || y % 400 == 0)
  }

  function DaysInMonth(y: nat, m: nat): (n: nat)
    requires 1 <= m <= 12
    ensures 28 <= n <= 31
  {
    if m == 2 then (if IsLeapYear(y) then 29 else 28)
    else if m == 4 || m == 6 || m == 9 || m == 11 then 30
    else 31
  }

  predicate ValidDate(d: Date)
  {
    1 <= d.year <= 9999 && 1 <= d.month <= 12 && 1 <= d.day <= DaysInMonth(d.year, d.month)
  }

  /** 24-hour clock; no leap seconds. */
  predicate ValidTime(t: Time)
  {
    t.hour <= 23 && t.minute <= 59 && t.second <= 59
  }

  predicate ValidDateTime(dt: DateTime)
  {
    ValidDate(dt.date) && ValidTime(dt.time)
  }

  // ----------------------------------------------------------------------
  // Zero-padded decimal fields
  // ----------------------------------------------------------------------

  function Zeros(k: nat): (z: string)
    ensures |z| == k && forall i :: 0 <= i < k ==> z[i] == '0'
  {
    seq(k, i => '0')
  }

  /** `n` in decimal, left-padded with zeros to at least `w` digits
      (Python's `'%0*d' % (w, n)`). */
  function Pad(n: nat, w: nat): (s: string)
    ensures AllDigitsOf(s, 10)
    ensures |s| >= w
  {
    var d := Numeral(n, 10);
    if |d| >= w then d else Zeros(w - |d|) + d
  }

  lemma {:induction false} ValueOfZerosPrefix(z: string, t: string)
    requires AllDigitsOf(t, 10)
    requires forall i :: 0 <= i < |z| ==> z[i] == '0'
    ensures AllDigitsOf(z + t, 10) && ValueOf(z + t, 10) == ValueOf(t, 10)
    decreases |t|
  {
    if |t| == 0 {
      assert z + t == z;
      ValueOfZeros(z);
    } else {
      var t' := t[..|t| - 1];
      ValueOfZerosPrefix(z, t');
      assert (z + t)[..|z + t| - 1] == z + t';
    }
  }

  lemma {:induction false} ValueOfZeros(z: string)
    requires forall i :: 0 <= i < |z| ==> z[i] == '0'
    ensures AllDigitsOf(z, 10) && ValueOf(z, 10) == 0
  {
    if |z| > 0 {
      ValueOfZeros(z[..|z| - 1]);
    }
  }

  lemma ValueOfPad(n: nat, w: nat)
    ensures ValueOf(Pad(n, w), 10) == n
  {
    var d := Numeral(n, 10);
    ValueOfNumeral(n, 10);
    if |d| < w {
      ValueOfZerosPrefix(Zeros(w - |d|), d);
    }
  }

  /** A digit string of exactly `w` digits is the padded numeral of its own
      value. */
  lemma {:induction false} PadOfValue(x: string, w: nat)
    requires |x| == w >= 1 && AllDigitsOf(x, 10)
    ensures Pad(ValueOf(x, 10), w) == x
    decreases w
  {
    DecimalDigits(x);
    assert NoUpper(x);
    if x[0] != '0' || w == 1 {
      NumeralOfValue(x, 10);
    } else {
      var y := x[1..];
      assert x == "0" + y;
      assert ValueOf(x, 10) == ValueOf(y, 10) by { ValueOfZerosPrefix("0", y); }
      PadOfValue(y, w - 1);
      PadOneMore(ValueOf(y, 10), w - 1);
    }
  }

  /** Widening a padded numeral by one place adds one leading zero. */
  lemma PadOneMore(v: nat, w: nat)
    requires w >= 1 && |Pad(v, w)| == w
    ensures Pad(v, w + 1) == "0" + Pad(v, w)
  {
    var d := Numeral(v, 10);
    if |d| >= w {
      assert Pad(v, w + 1) == Zeros(1) + d;
    } else {
      assert Zeros(w + 1 - |d|) == "0" + Zeros(w - |d|);
    }
  }

  // ----------------------------------------------------------------------
  // Text forms
  // ----------------------------------------------------------------------

  /** Python's `date.isoformat()`. */
  function FormatDate(d: Date): string
  {
    Pad(d.year, 4) + "-" + Pad(d.month, 2) + "-" + Pad(d.day, 2)
  }

  /** Python's `time.isoformat()` for a time without microseconds. */
  function FormatTime(t: Time): string
  {
    Pad(t.hour, 2) + ":" + Pad(t.minute, 2) + ":" + Pad(t.second, 2)
  }

  function FormatDateTime(dt: DateTime): string
  {
    FormatDate(dt.date) + " " + FormatTime(dt.time)
  }

  predicate DigitField(s: string, i: nat, n: nat)
  {
    i + n <= |s| && AllDigitsOf(s[i..i + n], 10)
  }

  function FieldValue(s: string, i: nat, n: nat): nat
    requires DigitField(s, i, n)
  {
    ValueOf(s[i..i + n], 10)
  }

  // ----------------------------------------------------------------------
  // Parsers
  // ----------------------------------------------------------------------

  /** The `date` constructor: exactly `YYYY-MM-DD` naming a real calendar
      day, or `None` (a `ValueError`). */
  function ParseDate(s: string): (r: Option<Date>)
    ensures r.Some? ==> ValidDate(r.value)
  {
    if |s| == 10 && s[4] == '-' && s[7] == '-'
       && DigitField(s, 0, 4) && DigitField(s, 5, 2) && DigitField(s, 8, 2)
    then
      var d := Date(FieldValue(s, 0, 4), FieldValue(s, 5, 2), FieldValue(s, 8, 2));
      if ValidDate(d) then Some(d) else None
    else None
  }

  /** The `time` constructor: exactly `HH:MM:SS` on a 24-hour clock. */
  function ParseTime(s: string): (r: Option<Time>)
    ensures r.Some? ==> ValidTime(r.value)
  {
    if |s| == 8 && s[2] == ':' && s[5] == ':'
       && DigitField(s, 0, 2) && DigitField(s, 3, 2) && DigitField(s, 6, 2)
    then
      var t := Time(FieldValue(s, 0, 2), FieldValue(s, 3, 2), FieldValue(s, 6, 2));
      if ValidTime(t) then Some(t) else None
    else None
  }

  /** The `datetime` constructor: exactly `YYYY-MM-DD HH:MM:SS`. */
  function ParseDateTime(s: string): (r: Option<DateTime>)
    ensures r.Some? ==> ValidDateTime(r.value)
  {
    if |s| == 19 && s[10] == ' ' then
      match (ParseDate(s[..10]), ParseTime(s[11..]))
      case (Some(d), Some(t)) => Some(DateTime(d, t))
      case _ => None
    else None
  }

  // ----------------------------------------------------------------------
  // The parsers accept exactly the canonical text of valid values
  // ----------------------------------------------------------------------

  lemma ParseDateExact(s: string)
    requires ParseDate(s).Some?
    ensures s == FormatDate(ParseDate(s).value)
  {
    var d := ParseDate(s).value;
    PadOfValue(s[0..4], 4);
    PadOfValue(s[5..7], 2);
    PadOfValue(s[8..10], 2);
    assert s == s[0..4] + "-" + s[5..7] + "-" + s[8..10];
  }

  lemma FormatDateParses(d: Date)
    requires ValidDate(d)
    ensures ParseDate(FormatDate(d)) == Some(d)
  {
    var y, m, dd := Pad(d.year, 4), Pad(d.month, 2), Pad(d.day, 2);
    PadField(d.year, 4);
    PadField(d.month, 2);
    PadField(d.day, 2);
    var s := FormatDate(d);
    assert s[0..4] == y && s[5..7] == m && s[8..10] == dd by { Fields3(y, m, dd, '-'); }
  }

  /** A value below `10^w` pads to exactly `w` digits that read back as it. */
  lemma PadField(n: nat, w: nat)
    requires 1 <= w && n < Pow(10, w)
    ensures |Pad(n, w)| == w && ValueOf(Pad(n, w), 10) == n
  {
    NumeralLength(n, 10, w);
    ValueOfPad(n, w);
  }

  /** Where the three fields of `a sep b sep c` sit. */
  lemma Fields3(a: string, b: string, c: string, sep: char)
    ensures var s := a + [sep] + b + [sep] + c;
      && s[..|a|] == a && s[|a| + 1..|a| + 1 + |b|] == b && s[|a| + |b| + 2..] == c
  {
    var s := a + [sep] + b + [sep] + c;
    assert s[..|a|] == a;
    assert s[|a| + 1..|a| + 1 + |b|] == b;
  }

  /** `ParseDate(s) == Some(d)` exactly when `d` is a valid date and `s`
      is its ISO text. */
  lemma DateTextIff(s: string, d: Date)
    ensures ParseDate(s) == Some(d) <==> ValidDate(d) && s == FormatDate(d)
  {
    if ParseDate(s) == Some(d) {
      ParseDateExact(s);
    }
    if ValidDate(d) && s == FormatDate(d) {
      FormatDateParses(d);
    }
  }

  lemma ParseTimeExact(s: string)
    requires ParseTime(s).Some?
    ensures s == FormatTime(ParseTime(s).value)
  {
    PadOfValue(s[0..2], 2);
    PadOfValue(s[3..5], 2);
    PadOfValue(s[6..8], 2);
    assert s == s[0..2] + ":" + s[3..5] + ":" + s[6..8];
  }

  lemma FormatTimeParses(t: Time)
    requires ValidTime(t)
    ensures ParseTime(FormatTime(t)) == Some(t)
  {
    var h, m, sec := Pad(t.hour, 2), Pad(t.minute, 2), Pad(t.second, 2);
    PadField(t.hour, 2);
    PadField(t.minute, 2);
    PadField(t.second, 2);
    var s := FormatTime(t);
    assert s[0..2] == h && s[3..5] == m && s[6..8] == sec by { Fields3(h, m, sec, ':'); }
  }

  /** `ParseTime(s) == Some(t)` exactly when `t` is a valid time of day and
      `s` is its `HH:MM:SS` text. */
  lemma TimeTextIff(s: string, t: Time)
    ensures ParseTime(s) == Some(t) <==> ValidTime(t) && s == FormatTime(t)
  {
    if ParseTime(s) == Some(t) {
      ParseTimeExact(s);
    }
    if ValidTime(t) && s == FormatTime(t) {
      FormatTimeParses(t);
    }
  }

  /** `ParseDateTime(s) == Some(dt)` exactly when `dt` is valid and `s` is
      its `YYYY-MM-DD HH:MM:SS` text. */
  lemma DateTimeTextIff(s: string, dt: DateTime)
    ensures ParseDateTime(s) == Some(dt) <==> ValidDateTime(dt) && s == FormatDateTime(dt)
  {
    if ParseDateTime(s) == Some(dt) {
      DateTimeParsedExact(s);
    }
    if ValidDateTime(dt) && s == FormatDateTime(dt) {
      DateTimeFormatParses(dt);
    }
  }

  lemma DateTimeParsedExact(s: string)
    requires ParseDateTime(s).Some?
    ensures s == FormatDateTime(ParseDateTime(s).value)
  {
    var d, t := s[..10], s[11..];
    assert ParseDate(d).Some? && ParseTime(t).Some?;
    ParseDateExact(d);
    ParseTimeExact(t);
    assert s == d + " " + t;
  }

  lemma DateTimeFormatParses(dt: DateTime)
    requires ValidDateTime(dt)
    ensures ParseDateTime(FormatDateTime(dt)) == Some(dt)
  {
    var a, b := FormatDate(dt.date), FormatTime(dt.time);
    assert |a| == 10 by { DateTextIff(a, dt.date); }
    assert |b| == 8 by { TimeTextIff(b, dt.time); }
    SpaceJoined(a, b);
    assert ParseDate(a) == Some(dt.date) by { FormatDateParses(dt.date); }
    assert ParseTime(b) == Some(dt.time) by { FormatTimeParses(dt.time); }
  }

  /** Cutting the date-and-time text at the separating space gives back both halves. */
  lemma SpaceJoined(a: string, b: string)
    requires |a| == 10 && |b| == 8
    ensures var s := a + " " + b; |s| == 19 && s[10] == ' ' && s[..10] == a && s[11..] == b
  {
  }

  lemma TwoDigitsAt(s: string, i: nat)
    requires i + 2 <= |s| && IsDigit(s[i]) && IsDigit(s[i + 1])
    ensures DigitField(s, i, 2)
    ensures FieldValue(s, i, 2) == CharValue(s[i]) * 10 + CharValue(s[i + 1])
  {
    var t := s[i..i + 2];
    assert t[..1] == [s[i]] && t[1] == s[i + 1];
    assert t[..1][..0] == [];
    assert ValueOf(t[..1], 10) == CharValue(s[i]);
  }

  lemma FourDigitsAt(s: string, i: nat)
    requires i + 4 <= |s| && forall j :: i <= j < i + 4 ==> IsDigit(s[j])
    ensures DigitField(s, i, 4) && DigitField(s, i, 2) && DigitField(s, i + 2, 2)
    ensures FieldValue(s, i, 4) == FieldValue(s, i, 2) * 100 + FieldValue(s, i + 2, 2)
  {
    var t := s[i..i + 4];
    TwoDigitsAt(s, i);
    TwoDigitsAt(s, i + 2);
    assert t[..3][..2] == s[i..i + 2];
    assert t[..3] == s[i..i + 3];
    assert ValueOf(t[..3], 10) == FieldValue(s, i, 2) * 10 + CharValue(s[i + 2]);
  }

  lemma DateDigits(s: string)
    requires |s| == 10 && forall j :: 0 <= j < 10 && j != 4 && j != 7 ==> IsDigit(s[j])
    ensures DigitField(s, 0, 4) && DigitField(s, 5, 2) && DigitField(s, 8, 2)
    ensures FieldValue(s, 0, 4) == ((CharValue(s[0]) * 10 + CharValue(s[1])) * 10 + CharValue(s[2])) * 10 + CharValue(s[3])
    ensures FieldValue(s, 5, 2) == CharValue(s[5]) * 10 + CharValue(s[6])
    ensures FieldValue(s, 8, 2) == CharValue(s[8]) * 10 + CharValue(s[9])
  {
    FourDigitsAt(s, 0);
    TwoDigitsAt(s, 0);
    TwoDigitsAt(s, 2);
    TwoDigitsAt(s, 5);
    TwoDigitsAt(s, 8);
  }

  lemma TimeDigits(s: string)
    requires |s| == 8 && forall j :: 0 <= j < 8 && j != 2 && j != 5 ==> IsDigit(s[j])
    ensures DigitField(s, 0, 2) && DigitField(s, 3, 2) && DigitField(s, 6, 2)
    ensures FieldValue(s, 0, 2) == CharValue(s[0]) * 10 + CharValue(s[1])
    ensures FieldValue(s, 3, 2) == CharValue(s[3]) * 10 + CharValue(s[4])
    ensures FieldValue(s, 6, 2) == CharValue(s[6]) * 10 + CharValue(s[7])
  {
    TwoDigitsAt(s, 0);
    TwoDigitsAt(s, 3);
    TwoDigitsAt(s, 6);
  }

  /** The dates the value-type tests pin down. */
  lemma DateExamples()
    ensures ParseDate("2000-01-01") == Some(Date(2000, 1, 1))
    ensures ParseDate("1986-02-28") == Some(Date(1986, 2, 28))
    ensures ParseDate("2000-01-32").None?
    ensures ParseDate("1 Jan 2001").None?
    ensures ParseDate("abc").None?
  {
    DateDigits("2000-01-01");
    DateDigits("1986-02-28");
    DateDigits("2000-01-32");
  }

  /** The times the value-type tests pin down. */
  lemma TimeExamples()
    ensures ParseTime("12:34:56") == Some(Time(12, 34, 56))
    ensures ParseTime("00:00:00") == Some(Time(0, 0, 0))
    ensures ParseTime("25:00:30").None?
    ensures ParseTime("1:30:00 PM").None?
    ensures ParseTime("abc").None?
  {
    TimeDigits("12:34:56");
    TimeDigits("00:00:00");
    TimeDigits("25:00:30");
  }

  /** The timestamp the value-type tests accept. */
  lemma DateTimeExample()
    ensures ParseDateTime("2000-01-01 12:34:56") == Some(DateTime(Date(2000, 1, 1), Time(12, 34, 56)))
  {
    var e := "2000-01-01 12:34:56";
    assert e[..10] == "2000-01-01" && e[11..] == "12:34:56";
    assert ParseDate(e[..10]) == Some(Date(2000, 1, 1)) by { DateDigits(e[..10]); }
    assert ParseTime(e[11..]) == Some(Time(12, 34, 56)) by { TimeDigits(e[11..]); }
  }

  /** The timestamps the value-type tests reject. */
  lemma DateTimeRejects()
    ensures ParseDateTime("2000-01-32 12:34:56").None?
    ensures ParseDateTime("2000-01-30 12:34:56 PM").None?
    ensures ParseDateTime("foo").None?
  {
    var f := "2000-01-32 12:34:56";
    assert f[..10] == "2000-01-32";
    assert ParseDate(f[..10]).None? by { DateDigits(f[..10]); }
  }
}
