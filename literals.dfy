/** The literal parsers that turn one token of a W3C log line into a value
    (`int_parse`, `fixed_parse`, `date_parse`, `time_parse`, `string_parse`,
    `name_parse`, `address_parse`, `url_parse`), and `sanitize_name`, which
    turns a `#Fields` identifier into an attribute name. */
module Literals {
  import opened Wrappers
  import opened Text
  import opened Temporal
  import opened Hostnames
  import opened Addresses
  import opened Urls

  /** What a parser makes of a token: `None` in Python for the placeholder
      `-`, a value, or a `ValueError`. */
  datatype Parsed<T> = Null | Value(value: T) | Invalid

  /** The token `-`: a field with no value. */
  predicate IsPlaceholder(t: string) { |t| == 1 && t[0] == '-' }

  /** `None` as `Invalid`, `Some(v)` as `Value(v)`. */
  function Lift<T>(o: Option<T>): (r: Parsed<T>)
    ensures !r.Null?
    ensures r.Value? <==> o.Some?
    ensures r.Value? ==> r.value == o.value
  {
    if o.Some? then Value(o.value) else Invalid
  }

  // ----------------------------------------------------------------------
  // int_parse
  // ----------------------------------------------------------------------

  predicate IsNumber(s: string) { |s| > 0 && AllDigitsOf(s, 10) }

  /** An optional `-`, then one or more decimal digits. */
  function IntParse(t: string): (r: Parsed<int>)
    ensures r.Null? <==> IsPlaceholder(t)
  {
    if IsPlaceholder(t) then Null
    else if |t| > 0 && t[0] == '-' then
      if IsNumber(t[1..]) then Value(-(ValueOf(t[1..], 10) as int)) else Invalid
    else if IsNumber(t) then Value(ValueOf(t, 10) as int)
    else Invalid
  }

  /** Python's `str(n)`. */
  function FormatInt(n: int): string
  {
    if n < 0 then "-" + Numeral(-n, 10) else Numeral(n, 10)
  }

  /** Every integer's text reads back as that integer. */
  lemma IntRoundTrip(n: int)
    ensures IntParse(FormatInt(n)) == Value(n)
  {
    if n < 0 {
      var d := Numeral(-n, 10);
      ValueOfNumeral(-n, 10);
      assert IsNumber(d);
      IntNegation(d);
    } else {
      var d := Numeral(n, 10);
      ValueOfNumeral(n, 10);
      assert d[0] != '-' && IsNumber(d);
    }
  }

  /** `-` followed by the digits of a natural reads as that natural's
      negation. */
  lemma IntNegation(d: string)
    requires IsNumber(d)
    ensures IntParse("-" + d) == Value(-(ValueOf(d, 10) as int))
  {
    assert ("-" + d)[1..] == d;
  }

  lemma IntExamples()
    ensures IntParse("-") == Null
    ensures IntParse("0") == Value(0)
    ensures IntParse("-1") == Value(-1)
    ensures IntParse("101") == Value(101)
    ensures IntParse("abc") == Invalid
  {
    IntRoundTrip(0);
    IntRoundTrip(-1);
    IntRoundTrip(101);
    assert Numeral(101, 10) == "101";
    assert !IsDigitOf("abc"[0], 10);
  }

  // ----------------------------------------------------------------------
  // fixed_parse
  // ----------------------------------------------------------------------

  /** The decimal `n.d`, where `d` has `k` digits: `n + d / 10^k`. */
  function Decimal(n: nat, d: nat, k: nat): real
  {
    (n as real) + (d as real) / (Pow(10, k) as real)
  }

  /** The value of the digits `ip` before the point and `fp` after it. */
  function DecimalValue(ip: string, fp: string): real
    requires AllDigitsOf(ip, 10) && AllDigitsOf(fp, 10)
  {
    Decimal(ValueOf(ip, 10), ValueOf(fp, 10), |fp|)
  }

  /** The unsigned part of a fixed-point token: digits, then optionally a
      point and more digits. */
  function UnsignedFixed(b: string): (r: Option<real>)
    ensures r.Some? ==> r.value >= 0.0
  {
    var k := Find(b, '.');
    var ip := b[..k];
    var fp := if k < |b| then b[k + 1..] else "";
    if IsNumber(ip) && AllDigitsOf(fp, 10) then Some(DecimalValue(ip, fp)) else None
  }

  /** An optional `-`, digits, an optional `.` and optional digits, read
      as an exact decimal. */
  function FixedParse(t: string): (r: Parsed<real>)
    ensures r.Null? <==> IsPlaceholder(t)
  {
    if IsPlaceholder(t) then Null
    else if |t| > 0 && t[0] == '-' then
      var u := UnsignedFixed(t[1..]);
      if u.Some? then Value(-u.value) else Invalid
    else Lift(UnsignedFixed(t))
  }

  /** Every integer token is a fixed-point token of the same value. */
  lemma FixedOfInt(t: string, n: int)
    requires IntParse(t) == Value(n)
    ensures FixedParse(t) == Value(n as real)
  {
    if t[0] == '-' {
      UnsignedOfNumber(t[1..]);
    } else {
      UnsignedOfNumber(t);
    }
  }

  /** Digits hold no point. */
  lemma NoPoint(d: string)
    requires AllDigitsOf(d, 10)
    ensures '.' !in d
  {
    forall i | 0 <= i < |d|
      ensures d[i] != '.'
    {
      assert IsDigitOf(d[i], 10);
    }
  }

  lemma UnsignedOfNumber(d: string)
    requires IsNumber(d)
    ensures UnsignedFixed(d) == Some(ValueOf(d, 10) as real)
  {
    NoPoint(d);
    assert d[..|d|] == d;
    WholeValue(d);
  }

  lemma WholeValue(a: string)
    requires AllDigitsOf(a, 10)
    ensures DecimalValue(a, "") == ValueOf(a, 10) as real
  {
    assert ValueOf("", 10) == 0 && Pow(10, 0) == 1;
    assert Decimal(ValueOf(a, 10), 0, 0) == ValueOf(a, 10) as real;
  }

  /** Digits, a point and digits read as the decimal they spell. */
  lemma UnsignedOfPointed(a: string, b: string)
    requires IsNumber(a) && AllDigitsOf(b, 10)
    ensures UnsignedFixed(a + "." + b) == Some(DecimalValue(a, b))
  {
    NoPoint(a);
    var t := a + "." + b;
    assert t == a + ("." + b);
    FindAppend(a, "." + b, '.');
    assert t[..|a|] == a;
    assert t[|a| + 1..] == b;
  }

  /** A token that does not start with `-` is read unsigned. */
  lemma FixedOfUnsigned(t: string)
    requires |t| > 0 && t[0] != '-'
    ensures FixedParse(t) == Lift(UnsignedFixed(t))
  {
  }

  /** `q.r` with `k >= 1` fractional digits reads back as
      `q + r / 10^k`. */
  lemma FixedRoundTrip(q: nat, r: nat, k: nat)
    requires 1 <= k && r < Pow(10, k)
    ensures FixedParse(Numeral(q, 10) + "." + Pad(r, k)) == Value(Decimal(q, r, k))
  {
    var a, b := Numeral(q, 10), Pad(r, k);
    ValueOfNumeral(q, 10);
    ValueOfPad(r, k);
    NumeralLength(r, 10, k);
    assert |b| == k;
    assert IsDigitOf(a[0], 10);
    FixedOfPointed(a, b);
  }

  lemma FixedOfPointed(a: string, b: string)
    requires IsNumber(a) && a[0] != '-' && AllDigitsOf(b, 10)
    ensures FixedParse(a + "." + b) == Value(DecimalValue(a, b))
  {
    UnsignedOfPointed(a, b);
    assert (a + "." + b)[0] == a[0];
    FixedOfUnsigned(a + "." + b);
  }

  /** A leading `-` negates. */
  lemma FixedNegative(t: string, v: real)
    requires |t| > 0 && t[0] != '-' && FixedParse(t) == Value(v)
    ensures FixedParse("-" + t) == Value(-v)
  {
    assert ("-" + t)[1..] == t;
  }

  /** A trailing point changes nothing: `0` and `0.` are one number. */
  lemma TrailingPoint(b: string)
    requires IsNumber(b)
    ensures UnsignedFixed(b + ".") == UnsignedFixed(b)
  {
    UnsignedOfNumber(b);
    UnsignedOfPointed(b, "");
    WholeValue(b);
    assert b + "." + "" == b + ".";
  }

  /** Nor does a trailing zero after the point: `0.` and `0.0` are one
      number. */
  lemma TrailingZero(a: string, b: string)
    requires IsNumber(a) && AllDigitsOf(b, 10)
    ensures UnsignedFixed(a + "." + b + "0") == UnsignedFixed(a + "." + b)
  {
    var z := b + "0";
    assert a + "." + b + "0" == a + "." + z;
    UnsignedOfPointed(a, b);
    UnsignedOfPointed(a, z);
    DecimalZero(a, b);
  }

  lemma DecimalZero(a: string, b: string)
    requires AllDigitsOf(a, 10) && AllDigitsOf(b, 10)
    ensures DecimalValue(a, b + "0") == DecimalValue(a, b)
  {
    var z := b + "0";
    assert z[..|z| - 1] == b;
    var v, p := ValueOf(b, 10), Pow(10, |b|);
    assert ValueOf(z, 10) == v * 10;
    assert Pow(10, |z|) == 10 * p;
    ScaleByTen(v, p);
  }

  lemma ScaleByTen(v: nat, p: nat)
    requires p >= 1
    ensures ((v * 10) as real) / ((10 * p) as real) == (v as real) / (p as real)
  {
  }

  /** A token that starts with neither a digit nor `-` is no number. */
  lemma NotNumeric(t: string)
    requires |t| > 0 && t[0] != '-' && !IsDigitOf(t[0], 10)
    ensures IntParse(t) == Invalid && FixedParse(t) == Invalid
  {
    var k := Find(t, '.');
    if k > 0 {
      assert t[..k][0] == t[0];
    }
  }

  lemma ZeroText()
    ensures IsNumber("0") && ValueOf("0", 10) == 0
  {
    assert Numeral(0, 10) == "0";
    ValueOfNumeral(0, 10);
  }

  lemma FixedZeroExample()
    ensures FixedParse("0") == Value(0.0)
  {
    ZeroText();
    UnsignedOfNumber("0");
  }

  lemma FixedPointExample()
    ensures FixedParse("0.") == Value(0.0)
  {
    assert "0" + "." == "0.";
    ZeroText();
    TrailingPoint("0");
    UnsignedOfNumber("0");
  }

  lemma FixedPointZeroExample()
    ensures FixedParse("0.0") == Value(0.0)
  {
    assert "0" + "." + "0" == "0.0";
    ZeroText();
    FixedOfPointed("0", "0");
    assert Decimal(0, 0, 1) == 0.0;
  }

  lemma FixedNegativeExample()
    ensures FixedParse("-101.5") == Value(-101.5)
  {
    assert "-" + ("101" + "." + "5") == "-101.5";
    assert Numeral(101, 10) == "101" && Pad(5, 1) == "5";
    FixedRoundTrip(101, 5, 1);
    assert Decimal(101, 5, 1) == 101.5;
    FixedNegative("101" + "." + "5", 101.5);
  }

  lemma FixedRejectExample()
    ensures FixedParse("-") == Null && FixedParse("abc") == Invalid
  {
    NotNumeric("abc");
  }

  // ----------------------------------------------------------------------
  // date_parse, time_parse
  // ----------------------------------------------------------------------

  function DateParse(t: string): (r: Parsed<Date>)
    ensures r.Null? <==> IsPlaceholder(t)
    ensures r.Value? ==> ValidDate(r.value) && FormatDate(r.value) == t
  {
    if IsPlaceholder(t) then Null
    else
      var d := ParseDate(t);
      if d.Some? then
        ParseDateExact(t);
        Value(d.value)
      else Invalid
  }

  function TimeParse(t: string): (r: Parsed<Time>)
    ensures r.Null? <==> IsPlaceholder(t)
    ensures r.Value? ==> ValidTime(r.value) && FormatTime(r.value) == t
  {
    if IsPlaceholder(t) then Null
    else
      var v := ParseTime(t);
      if v.Some? then
        ParseTimeExact(t);
        Value(v.value)
      else Invalid
  }

  /** A token other than `-` is read by the date grammar alone. */
  lemma DateParseOf(t: string)
    requires !IsPlaceholder(t)
    ensures DateParse(t) == Lift(ParseDate(t))
  {
  }

  lemma TimeParseOf(t: string)
    requires !IsPlaceholder(t)
    ensures TimeParse(t) == Lift(ParseTime(t))
  {
  }

  lemma DateLiteralExamples()
    ensures DateParse("-") == Null
    ensures DateParse("2000-01-01") == Value(Date(2000, 1, 1))
    ensures DateParse("1986-02-28") == Value(Date(1986, 2, 28))
    ensures DateParse("1 Jan 2001") == Invalid && DateParse("2000-01-32") == Invalid && DateParse("abc") == Invalid
  {
    DateExamples();
    DateParseOf("2000-01-01");
    DateParseOf("1986-02-28");
    DateParseOf("1 Jan 2001");
    DateParseOf("2000-01-32");
    DateParseOf("abc");
  }

  lemma TimeLiteralExamples()
    ensures TimeParse("-") == Null
    ensures TimeParse("12:34:56") == Value(Time(12, 34, 56))
    ensures TimeParse("00:00:00") == Value(Time(0, 0, 0))
    ensures TimeParse("1:30:00 PM") == Invalid && TimeParse("25:00:30") == Invalid && TimeParse("abc") == Invalid
  {
    TimeExamples();
    TimeParseOf("12:34:56");
    TimeParseOf("00:00:00");
    TimeParseOf("1:30:00 PM");
    TimeParseOf("25:00:30");
    TimeParseOf("abc");
  }

  // ----------------------------------------------------------------------
  // string_parse
  // ----------------------------------------------------------------------

  /** `%XX` and `+` decoding, as `urllib.parse.unquote_plus` does for
      code points below 0x80; a `%` not followed by two hex digits stays. */
  function Decode(s: string): string
    decreases |s|
  {
    if |s| == 0 then ""
    else if s[0] == '+' then " " + Decode(s[1..])
    else if s[0] == '%' && |s| >= 3 && IsDigitOf(s[1], 16) && IsDigitOf(s[2], 16) then
      [(CharValue(s[1]) * 16 + CharValue(s[2])) as char] + Decode(s[3..])
    else [s[0]] + Decode(s[1..])
  }

  /** One character as `urllib.parse.quote_plus` writes it, for the three
      characters `Decode` treats specially. */
  function EncodeChar(c: char): string
  {
    if c == ' ' then "+" else if c == '+' then "%2B" else if c == '%' then "%25" else [c]
  }

  function Encode(s: string): string
  {
    if |s| == 0 then "" else EncodeChar(s[0]) + Encode(s[1..])
  }

  lemma {:induction false} EncodeAppend(a: string, b: string)
    ensures Encode(a + b) == Encode(a) + Encode(b)
  {
    if |a| > 0 {
      assert (a + b)[1..] == a[1..] + b;
      EncodeAppend(a[1..], b);
    } else {
      assert a + b == b;
    }
  }

  /** Decoding undoes encoding. */
  lemma {:induction false} DecodeEncode(s: string)
    ensures Decode(Encode(s)) == s
  {
    if |s| > 0 {
      assert Decode(Encode(s)) == [s[0]] + Decode(Encode(s[1..])) by {
        DecodeEncodeChar(s[0], Encode(s[1..]));
      }
      DecodeEncode(s[1..]);
      assert s == [s[0]] + s[1..];
    }
  }

  /** Decoding one encoded character gives it back and leaves the rest. */
  lemma DecodeEncodeChar(c: char, r: string)
    ensures Decode(EncodeChar(c) + r) == [c] + Decode(r)
  {
    var e := EncodeChar(c) + r;
    if c == ' ' {
      assert e[0] == '+' && e[1..] == r;
    } else if c == '+' {
      assert e[0] == '%' && e[1] == '2' && e[2] == 'B' && e[3..] == r;
    } else if c == '%' {
      assert e[0] == '%' && e[1] == '2' && e[2] == '5' && e[3..] == r;
    } else {
      assert e[0] == c && e[1..] == r;
    }
  }

  /** `s.replace('""', '"')`, left to right. */
  function Undouble(s: string): string
    decreases |s|
  {
    if |s| >= 2 && s[0] == '"' && s[1] == '"' then "\"" + Undouble(s[2..])
    else if |s| == 0 then ""
    else [s[0]] + Undouble(s[1..])
  }

  /** `s.replace('"', '""')`. */
  function Double(s: string): string
  {
    if |s| == 0 then "" else (if s[0] == '"' then "\"\"" else [s[0]]) + Double(s[1..])
  }

  /** Collapsing doubled quotes undoes doubling them. */
  lemma {:induction false} UndoubleDouble(s: string)
    ensures Undouble(Double(s)) == s
  {
    if |s| > 0 {
      UndoubleDouble(s[1..]);
      var r := Double(s[1..]);
      if s[0] == '"' {
        var e := "\"\"" + r;
        assert e[2..] == r;
      } else {
        var e := [s[0]] + r;
        assert e[1..] == r;
      }
      assert s == [s[0]] + s[1..];
    }
  }

  /** A value wrapped in one pair of double quotes loses them, and the
      doubled quotes inside collapse. */
  function Unquote(d: string): string
  {
    if |d| >= 2 && d[0] == '"' && d[|d| - 1] == '"' then Undouble(d[1..|d| - 1]) else d
  }

  function StringParse(t: string): (r: Parsed<string>)
    ensures r.Null? <==> IsPlaceholder(t)
    ensures !r.Invalid?
  {
    if IsPlaceholder(t) then Null else Value(Unquote(Decode(t)))
  }

  /** How a string value is written: quoted, with quotes doubled and the
      special characters encoded. */
  function FormatString(v: string): string
  {
    Encode("\"" + Double(v) + "\"")
  }

  /** Every string survives being written and read back. */
  lemma StringRoundTrip(v: string)
    ensures StringParse(FormatString(v)) == Value(v)
  {
    var q := "\"" + Double(v) + "\"";
    EncodeAppend("\"" + Double(v), "\"");
    EncodeAppend("\"", Double(v));
    var e := FormatString(v);
    assert Encode("\"") == "\"";
    assert e[0] == '"' && |e| >= 2;
    assert !IsPlaceholder(e);
    DecodeEncode(q);
    assert q[1..|q| - 1] == Double(v);
    UndoubleDouble(v);
  }

  lemma DecodePlus(r: string)
    ensures Decode("+" + r) == " " + Decode(r)
  {
    assert ("+" + r)[1..] == r;
  }

  lemma DecodeEscape(x: char, y: char, r: string)
    requires IsDigitOf(x, 16) && IsDigitOf(y, 16)
    ensures Decode("%" + [x, y] + r) == [(CharValue(x) * 16 + CharValue(y)) as char] + Decode(r)
  {
    assert ("%" + [x, y] + r)[3..] == r;
  }

  /** Text without `+` or `%` decodes to itself. */
  lemma {:induction false} DecodePlain(s: string, r: string)
    requires '+' !in s && '%' !in s
    ensures Decode(s + r) == s + Decode(r)
  {
    if |s| > 0 {
      assert (s + r)[1..] == s[1..] + r;
      DecodePlain(s[1..], r);
      assert s == [s[0]] + s[1..];
    } else {
      assert s + r == r;
    }
  }

  /** Text without `+` or `%` decodes to itself. */
  lemma DecodePlainText(s: string)
    requires '+' !in s && '%' !in s
    ensures Decode(s) == s
  {
    DecodePlain(s, "");
    assert s + "" == s;
  }

  /** Text without a quote collapses to itself. */
  lemma {:induction false} UndoublePlain(s: string)
    requires '"' !in s
    ensures Undouble(s) == s
  {
    if |s| > 0 {
      UndoublePlain(s[1..]);
      assert s == [s[0]] + s[1..];
    }
  }

  /** A token in quotes with no quote or escape inside is its contents. */
  lemma QuotedPlain(s: string)
    requires '"' !in s && '+' !in s && '%' !in s
    ensures StringParse("\"" + s + "\"") == Value(s)
  {
    var t := "\"" + s + "\"";
    DecodePlainText(t);
    assert t[1..|t| - 1] == s;
    UndoublePlain(s);
  }

  lemma StringPlaceholderExample()
    ensures StringParse("-") == Null
  {
  }

  lemma StringPlainExample()
    ensures StringParse("foo") == Value("foo")
  {
    DecodePlainText("foo");
  }

  lemma StringPlusExample()
    ensures StringParse("foo+bar") == Value("foo bar")
  {
    assert "foo+bar" == "foo" + ("+" + "bar");
    assert "foo" + (" " + "bar") == "foo bar";
    DecodePlainText("bar");
    DecodePlus("bar");
    DecodePlain("foo", "+" + "bar");
  }

  lemma StringEscapeExample()
    ensures StringParse("%28foo+bar%29") == Value("(foo bar)")
  {
    var tail := "%" + ['2', '9'] + "";
    assert "%28foo+bar%29" == "%" + ['2', '8'] + ("foo" + ("+" + ("bar" + tail)));
    assert "(foo bar)" == ['('] + ("foo" + (" " + ("bar" + [')'])));
    DecodeEscape('2', '9', "");
    assert Decode(tail) == [')'];
    DecodePlain("bar", tail);
    DecodePlus("bar" + tail);
    DecodePlain("foo", "+" + ("bar" + tail));
    DecodeEscape('2', '8', "foo" + ("+" + ("bar" + tail)));
  }

  lemma StringSemicolonExample()
    ensures StringParse("(foo;+bar;+baz)") == Value("(foo; bar; baz)")
  {
    assert "(foo;+bar;+baz)" == "(foo;" + ("+" + ("bar;" + ("+" + "baz)")));
    assert "(foo; bar; baz)" == "(foo;" + (" " + ("bar;" + (" " + "baz)")));
    DecodePlainText("baz)");
    DecodePlus("baz)");
    DecodePlain("bar;", "+" + "baz)");
    DecodePlus("bar;" + ("+" + "baz)"));
    DecodePlain("(foo;", "+" + ("bar;" + ("+" + "baz)")));
  }

  lemma StringQuotedExample()
    ensures StringParse("\"foo\"") == Value("foo")
    ensures StringParse("\"foo bar\"") == Value("foo bar")
  {
    assert "\"foo\"" == "\"" + "foo" + "\"";
    QuotedPlain("foo");
    assert "\"foo bar\"" == "\"" + "foo bar" + "\"";
    QuotedPlain("foo bar");
  }

  lemma StringQuotedEmptyExample()
    ensures StringParse("\"\"") == Value("")
  {
    assert "\"\"" == "\"" + "" + "\"";
    QuotedPlain("");
  }

  lemma {:induction false} DoubleAppend(a: string, b: string)
    ensures Double(a + b) == Double(a) + Double(b)
  {
    if |a| > 0 {
      assert (a + b)[1..] == a[1..] + b;
      DoubleAppend(a[1..], b);
    } else {
      assert a + b == b;
    }
  }

  /** Doubling the quotes adds no other character. */
  lemma {:induction false} DoubleKeeps(s: string, c: char)
    requires c != '"' && c !in s
    ensures c !in Double(s)
  {
    if |s| > 0 {
      DoubleKeeps(s[1..], c);
    }
  }

  /** Any value without `+` or `%`, its quotes doubled and put in quotes,
      reads back as itself. */
  lemma QuotedDoubled(v: string)
    requires '+' !in v && '%' !in v
    ensures StringParse("\"" + Double(v) + "\"") == Value(v)
  {
    var t := "\"" + Double(v) + "\"";
    DoubleKeeps(v, '+');
    DoubleKeeps(v, '%');
    DecodePlainText(t);
    assert t[1..|t| - 1] == Double(v);
    UndoubleDouble(v);
  }

  /** `"""foo"""` is the value `"foo"`. */
  lemma StringInnerQuotesExample()
    ensures StringParse("\"\"\"foo\"\"\"") == Value("\"foo\"")
  {
    assert "\"foo\"" == "\"" + "foo" + "\"";
    assert "\"\"\"foo\"\"\"" == "\"" + ("\"\"" + "foo" + "\"\"") + "\"";
    DoubleAppend("\"" + "foo", "\"");
    DoubleAppend("\"", "foo");
    assert Double("\"") == "\"\"";
    assert Double("foo") == "foo";
    QuotedDoubled("\"" + "foo" + "\"");
  }

  /** `"""` and `""""` are both the value `"`. */
  lemma StringOddQuotesExample()
    ensures StringParse("\"\"\"") == Value("\"")
  {
    var t := "\"\"\"";
    DecodePlainText(t);
    assert t[1..|t| - 1] == "\"";
    assert Undouble("\"") == "\"";
  }

  lemma StringEvenQuotesExample()
    ensures StringParse("\"\"\"\"") == Value("\"")
  {
    assert "\"\"\"\"" == "\"" + "\"\"" + "\"";
    assert Double("\"") == "\"\"";
    QuotedDoubled("\"");
  }

  // ----------------------------------------------------------------------
  // name_parse, address_parse, url_parse
  // ----------------------------------------------------------------------

  function NameParse(t: string): (r: Parsed<Hostname>)
    ensures r.Null? <==> IsPlaceholder(t)
    ensures !IsPlaceholder(t) ==> (r.Value? <==> |t| <= MaxNameLength && WellFormedName(t))
    ensures r.Value? ==> r.value.name == t
  {
    MakeHostnameIff(t);
    if IsPlaceholder(t) then Null else Lift(MakeHostname(t))
  }

  function AddressParse(t: string): (r: Parsed<Address>)
    ensures r.Null? <==> IsPlaceholder(t)
    ensures r.Value? ==> ValidAddress(r.value)
  {
    if IsPlaceholder(t) then Null else Lift(ParseAddress(t))
  }

  /** `-` is no address, so reading it as the placeholder hides none. */
  lemma PlaceholderIsNoAddress(s: string)
    requires IsPlaceholder(s)
    ensures ParseAddress(s) == None
  {
    if ParseIPv4(s).Some? {
      IPv4Chars(s);
      assert false;
    }
    assert ':' !in s;
    if ParseIPv6(s).Some? {
      IPv6Chars(s);
      assert false;
    }
  }

  /** Every valid address, written out, reads back as itself (an IPv6
      address with an empty port as the bare address). */
  lemma AddressParseRoundTrip(a: Address)
    requires ValidAddress(a)
    ensures AddressParse(Display(a)) == Value(Plain(a))
  {
    AddressRoundTrip(a);
    if IsPlaceholder(Display(a)) {
      PlaceholderIsNoAddress(Display(a));
    }
  }

  /** `url_parse`: the `%XX`/`+` decoding of `string_parse`, then the URL
      split. */
  function UrlParse(t: string): (r: Parsed<Url>)
    ensures r.Null? <==> IsPlaceholder(t)
  {
    if IsPlaceholder(t) then Null else Lift(ParseUrl(Decode(t)))
  }

  /** A URL token without `+` or `%` is split as it stands. */
  lemma UrlPlain(t: string)
    requires '+' !in t && '%' !in t && !IsPlaceholder(t)
    ensures UrlParse(t) == Lift(ParseUrl(t))
  {
    DecodePlainText(t);
  }

  lemma UrlRelativeExample()
    ensures UrlParse("foo") == Value(Url("", "", "foo", "", "", ""))
  {
    UrlPlain("foo");
    RelativeExample();
  }

  lemma UrlNetworkPathExample()
    ensures UrlParse("//foo/bar") == Value(Url("", "foo", "/bar", "", "", ""))
  {
    UrlPlain("//foo/bar");
    NetworkPathExample();
  }

  lemma UrlHttpExample()
    ensures UrlParse("http://foo/") == Value(Url("http", "foo", "/", "", "", ""))
  {
    UrlPlain("http://foo/");
    HttpExample();
  }

  lemma UrlQueryExample()
    ensures UrlParse("http://foo/bar?baz=quux") == Value(Url("http", "foo", "/bar", "", "baz=quux", ""))
  {
    UrlPlain("http://foo/bar?baz=quux");
    QueryExample();
  }

  lemma UrlFragmentExample()
    ensures UrlParse("https://foo/bar#baz") == Value(Url("https", "foo", "/bar", "", "", "baz"))
  {
    UrlPlain("https://foo/bar#baz");
    FragmentExample();
  }

  // ----------------------------------------------------------------------
  // sanitize_name
  // ----------------------------------------------------------------------

  predicate IsNameChar(c: char) { IsAlnum(c) || c == '_' }

  function SanitizeChar(c: char): (d: char)
  {
    if IsNameChar(c) then c else '_'
  }

  /** `sanitize_name`: every character that cannot appear in an attribute
      name becomes `_`; the empty identifier is refused. */
  function SanitizeName(s: string): (r: Option<string>)
    ensures r.Some? <==> |s| > 0
  {
    if |s| == 0 then None else Some(seq(|s|, i requires 0 <= i < |s| => SanitizeChar(s[i])))
  }

  /** The result has the same length, holds only name characters, keeps
      the name characters in place (case included) and puts `_` in place
      of every other character. */
  lemma SanitizeNameShape(s: string)
    requires |s| > 0
    ensures var r := SanitizeName(s).value;
      && |r| == |s|
      && (forall i :: 0 <= i < |r| ==> IsNameChar(r[i]))
      && (forall i :: 0 <= i < |s| ==> (IsNameChar(s[i]) ==> r[i] == s[i]) && (!IsNameChar(s[i]) ==> r[i] == '_'))
  {
  }

  /** An identifier made only of name characters is unchanged. */
  lemma SanitizeNameFixed(s: string)
    requires |s| > 0 && forall i :: 0 <= i < |s| ==> IsNameChar(s[i])
    ensures SanitizeName(s) == Some(s)
  {
    var r := SanitizeName(s).value;
    assert forall i :: 0 <= i < |s| ==> r[i] == s[i];
    assert r == s;
  }

  /** Sanitizing works character by character, so it distributes over
      concatenation. */
  lemma SanitizeNameAppend(a: string, b: string)
    requires |a| > 0 && |b| > 0
    ensures SanitizeName(a + b) == Some(SanitizeName(a).value + SanitizeName(b).value)
  {
    var r := SanitizeName(a + b).value;
    var v := SanitizeName(a).value + SanitizeName(b).value;
    assert |r| == |v|;
    forall i | 0 <= i < |r| ensures r[i] == v[i] {
      if i < |a| {
        assert (a + b)[i] == a[i];
      } else {
        assert (a + b)[i] == b[i - |a|];
      }
    }
    assert r == v;
  }

  /** A sanitized name is its own sanitized name. */
  lemma SanitizeNameIdempotent(s: string)
    requires |s| > 0
    ensures SanitizeName(SanitizeName(s).value) == SanitizeName(s)
  {
    SanitizeNameShape(s);
    SanitizeNameFixed(SanitizeName(s).value);
  }

  /** Two identifiers that differ only in which non-name character they
      hold in one place share a sanitized name. */
  lemma SanitizeCollision()
    ensures SanitizeName("a-b") == SanitizeName("a_b") == Some("a_b")
  {
    var r := SanitizeName("a-b").value;
    assert r[0] == 'a' && r[1] == '_' && r[2] == 'b';
    assert r == "a_b";
    SanitizeNameFixed("a_b");
  }

  lemma SanitizeKeepExample()
    ensures SanitizeName("foo") == Some("foo") && SanitizeName("FOO") == Some("FOO")
  {
    SanitizeNameFixed("foo");
    SanitizeNameFixed("FOO");
  }

  lemma SanitizeSpaceExample()
    ensures SanitizeName(" foo ") == Some("_foo_")
  {
    var r := SanitizeName(" foo ").value;
    assert r[0] == '_' && r[1] == 'f' && r[2] == 'o' && r[3] == 'o' && r[4] == '_';
    assert r == "_foo_";
  }

  lemma SanitizeUserAgentExample()
    ensures SanitizeName("User-Agent") == Some("User_Agent")
  {
    var r := SanitizeName("User-Agent").value;
    assert r[0] == 'U' && r[1] == 's' && r[2] == 'e' && r[3] == 'r' && r[4] == '_';
    assert r[5] == 'A' && r[6] == 'g' && r[7] == 'e' && r[8] == 'n' && r[9] == 't';
    assert r == "User_Agent";
  }

  lemma SanitizeParenExample()
    ensures SanitizeName("(") == Some("_")
  {
    var r := SanitizeName("(").value;
    assert r[0] == '_';
    assert r == "_";
  }

  lemma SanitizeReferrerExample()
    ensures SanitizeName("Referrer") == Some("Referrer")
  {
    SanitizeNameFixed("Referrer");
  }

  lemma SanitizeDashExample()
    ensures SanitizeName("rs-date") == Some("rs_date")
  {
    var r := SanitizeName("rs-date").value;
    assert r[0] == 'r' && r[1] == 's' && r[2] == '_' && r[3] == 'd' && r[4] == 'a' && r[5] == 't' && r[6] == 'e';
    assert r == "rs_date";
  }

  lemma SanitizeHeaderExample()
    ensures SanitizeName("cs(User-Agent)") == Some("cs_User_Agent_")
  {
    var r := SanitizeName("cs(User-Agent)").value;
    assert r[0] == 'c' && r[1] == 's' && r[2] == '_' && r[3] == 'U' && r[4] == 's' && r[5] == 'e' && r[6] == 'r';
    assert r[7] == '_' && r[8] == 'A' && r[9] == 'g' && r[10] == 'e' && r[11] == 'n' && r[12] == 't' && r[13] == '_';
    assert r == "cs_User_Agent_";
  }

  lemma SanitizeEmptyExample()
    ensures SanitizeName("") == None
  {
  }
}
