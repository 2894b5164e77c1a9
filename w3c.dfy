/** The W3C Extended Log File Format reader: directive lines, the schema
    built from `#Fields`, the decoding of data lines into rows, and the
    line-driven `W3CSource` that ties them together. */
module W3C {
  import opened Wrappers
  import opened Text
  import opened Temporal
  import opened Addresses
  import opened Urls
  import opened Literals

  // ----------------------------------------------------------------------
  // Errors and warnings
  // ----------------------------------------------------------------------

  /** The three fatal error classes: `W3CVersionError`, `W3CFieldsError`
      and `W3CDirectiveError`. */
  datatype ErrorKind = VersionError | FieldsError | DirectiveError

  /** `W3CError(message, line)`; the line number is optional. */
  datatype W3CError = W3CError(kind: ErrorKind, message: string, line: Option<nat>)

  /** `str(W3CError(...))`: `Line N: message`, or the message alone. */
  function Render(e: W3CError): (s: string)
    ensures e.line.None? ==> s == e.message
    ensures |e.message| <= |s| && s[|s| - |e.message|..] == e.message
  {
    if e.line.Some? then "Line " + Numeral(e.line.value, 10) + ": " + e.message else e.message
  }

  /** The line number can be read back from the rendered text: it is the
      numeral between `Line ` and the first colon. */
  lemma RenderLineNumber(e: W3CError)
    requires e.line.Some?
    ensures var s := Render(e); var k := Find(s, ':');
      && 5 <= k && s[..5] == "Line " && AllDigitsOf(s[5..k], 10) && ValueOf(s[5..k], 10) == e.line.value
  {
    var d := Numeral(e.line.value, 10);
    var s := Render(e);
    assert s == "Line " + d + (": " + e.message);
    assert ':' !in "Line " + d by {
      forall i | 0 <= i < |d| ensures d[i] != ':' {
        assert IsDigitOf(d[i], 10);
      }
    }
    FindAppend("Line " + d, ": " + e.message, ':');
    assert s[..5] == "Line ";
    assert s[5..5 + |d|] == d;
    ValueOfNumeral(e.line.value, 10);
  }

  lemma RenderExamples()
    ensures Render(W3CError(DirectiveError, "Something went wrong!", Some(23))) == "Line 23: Something went wrong!"
    ensures Render(W3CError(DirectiveError, "Something else went wrong!", None)) == "Something else went wrong!"
  {
    var m := "Something went wrong!";
    assert "Line " + "23" + ": " + m == "Line 23: Something went wrong!";
    assert Numeral(2, 10) == "2";
    assert Numeral(23, 10) == "23";
    RenderNumbered(W3CError(DirectiveError, m, Some(23)), "23");
  }

  /** A rendered message with a line number `d` already written out. */
  lemma RenderNumbered(e: W3CError, d: string)
    requires e.line.Some? && Numeral(e.line.value, 10) == d
    ensures Render(e) == "Line " + d + ": " + e.message
  {
  }

  /** The fatal problems the reader detects, each raised as one of the
      three error classes. */
  datatype Problem =
    | SecondVersion | UnsupportedVersion | InvalidVersion
    | UnrecognizedDirective
    | SecondFields | EmptyFields | EmptyIdentifier | DuplicateNames
    | FieldsMissing | VersionMissing

  function KindOf(p: Problem): ErrorKind
  {
    match p
    case SecondVersion | UnsupportedVersion | InvalidVersion | VersionMissing => VersionError
    case UnrecognizedDirective => DirectiveError
    case SecondFields | EmptyFields | EmptyIdentifier | DuplicateNames | FieldsMissing => FieldsError
  }

  function MessageOf(p: Problem): string
  {
    match p
    case SecondVersion => "Found a second #Version directive"
    case UnsupportedVersion => "Unsupported log format version"
    case InvalidVersion => "Invalid #Version directive"
    case UnrecognizedDirective => "Unrecognized directive"
    case SecondFields => "Found a second #Fields directive"
    case EmptyFields => "Empty #Fields directive"
    case EmptyIdentifier => "Empty field identifier"
    case DuplicateNames => "Duplicate field names"
    case FieldsMissing => "Missing #Fields directive"
    case VersionMissing => "Missing #Version directive"
  }

  /** A fatal problem found on line `line`. */
  datatype Fatal = Fatal(problem: Problem, line: nat)

  /** The exception a fatal problem is raised as: its class and message,
      with the line number. Which problems a header can raise, and when, is
      stated by `VersionDirective`, `FieldsDirective`, `UnknownDirective`,
      `MissingFields` and `MissingVersion`. */
  function Raised(f: Fatal): (e: W3CError)
    ensures e.kind == KindOf(f.problem) && e.line == Some(f.line)
  {
    W3CError(KindOf(f.problem), MessageOf(f.problem), Some(f.line))
  }

  /** Why a data line was dropped. */
  datatype Reason = FieldCount(expected: nat, found: nat) | BadValue(identifier: string, token: string)

  /** A `W3CWarning`, with the number of the line it concerns. */
  datatype Warning = Warning(line: nat, reason: Reason)

  // ----------------------------------------------------------------------
  // Directives
  // ----------------------------------------------------------------------

  /** What one `#` line says. */
  datatype Directive =
    | VersionLine(text: string)
    | MalformedVersion
    | SoftwareLine(software: string)
    | RemarkLine(remark: string)
    | DateLine(date: DateTime)
    | StartDateLine(start: DateTime)
    | EndDateLine(end: DateTime)
    | FieldsLine(identifiers: seq<string>)
    | UnknownLine

  /** `<digits>.<digits>`. */
  predicate IsVersionText(v: string)
  {
    var k := Find(v, '.');
    k < |v| && IsNumber(v[..k]) && IsNumber(v[k + 1..])
  }

  /** `# <name> [: <value>]`, with whitespace around the name, the colon
      and the value ignored and the name matched without regard to case.
      A date directive whose value is not a strict timestamp matches no
      directive at all. */
  function ParseDirective(line: string): (d: Directive)
    requires |line| > 0 && line[0] == '#'
  {
    Interpret(DirectiveName(line[1..]), DirectiveValue(line[1..]))
  }

  /** The text before the first colon, stripped and lower-cased. */
  function DirectiveName(body: string): string
  {
    Lower(Strip(body[..Find(body, ':')]))
  }

  /** The text after the first colon, stripped; empty without a colon. */
  function DirectiveValue(body: string): string
  {
    var k := Find(body, ':');
    if k < |body| then Strip(body[k + 1..]) else ""
  }

  /** The directive a lower-case name and a stripped value make. */
  function Interpret(name: string, value: string): (d: Directive)
    ensures d.VersionLine? ==> IsVersionText(d.text)
  {
    if name == "version" then
      if IsVersionText(value) then VersionLine(value) else MalformedVersion
    else if name == "software" then SoftwareLine(value)
    else if name == "remark" then RemarkLine(value)
    else if name == "fields" then FieldsLine(Words(value))
    else if name in {"date", "start-date", "end-date"} then
      var t := ParseDateTime(value);
      if t.None? then UnknownLine
      else if name == "date" then DateLine(t.value)
      else if name == "start-date" then StartDateLine(t.value)
      else EndDateLine(t.value)
    else UnknownLine
  }

  /** `#Version` holds its value exactly when the value is a version
      number, and is a version error otherwise. */
  lemma InterpretVersion(value: string)
    ensures Interpret("version", value) == VersionLine(value) <==> IsVersionText(value)
    ensures Interpret("version", value) == MalformedVersion <==> !IsVersionText(value)
  {
  }

  /** A date directive holds `dt` exactly when its value is the
      `YYYY-MM-DD HH:MM:SS` text of the valid timestamp `dt`, and is no
      directive when its value is no timestamp. */
  lemma InterpretDates(name: string, value: string, dt: DateTime)
    requires name in {"date", "start-date", "end-date"}
    ensures var d := Interpret(name, value);
      && (name == "date" ==> (d == DateLine(dt) <==> ValidDateTime(dt) && value == FormatDateTime(dt)))
      && (name == "start-date" ==> (d == StartDateLine(dt) <==> ValidDateTime(dt) && value == FormatDateTime(dt)))
      && (name == "end-date" ==> (d == EndDateLine(dt) <==> ValidDateTime(dt) && value == FormatDateTime(dt)))
      && (d.UnknownLine? <==> ParseDateTime(value).None?)
  {
    DateTimeTextIff(value, dt);
    var t := ParseDateTime(value);
    if name == "date" {
      assert Interpret(name, value) == if t.None? then UnknownLine else DateLine(t.value);
    } else if name == "start-date" {
      assert Interpret(name, value) == if t.None? then UnknownLine else StartDateLine(t.value);
    } else {
      assert Interpret(name, value) == if t.None? then UnknownLine else EndDateLine(t.value);
    }
  }

  predicate IsDirectiveName(name: string)
  {
    name in {"version", "software", "remark", "fields", "date", "start-date", "end-date"}
  }

  /** A `#` line is no directive exactly when its name is not one of the
      seven, or it names a date directive whose value is no timestamp. */
  lemma InterpretUnknown(name: string, value: string)
    ensures Interpret(name, value).UnknownLine? <==>
      (!IsDirectiveName(name) || (name in {"date", "start-date", "end-date"} && ParseDateTime(value).None?))
  {
  }

  // The directive lines of the examples, cut at their parts.

  lemma VersionText()
    ensures "#Version: 1.0" == "#" + (("" + "Version" + "") + (":" + (" " + "1.0" + "")))
  {
  }

  lemma VersionUpperText()
    ensures "# VERSION : 1.0" == "#" + ((" " + "VERSION" + " ") + (":" + (" " + "1.0" + "")))
  {
  }

  lemma VersionUnspacedText()
    ensures "# version:100.99" == "#" + ((" " + "version" + "") + (":" + ("" + "100.99" + "")))
  {
  }

  lemma VersionRejectText()
    ensures "#Version: foo" == "#" + (("" + "Version" + "") + (":" + (" " + "foo" + "")))
  {
  }

  lemma SoftwareText()
    ensures "# software : bar" == "#" + ((" " + "software" + " ") + (":" + (" " + "bar" + "")))
  {
  }

  lemma RemarkText()
    ensures "#Remark: bar" == "#" + (("" + "Remark" + "") + (":" + (" " + "bar" + "")))
  {
  }

  /** Spaces around the name, the colon and the value do not matter, and
      the name is read without regard to case. */
  lemma DirectiveForm(a: string, name: string, b: string, c: string, value: string, d: string)
    requires AllSpace(a) && AllSpace(b) && AllSpace(c) && AllSpace(d)
    requires Trimmed(name) && Trimmed(value) && ':' !in name
    ensures ParseDirective("#" + ((a + name + b) + (":" + (c + value + d)))) == Interpret(Lower(name), value)
  {
    var body := (a + name + b) + (":" + (c + value + d));
    assert ("#" + body)[1..] == body;
    DirectiveParts(a, name, b, c, value, d);
  }

  lemma DirectiveParts(a: string, name: string, b: string, c: string, value: string, d: string)
    requires AllSpace(a) && AllSpace(b) && AllSpace(c) && AllSpace(d)
    requires Trimmed(name) && Trimmed(value) && ':' !in name
    ensures var body := (a + name + b) + (":" + (c + value + d));
      DirectiveName(body) == Lower(name) && DirectiveValue(body) == value
  {
    var pre := a + name + b;
    var post := c + value + d;
    assert ':' !in pre by { ColonFree(a, name, b); }
    ColonCut(pre, post);
    StripOf(a, name, b);
    StripOf(c, value, d);
  }

  lemma ColonFree(a: string, name: string, b: string)
    requires AllSpace(a) && AllSpace(b) && ':' !in name
    ensures ':' !in a + name + b
  {
    var pre := a + name + b;
    forall i | 0 <= i < |pre| ensures pre[i] != ':' {
      if i < |a| { assert pre[i] == a[i]; }
      else if i < |a| + |name| { assert pre[i] == name[i - |a|]; }
      else { assert pre[i] == b[i - |a| - |name|]; }
    }
  }

  /** The name is read before the first colon and the value after it. */
  lemma ColonCut(pre: string, post: string)
    requires ':' !in pre
    ensures var body := pre + (":" + post);
      DirectiveName(body) == Lower(Strip(pre)) && DirectiveValue(body) == Strip(post)
  {
    var body := pre + (":" + post);
    assert Find(body, ':') == |pre| by {
      FindAppend(pre, ":" + post, ':');
      assert (":" + post)[0] == ':';
    }
    assert body[..|pre|] == pre;
    assert body[|pre| + 1..] == post by {
      assert body[|pre|..] == ":" + post;
      assert (":" + post)[1..] == post;
    }
  }

  lemma VersionTextOf(x: string, y: string)
    requires IsNumber(x) && IsNumber(y)
    ensures IsVersionText(x + "." + y)
  {
    var v := x + "." + y;
    assert v == x + ("." + y);
    assert '.' !in x by {
      forall i | 0 <= i < |x| ensures x[i] != '.' { assert IsDigitOf(x[i], 10); }
    }
    FindAppend(x, "." + y, '.');
    assert v[..|x|] == x && v[|x| + 1..] == y;
  }

  /** The directive names of the examples below, lower-cased. */
  lemma LowerNames()
    ensures Lower("Version") == "version" && Lower("VERSION") == "version" && Lower("version") == "version"
    ensures Lower("Date") == "date" && Lower("Start-Date") == "start-date" && Lower("End-Date") == "end-date"
    ensures Lower("software") == "software" && Lower("Remark") == "remark"
    ensures Lower("Foo") == "foo"
  {
  }

  lemma VersionTexts()
    ensures IsVersionText("1.0") && IsVersionText("100.99") && !IsVersionText("foo")
  {
    VersionTextOf("1", "0");
    assert "1" + "." + "0" == "1.0";
    VersionTextOf("100", "99");
    assert "100" + "." + "99" == "100.99";
    assert '.' !in "foo";
  }

  lemma VersionForm()
    ensures ParseDirective("#Version: 1.0") == Interpret(Lower("Version"), "1.0")
  {
    VersionText();
    DirectiveForm("", "Version", "", " ", "1.0", "");
  }

  lemma VersionExample()
    ensures ParseDirective("#Version: 1.0") == VersionLine("1.0")
  {
    VersionForm();
    assert Lower("Version") == "version" by { LowerNames(); }
    VersionTexts();
  }

  lemma VersionUpperForm()
    ensures ParseDirective("# VERSION : 1.0") == Interpret(Lower("VERSION"), "1.0")
  {
    VersionUpperText();
    DirectiveForm(" ", "VERSION", " ", " ", "1.0", "");
  }

  lemma VersionSpacedExample()
    ensures ParseDirective("# VERSION : 1.0") == VersionLine("1.0")
  {
    VersionUpperForm();
    assert Lower("VERSION") == "version" by { LowerNames(); }
    VersionTexts();
  }

  lemma VersionUnspacedForm()
    ensures ParseDirective("# version:100.99") == Interpret(Lower("version"), "100.99")
  {
    VersionUnspacedText();
    DirectiveForm(" ", "version", "", "", "100.99", "");
  }

  lemma VersionUnspacedExample()
    ensures ParseDirective("# version:100.99") == VersionLine("100.99")
  {
    VersionUnspacedForm();
    assert Lower("version") == "version" by { LowerNames(); }
    VersionTexts();
  }

  lemma VersionRejectForm()
    ensures ParseDirective("#Version: foo") == Interpret(Lower("Version"), "foo")
  {
    VersionRejectText();
    DirectiveForm("", "Version", "", " ", "foo", "");
  }

  lemma VersionRejectExample()
    ensures ParseDirective("#Version: foo") == MalformedVersion
  {
    VersionRejectForm();
    assert Lower("Version") == "version" by { LowerNames(); }
    VersionTexts();
  }

  /** A date directive needs a whole timestamp: `#Date: 2012-06-01`, and
      its `Start-Date` and `End-Date` variants, are no directives. */
  lemma DateRejectExamples()
    ensures Interpret(Lower("Date"), "2012-06-01") == UnknownLine
    ensures Interpret(Lower("Start-Date"), "2012-06-01") == UnknownLine
    ensures Interpret(Lower("End-Date"), "2012-06-01") == UnknownLine
  {
    LowerNames();
  }

  lemma SoftwareForm()
    ensures ParseDirective("# software : bar") == Interpret(Lower("software"), "bar")
  {
    SoftwareText();
    DirectiveForm(" ", "software", " ", " ", "bar", "");
  }

  lemma SoftwareExample()
    ensures ParseDirective("# software : bar") == SoftwareLine("bar")
  {
    SoftwareForm();
    assert Lower("software") == "software" by { LowerNames(); }
  }

  lemma RemarkForm()
    ensures ParseDirective("#Remark: bar") == Interpret(Lower("Remark"), "bar")
  {
    RemarkText();
    DirectiveForm("", "Remark", "", " ", "bar", "");
  }

  lemma RemarkExample()
    ensures ParseDirective("#Remark: bar") == RemarkLine("bar")
  {
    RemarkForm();
    assert Lower("Remark") == "remark" by { LowerNames(); }
  }

  /** The value of `#Fields: foo cs-foo rs(foo)` lists three identifiers. */
  lemma FieldsWords()
    ensures Words("foo cs-foo rs(foo)") == ["foo", "cs-foo", "rs(foo)"]
  {
    var ws := ["foo", "cs-foo", "rs(foo)"];
    assert Join(ws, ' ') == "foo cs-foo rs(foo)" by {
      assert ws[1..][1..] == ["rs(foo)"];
    }
    WordsJoin(ws);
  }

  /** `#Foo: Bar` is no directive. */
  lemma UnknownExample()
    ensures Interpret(Lower("Foo"), "Bar") == UnknownLine
  {
    assert Lower("Foo") == "foo" by { LowerNames(); }
  }

  // ----------------------------------------------------------------------
  // Field identifiers and the schema
  // ----------------------------------------------------------------------

  /** The entity prefixes of section "Fields" of the W3C draft: client,
      server, remote, and the four directions, plus `x` for application
      specific fields. */
  predicate IsEntityPrefix(p: string)
  {
    p in {"c", "s", "r", "cs", "sc", "sr", "rs", "x"}
  }

  /** A field identifier: `[prefix-]identifier`, or `prefix(header)`. An
      identifier whose prefix is not an entity prefix keeps its whole text
      and no prefix. */
  datatype Field = PlainField(prefix: Option<string>, identifier: string) | HeaderField(entity: string, header: string)

  function ParseField(t: string): Field
  {
    var j := Find(t, '(');
    var k := Find(t, '-');
    if j + 2 <= |t| && IsEntityPrefix(t[..j]) && t[|t| - 1] == ')' then HeaderField(t[..j], t[j + 1..|t| - 1])
    else if k + 1 < |t| && IsEntityPrefix(t[..k]) then PlainField(Some(t[..k]), t[k + 1..])
    else PlainField(None, t)
  }

  /** The parts of an identifier put back together give the identifier,
      and a prefix or entity is one of the entity prefixes. */
  lemma FieldParts(t: string)
    ensures var f := ParseField(t);
      && (f.PlainField? && f.prefix.None? ==> f.identifier == t)
      && (f.PlainField? && f.prefix.Some? ==> t == f.prefix.value + "-" + f.identifier && IsEntityPrefix(f.prefix.value))
      && (f.HeaderField? ==> t == f.entity + "(" + f.header + ")" && IsEntityPrefix(f.entity))
  {
    var j := Find(t, '(');
    var k := Find(t, '-');
    var f := ParseField(t);
    if j + 2 <= |t| && IsEntityPrefix(t[..j]) && t[|t| - 1] == ')' {
      assert f == HeaderField(t[..j], t[j + 1..|t| - 1]);
      Enclosed(t, j);
    } else if k + 1 < |t| && IsEntityPrefix(t[..k]) {
      assert f == PlainField(Some(t[..k]), t[k + 1..]);
      Hyphened(t, k);
    } else {
      assert f == PlainField(None, t);
    }
  }

  lemma Enclosed(t: string, j: nat)
    requires j + 2 <= |t| && t[j] == '(' && t[|t| - 1] == ')'
    ensures t == t[..j] + "(" + t[j + 1..|t| - 1] + ")"
  {
    var u := t[..j] + "(" + t[j + 1..|t| - 1] + ")";
    assert |u| == |t|;
    forall i | 0 <= i < |t| ensures u[i] == t[i] {
      if i < j { assert u[i] == t[..j][i]; }
      else if i == j { }
      else if i < |t| - 1 { assert u[i] == t[j + 1..|t| - 1][i - j - 1]; }
    }
  }

  lemma Hyphened(t: string, k: nat)
    requires k < |t| && t[k] == '-'
    ensures t == t[..k] + "-" + t[k + 1..]
  {
    assert t == t[..k] + t[k..];
    assert t[k..] == "-" + t[k + 1..];
  }

  /** The literal parser a column is read with. */
  datatype Kind = DateKind | TimeKind | AddressKind | IntKind | FixedKind | UrlKind | StringKind

  predicate EndsWith(s: string, suffix: string)
  {
    |suffix| <= |s| && s[|s| - |suffix|..] == suffix
  }

  /** `sub in s`. */
  predicate Contains(s: string, sub: string)
    decreases |s|
  {
    |sub| <= |s| && (s[..|sub|] == sub || Contains(s[1..], sub))
  }

  /** The type of a column, chosen by its identifier. */
  function Classify(t: string): Kind
  {
    var f := ParseField(t);
    if f.HeaderField? then StringKind
    else if f.identifier == "date" then DateKind
    else if f.identifier == "time" then TimeKind
    else if EndsWith(t, "-ip") then AddressKind
    else if EndsWith(t, "-port") || EndsWith(t, "-status") || EndsWith(t, "-bytes") then IntKind
    else if f.identifier == "time-taken" then FixedKind
    else if Contains(t, "uri") then UrlKind
    else StringKind
  }

  /** The attribute name a row gives a column: `sanitize_name` of the
      identifier, except that a header field `entity(header)` loses its
      closing parenthesis first, so that `cs(User-Agent)` is named
      `cs_User_Agent`. */
  function ColumnName(t: string): (r: Option<string>)
    ensures r.Some? <==> |t| > 0
  {
    SanitizeName(NameText(t))
  }

  /** The text a column name is made from. */
  function NameText(t: string): (u: string)
    ensures |u| == 0 <==> |t| == 0
  {
    if ParseField(t).HeaderField? then t[..|t| - 1] else t
  }

  /** A header field `e(h)` is named `e_` followed by the sanitized header. */
  lemma HeaderColumnName(e: string, h: string)
    requires IsEntityPrefix(e) && |h| > 0
    ensures ColumnName(e + "(" + h + ")") == Some(e + "_" + SanitizeName(h).value)
  {
    var t := e + "(" + h + ")";
    HeaderFieldParse(e, h);
    assert NameText(t) == t[..|t| - 1];
    assert t[..|t| - 1] == (e + "(") + h;
    assert SanitizeName(e + "(").value == e + "_" by {
      SanitizeNameAppend(e, "(");
      EntityPrefixName(e);
      SanitizeParenExample();
    }
    SanitizeNameAppend(e + "(", h);
  }

  /** `e(h)` reads back as the header field of entity `e` and header `h`. */
  lemma HeaderFieldParse(e: string, h: string)
    requires IsEntityPrefix(e) && |h| > 0
    ensures ParseField(e + "(" + h + ")") == HeaderField(e, h)
  {
    var t := e + "(" + h + ")";
    EntityPrefixLetters(e);
    assert t[|e|] == '(';
    assert forall i :: 0 <= i < |e| ==> t[i] == e[i];
    assert Find(t, '(') == |e|;
    assert t[..|e|] == e;
    assert t[|e| + 1..|t| - 1] == h;
  }

  /** An entity prefix is made of lower-case letters. */
  lemma EntityPrefixLetters(e: string)
    requires IsEntityPrefix(e)
    ensures forall i :: 0 <= i < |e| ==> 'a' <= e[i] <= 'z'
  {
  }

  /** An entity prefix is already an attribute name. */
  lemma EntityPrefixName(e: string)
    requires IsEntityPrefix(e)
    ensures SanitizeName(e) == Some(e)
  {
    SanitizeNameFixed(e);
  }

  /** One column of the schema. */
  datatype Column = Column(identifier: string, name: string, kind: Kind)

  /** The schema of a `#Fields` list: `None` when an identifier is empty,
      which `sanitize_name` refuses. */
  function BuildSchema(ids: seq<string>): (r: Option<seq<Column>>)
    ensures r.Some? <==> forall i :: 0 <= i < |ids| ==> |ids[i]| > 0
    ensures r.Some? ==> |r.value| == |ids|
  {
    if |ids| == 0 then Some([])
    else
      var n := ColumnName(ids[0]);
      var rest := BuildSchema(ids[1..]);
      if n.None? || rest.None? then
        assert n.None? ==> |ids[0]| == 0;
        assert rest.None? ==> exists i :: 0 <= i < |ids| - 1 && |ids[1..][i]| == 0;
        None
      else Some([Column(ids[0], n.value, Classify(ids[0]))] + rest.value)
  }

  /** Column `i` of a schema keeps identifier `i`, is named by its
      `ColumnName` and typed by its prefix. */
  lemma {:induction false} SchemaColumns(ids: seq<string>)
    requires BuildSchema(ids).Some?
    ensures var cols := BuildSchema(ids).value;
      forall i :: 0 <= i < |ids| ==>
        cols[i].identifier == ids[i] && Some(cols[i].name) == ColumnName(ids[i]) && cols[i].kind == Classify(ids[i])
  {
    if |ids| > 0 {
      SchemaColumns(ids[1..]);
      var cols := BuildSchema(ids).value;
      var rest := BuildSchema(ids[1..]).value;
      forall i | 0 <= i < |ids|
        ensures cols[i].identifier == ids[i] && Some(cols[i].name) == ColumnName(ids[i]) && cols[i].kind == Classify(ids[i])
      {
        if i > 0 {
          assert cols[i] == rest[i - 1];
          assert ids[1..][i - 1] == ids[i];
        }
      }
    }
  }

  /** Column `i` alone, for a caller that needs no other. */
  lemma SchemaColumn(ids: seq<string>, i: nat)
    requires BuildSchema(ids).Some? && i < |ids|
    ensures BuildSchema(ids).value[i] == Column(ids[i], ColumnName(ids[i]).value, Classify(ids[i]))
  {
    SchemaColumns(ids);
  }

  function Names(cols: seq<Column>): (ns: seq<string>)
    ensures |ns| == |cols| && forall i :: 0 <= i < |cols| ==> ns[i] == cols[i].name
  {
    seq(|cols|, i requires 0 <= i < |cols| => cols[i].name)
  }

  function Identifiers(cols: seq<Column>): (ns: seq<string>)
    ensures |ns| == |cols| && forall i :: 0 <= i < |cols| ==> ns[i] == cols[i].identifier
  {
    seq(|cols|, i requires 0 <= i < |cols| => cols[i].identifier)
  }

  predicate Distinct(ns: seq<string>)
  {
    forall i, j :: 0 <= i < j < |ns| ==> ns[i] != ns[j]
  }

  // ----------------------------------------------------------------------
  // Rows
  // ----------------------------------------------------------------------

  /** A converted token: `None` in Python for `-`, or a typed value. */
  datatype Datum =
    | NoValue
    | DateValue(date: Date)
    | TimeValue(time: Time)
    | AddressValue(address: Address)
    | IntValue(integer: int)
    | FixedValue(fixed: real)
    | UrlValue(url: Url)
    | StringValue(text: string)

  /** A parser's outcome as a cell value; `None` for a conversion error.
      What this means for a whole row is stated by `DecodedCells`. */
  function Carry<T>(p: Parsed<T>, f: T -> Datum): (r: Option<Datum>)
    ensures r.None? <==> p.Invalid?
    ensures p.Null? ==> r == Some(NoValue)
    ensures p.Value? ==> r == Some(f(p.value))
  {
    match p
    case Null => Some(NoValue)
    case Value(v) => Some(f(v))
    case Invalid => None
  }

  /** The literal parser a kind selects, as the function the schema
      holds for its column. */
  function Parser(kind: Kind): string -> Option<Datum>
  {
    match kind
    case DateKind => t => Carry(DateParse(t), d => DateValue(d))
    case TimeKind => t => Carry(TimeParse(t), x => TimeValue(x))
    case AddressKind => t => Carry(AddressParse(t), a => AddressValue(a))
    case IntKind => t => Carry(IntParse(t), n => IntValue(n))
    case FixedKind => t => Carry(FixedParse(t), x => FixedValue(x))
    case UrlKind => t => Carry(UrlParse(t), u => UrlValue(u))
    case StringKind => t => Carry(StringParse(t), s => StringValue(s))
  }

  /** A token read with the parser its column's kind selects. */
  function Convert(kind: Kind, t: string): (r: Option<Datum>)
  {
    Parser(kind)(t)
  }

  /** One attribute of a row. */
  datatype Cell = Cell(name: string, value: Datum)

  type Row = seq<Cell>

  datatype Decoded = Decoded(row: Row) | Rejected(reason: Reason)

  /** The cells of a row whose token count is right; the first token that
      does not convert rejects the row. */
  function DecodeCells(cols: seq<Column>, tokens: seq<string>): (r: Decoded)
    requires |cols| == |tokens|
    ensures r.Decoded? ==> |r.row| == |cols|
    ensures r.Rejected? ==> r.reason.BadValue?
  {
    if |cols| == 0 then Decoded([])
    else
      var v := Convert(cols[0].kind, tokens[0]);
      if v.None? then Rejected(BadValue(cols[0].identifier, tokens[0]))
      else
        match DecodeCells(cols[1..], tokens[1..])
        case Decoded(row) => Decoded([Cell(cols[0].name, v.value)] + row)
        case Rejected(reason) => Rejected(reason)
  }

  /** A row is decoded exactly when every token converts with its
      column's parser, and then cell `i` is column `i`'s name and the
      value of token `i`. */
  lemma DecodedCells(cols: seq<Column>, tokens: seq<string>)
    requires |cols| == |tokens|
    ensures var r := DecodeCells(cols, tokens);
      && (r.Decoded? <==> forall i :: 0 <= i < |cols| ==> Convert(cols[i].kind, tokens[i]).Some?)
      && (r.Decoded? ==> forall i :: 0 <= i < |cols| ==>
            r.row[i] == Cell(cols[i].name, Convert(cols[i].kind, tokens[i]).value))
  {
    DecodedExactly(cols, tokens);
    DecodedRow(cols, tokens);
  }

  /** The first half of `DecodedCells`. */
  lemma {:induction false} DecodedExactly(cols: seq<Column>, tokens: seq<string>)
    requires |cols| == |tokens|
    ensures DecodeCells(cols, tokens).Decoded? <==> forall i :: 0 <= i < |cols| ==> Convert(cols[i].kind, tokens[i]).Some?
  {
    if |cols| > 0 {
      DecodedExactly(cols[1..], tokens[1..]);
      assert forall i :: 1 <= i < |cols| ==> cols[1..][i - 1] == cols[i] && tokens[1..][i - 1] == tokens[i];
    }
  }

  /** The second half of `DecodedCells`. */
  lemma {:induction false} DecodedRow(cols: seq<Column>, tokens: seq<string>)
    requires |cols| == |tokens|
    ensures var r := DecodeCells(cols, tokens);
      r.Decoded? ==> |r.row| == |cols| && forall i :: 0 <= i < |cols| ==>
        r.row[i].name == cols[i].name && Convert(cols[i].kind, tokens[i]) == Some(r.row[i].value)
  {
    var r := DecodeCells(cols, tokens);
    if |cols| > 0 && r.Decoded? {
      DecodedRow(cols[1..], tokens[1..]);
      var rest := DecodeCells(cols[1..], tokens[1..]);
      assert rest.Decoded? && r.row == [Cell(cols[0].name, Convert(cols[0].kind, tokens[0]).value)] + rest.row;
      assert r.row[1..] == rest.row;
      forall i | 1 <= i < |cols|
        ensures r.row[i].name == cols[i].name && Convert(cols[i].kind, tokens[i]) == Some(r.row[i].value)
      {
        assert r.row[i] == r.row[1..][i - 1];
        assert cols[1..][i - 1] == cols[i] && tokens[1..][i - 1] == tokens[i];
      }
    }
  }

  /** A rejected row names a column whose token does not convert. */
  lemma {:induction false} RejectedCell(cols: seq<Column>, tokens: seq<string>)
    requires |cols| == |tokens| && DecodeCells(cols, tokens).Rejected?
    ensures exists i :: (0 <= i < |cols| && Convert(cols[i].kind, tokens[i]).None?
      && DecodeCells(cols, tokens).reason == BadValue(cols[i].identifier, tokens[i]))
  {
    if Convert(cols[0].kind, tokens[0]).Some? {
      RejectedCell(cols[1..], tokens[1..]);
      var i :| (0 <= i < |cols| - 1 && Convert(cols[1..][i].kind, tokens[1..][i]).None?
        && DecodeCells(cols[1..], tokens[1..]).reason == BadValue(cols[1..][i].identifier, tokens[1..][i]));
      assert cols[1..][i] == cols[i + 1] && tokens[1..][i] == tokens[i + 1];
    }
  }

  /** The row decoder: the whitespace-separated tokens of a data line, one
      per column. */
  function DecodeRow(cols: seq<Column>, tokens: seq<string>): (r: Decoded)
    ensures |tokens| != |cols| <==> r == Rejected(FieldCount(|cols|, |tokens|))
  {
    if |tokens| != |cols| then Rejected(FieldCount(|cols|, |tokens|)) else DecodeCells(cols, tokens)
  }

  // ----------------------------------------------------------------------
  // Header state and one step of the reader
  // ----------------------------------------------------------------------

  /** What the directives read so far established: the exposed `version`,
      `software` and `date`, whether a `#Date` line was seen, and the
      schema of `#Fields`. */
  datatype Header = Header(
    version: Option<string>,
    software: Option<string>,
    date: Option<DateTime>,
    dated: bool,
    columns: Option<seq<Column>>)

  const EmptyHeader := Header(None, None, None, false, None)

  /** The raw identifiers of `#Fields`, in order. */
  function Fields(h: Header): seq<string>
  {
    if h.columns.Some? then Identifiers(h.columns.value) else []
  }

  datatype Applied = Applied(header: Header) | Failed(error: Fatal)

  /** The effect of the directive on line `n`. */
  function ApplyDirective(h: Header, d: Directive, n: nat): (r: Applied)
  {
    match d
    case VersionLine(v) =>
      if h.version.Some? then Failed(Fatal(SecondVersion, n))
      else if v != "1.0" then Failed(Fatal(UnsupportedVersion, n))
      else Applied(h.(version := Some(v)))
    case MalformedVersion => Failed(Fatal(InvalidVersion, n))
    case SoftwareLine(s) => Applied(h.(software := Some(s)))
    case RemarkLine(_) => Applied(h)
    case DateLine(t) => Applied(h.(date := Some(t), dated := true))
    case StartDateLine(t) => if h.dated then Applied(h) else Applied(h.(date := Some(t)))
    case EndDateLine(_) => Applied(h)
    case FieldsLine(ids) => ApplyFields(h, ids, n)
    case UnknownLine => Failed(Fatal(UnrecognizedDirective, n))
  }

  /** The effect of a `#Fields` line listing `ids`. */
  function ApplyFields(h: Header, ids: seq<string>, n: nat): (r: Applied)
  {
    if h.columns.Some? then Failed(Fatal(SecondFields, n))
    else if |ids| == 0 then Failed(Fatal(EmptyFields, n))
    else
      var cols := BuildSchema(ids);
      if cols.None? then Failed(Fatal(EmptyIdentifier, n))
      else if !Distinct(Names(cols.value)) then Failed(Fatal(DuplicateNames, n))
      else Applied(h.(columns := cols))
  }

  // ----------------------------------------------------------------------
  // Lines
  // ----------------------------------------------------------------------

  predicate IsBlank(line: string) { forall i :: 0 <= i < |line| ==> IsSpace(line[i]) }

  predicate IsDirectiveLine(line: string) { |line| > 0 && line[0] == '#' }

  /** What a line of the log is, independently of what came before it: a
      blank line, a directive, or the tokens of a data line. */
  datatype Line = Blank | DirectiveText(directive: Directive) | DataText(tokens: seq<string>)

  function Read(line: string): (l: Line)
    ensures l.Blank? <==> IsBlank(line)
    ensures l.DirectiveText? <==> IsDirectiveLine(line)
    ensures l.DirectiveText? ==> l.directive == ParseDirective(line)
    ensures l.DataText? ==> l.tokens == Words(line) && |l.tokens| > 0
  {
    if IsBlank(line) then
      assert !IsDirectiveLine(line) by {
        if |line| > 0 { assert IsSpace(line[0]); }
      }
      Blank
    else if IsDirectiveLine(line) then DirectiveText(ParseDirective(line))
    else
      var i :| 0 <= i < |line| && !IsSpace(line[i]);
      WordsNonEmpty(line, i);
      DataText(Words(line))
  }

  /** The lines of a log, each read on its own. */
  function ReadAll(lines: seq<string>): (ls: seq<Line>)
    ensures |ls| == |lines|
  {
    if lines == [] then [] else [Read(lines[0])] + ReadAll(lines[1..])
  }

  lemma {:induction false} ReadAllAt(lines: seq<string>, i: nat)
    requires i < |lines|
    ensures ReadAll(lines)[i] == Read(lines[i])
  {
    if i > 0 {
      ReadAllAt(lines[1..], i - 1);
    }
  }

  // ----------------------------------------------------------------------
  // The reader
  // ----------------------------------------------------------------------

  /** Everything the reader has established after some lines: the header,
      the warnings issued, and the fatal error that stopped it, if any. */
  datatype Source = Source(header: Header, warnings: seq<Warning>, error: Option<Fatal>)

  const Fresh := Source(EmptyHeader, [], None)

  datatype Step = Step(next: Source, row: Option<Row>)

  /** Reading line number `n` (counted from 1). */
  function Advance(s: Source, l: Line, n: nat): (r: Step)
    requires s.error.None?
  {
    match l
    case Blank => Step(s, None)
    case DirectiveText(d) =>
      (match ApplyDirective(s.header, d, n)
       case Applied(h) => Step(s.(header := h), None)
       case Failed(e) => Step(s.(error := Some(e)), None))
    case DataText(tokens) =>
      if s.header.columns.None? then
        Step(s.(error := Some(Fatal(FieldsMissing, n))), None)
      else if s.header.version.None? then
        Step(s.(error := Some(Fatal(VersionMissing, n))), None)
      else
        match DecodeRow(s.header.columns.value, tokens)
        case Decoded(row) => Step(s, Some(row))
        case Rejected(reason) => Step(s.(warnings := s.warnings + [Warning(n, reason)]), None)
  }

  /** The reader after the first `k` lines, and the rows it produced: it
      stops at the first fatal error. */
  datatype Progress = Progress(source: Source, rows: seq<Row>)

  function Scan(ls: seq<Line>, k: nat): Progress
    requires k <= |ls|
  {
    if k == 0 then Progress(Fresh, [])
    else
      var p := Scan(ls, k - 1);
      if p.source.error.Some? then p
      else
        var st := Advance(p.source, ls[k - 1], k);
        Progress(st.next, p.rows + (if st.row.Some? then [st.row.value] else []))
  }

  /** The step `Scan` takes past line `k + 1` when no error stops it. */
  lemma ScanNext(ls: seq<Line>, k: nat, l: Line)
    requires k < |ls| && ls[k] == l && Scan(ls, k).source.error.None?
    ensures var p := Scan(ls, k); var st := Advance(p.source, l, k + 1);
      Scan(ls, k + 1) == Progress(st.next, p.rows + (if st.row.Some? then [st.row.value] else []))
  {
  }

  /** `ScanNext`, stated for a reader whose state after `k` lines is known. */
  lemma ScanStep(ls: seq<Line>, k: nat, l: Line, s: Source, rows: seq<Row>)
    requires k < |ls| && ls[k] == l && s.error.None? && Scan(ls, k) == Progress(s, rows)
    ensures var st := Advance(s, l, k + 1);
      Scan(ls, k + 1) == Progress(st.next, rows + (if st.row.Some? then [st.row.value] else []))
  {
    ScanNext(ls, k, l);
  }

  /** The number of data lines among the first `k`. */
  function DataLines(ls: seq<Line>, k: nat): nat
    requires k <= |ls|
  {
    if k == 0 then 0 else DataLines(ls, k - 1) + (if ls[k - 1].DataText? then 1 else 0)
  }

  // ----------------------------------------------------------------------
  // What the reader guarantees
  // ----------------------------------------------------------------------

  /** A fatal error ends the reading: nothing after it changes anything. */
  lemma ScanStops(ls: seq<Line>, k: nat, m: nat)
    requires k <= m <= |ls| && Scan(ls, k).source.error.Some?
    ensures Scan(ls, m) == Scan(ls, k)
  {
    var j := k;
    while j < m
      invariant k <= j <= m && Scan(ls, j) == Scan(ls, k)
    {
      ScanHalted(ls, j + 1);
      j := j + 1;
    }
  }

  /** A reader that has failed reads no further line. */
  lemma ScanHalted(ls: seq<Line>, m: nat)
    requires 0 < m <= |ls| && Scan(ls, m - 1).source.error.Some?
    ensures Scan(ls, m) == Scan(ls, m - 1)
  {
  }

  /** One step leaves the header alone on every line but a directive, and
      a step that fails changes nothing but the error. */
  lemma AdvanceFrame(s: Source, l: Line, n: nat)
    requires s.error.None?
    ensures var st := Advance(s, l, n);
      && (!l.DirectiveText? ==> st.next.header == s.header)
      && (st.next.error.Some? ==> st.next == s.(error := st.next.error) && st.row.None?)
      && (st.row.Some? ==> st.next == s && l.DataText?)
  {
  }

  /** A step issues at most one warning, about the data line it reads. */
  lemma AdvanceWarnings(s: Source, l: Line, n: nat)
    requires s.error.None?
    ensures var ws := Advance(s, l, n).next.warnings;
      && |s.warnings| <= |ws| <= |s.warnings| + 1 && ws[..|s.warnings|] == s.warnings
      && (|ws| > |s.warnings| ==> l.DataText? && ws[|s.warnings|].line == n)
  {
  }

  /** The schema, once `#Fields` has set it, never changes. */
  lemma ColumnsStay(s: Source, l: Line, n: nat)
    requires s.error.None? && s.header.columns.Some?
    ensures Advance(s, l, n).next.header.columns == s.header.columns
  {
  }

  /** A schema in which every column is named by `ColumnName` of its
      identifier and typed by `Classify`, and no two names clash. */
  predicate WellBuilt(cols: seq<Column>)
  {
    && (forall i :: 0 <= i < |cols| ==> Derived(cols[i]))
    && Distinct(Names(cols))
  }

  /** A column named and typed by its identifier. */
  predicate Derived(c: Column)
  {
    Some(c.name) == ColumnName(c.identifier) && c.kind == Classify(c.identifier)
  }

  lemma FieldsWellBuilt(h: Header, ids: seq<string>, n: nat)
    requires h.columns.Some? ==> WellBuilt(h.columns.value)
    ensures var r := ApplyFields(h, ids, n); r.Applied? ==> WellBuilt(r.header.columns.value)
  {
    var r := ApplyFields(h, ids, n);
    if r.Applied? && h.columns.None? {
      var cols := BuildSchema(ids).value;
      SchemaColumns(ids);
    }
  }

  lemma AdvanceWellBuilt(s: Source, l: Line, n: nat)
    requires s.error.None? && (s.header.columns.Some? ==> WellBuilt(s.header.columns.value))
    ensures var h := Advance(s, l, n).next.header; h.columns.Some? ==> WellBuilt(h.columns.value)
  {
    AdvanceColumns(s, l, n);
    if l.DirectiveText? && l.directive.FieldsLine? {
      FieldsWellBuilt(s.header, l.directive.identifiers, n);
    }
  }

  /** Only an accepted `#Fields` line changes the schema. */
  lemma AdvanceColumns(s: Source, l: Line, n: nat)
    requires s.error.None?
    ensures var h := Advance(s, l, n).next.header;
      || h.columns == s.header.columns
      || (l.DirectiveText? && l.directive.FieldsLine?
          && ApplyFields(s.header, l.directive.identifiers, n).Applied?
          && h == ApplyFields(s.header, l.directive.identifiers, n).header)
  {
    match l
    case Blank =>
    case DataText(_) =>
      AdvanceFrame(s, l, n);
    case DirectiveText(d) =>
      DirectiveHeader(s, d, n);
      if !d.FieldsLine? {
        OtherDirectiveColumns(s.header, d, n);
      }
  }

  /** A directive line leaves the header `ApplyDirective` gives, or the
      old one when that fails. */
  lemma DirectiveHeader(s: Source, d: Directive, n: nat)
    requires s.error.None?
    ensures var r := ApplyDirective(s.header, d, n);
      Advance(s, DirectiveText(d), n).next.header == if r.Applied? then r.header else s.header
  {
  }

  /** A directive other than `#Fields` leaves the schema alone. */
  lemma OtherDirectiveColumns(h: Header, d: Directive, n: nat)
    requires !d.FieldsLine?
    ensures var r := ApplyDirective(h, d, n); r.Applied? ==> r.header.columns == h.columns
  {
  }

  /** A row agrees with a schema: one cell per column, named as the
      column is. */
  predicate Conforms(row: Row, cols: seq<Column>)
  {
    |row| == |cols| && forall i :: 0 <= i < |row| ==> row[i].name == cols[i].name
  }

  /** A row is only produced once a schema is set, and it follows it. */
  lemma AdvanceConforms(s: Source, l: Line, n: nat)
    requires s.error.None?
    ensures var st := Advance(s, l, n);
      st.row.Some? ==> s.header.columns.Some? && Conforms(st.row.value, s.header.columns.value)
  {
    if l.DataText? && s.header.columns.Some? && |l.tokens| == |s.header.columns.value| {
      DecodedCells(s.header.columns.value, l.tokens);
    }
  }

  /** Whatever `#Fields` established is the schema every row follows:
      each row has one attribute per identifier, in `#Fields` order, named
      by the identifier's column name, and the names are pairwise distinct. */
  lemma RowsFollowSchema(ls: seq<Line>, k: nat)
    requires k <= |ls|
    ensures var p := Scan(ls, k); var h := p.source.header;
      && (h.columns.Some? ==> WellBuilt(h.columns.value))
      && (|p.rows| > 0 ==> h.columns.Some?)
      && forall j :: 0 <= j < |p.rows| ==> Conforms(p.rows[j], h.columns.value)
  {
    ScanWellBuilt(ls, k);
    ScanConforms(ls, k);
  }

  /** The schema, once set, stays well built. */
  lemma {:induction false} ScanWellBuilt(ls: seq<Line>, k: nat)
    requires k <= |ls|
    ensures var h := Scan(ls, k).source.header; h.columns.Some? ==> WellBuilt(h.columns.value)
  {
    if k > 0 {
      ScanWellBuilt(ls, k - 1);
      var p := Scan(ls, k - 1);
      if p.source.error.None? {
        AdvanceWellBuilt(p.source, ls[k - 1], k);
        assert Scan(ls, k).source.header == Advance(p.source, ls[k - 1], k).next.header;
      } else {
        assert Scan(ls, k) == p;
      }
    }
  }

  /** Every row produced follows the schema in force. */
  lemma {:induction false} ScanConforms(ls: seq<Line>, k: nat)
    requires k <= |ls|
    ensures var p := Scan(ls, k); var h := p.source.header;
      && (|p.rows| > 0 ==> h.columns.Some?)
      && forall j :: 0 <= j < |p.rows| ==> Conforms(p.rows[j], h.columns.value)
  {
    if k > 0 {
      ScanConforms(ls, k - 1);
      var p := Scan(ls, k - 1);
      if p.source.error.None? {
        AdvanceFrame(p.source, ls[k - 1], k);
        AdvanceConforms(p.source, ls[k - 1], k);
        if p.source.header.columns.Some? {
          ColumnsStay(p.source, ls[k - 1], k);
        }
      }
    }
  }

  /** Until a fatal error, every data line yields exactly one row or one
      warning, and blank and directive lines yield neither. */
  lemma {:induction false} RowsAndWarnings(ls: seq<Line>, k: nat)
    requires k <= |ls|
    ensures var p := Scan(ls, k);
      p.source.error.None? ==> |p.rows| + |p.source.warnings| == DataLines(ls, k)
  {
    if k > 0 {
      RowsAndWarnings(ls, k - 1);
      var p := Scan(ls, k - 1);
      if p.source.error.None? {
        AdvanceFrame(p.source, ls[k - 1], k);
      }
    }
  }

  /** Each warning names one of the first `k` lines, and that line is a
      data line. */
  predicate OnDataLines(ws: seq<Warning>, ls: seq<Line>, k: nat)
    requires k <= |ls|
  {
    forall j :: 0 <= j < |ws| ==> 1 <= ws[j].line <= k && ls[ws[j].line - 1].DataText?
  }

  lemma {:induction false} WarningsOnDataLines(ls: seq<Line>, k: nat)
    requires k <= |ls|
    ensures OnDataLines(Scan(ls, k).source.warnings, ls, k)
  {
    if k > 0 {
      WarningsOnDataLines(ls, k - 1);
      var p := Scan(ls, k - 1);
      if p.source.error.None? {
        ScanNext(ls, k - 1, ls[k - 1]);
        WarningStep(p.source, ls, k);
      }
    }
  }

  /** One step keeps every warning on a data line. */
  lemma WarningStep(s: Source, ls: seq<Line>, k: nat)
    requires 0 < k <= |ls| && s.error.None? && OnDataLines(s.warnings, ls, k - 1)
    ensures OnDataLines(Advance(s, ls[k - 1], k).next.warnings, ls, k)
  {
    AdvanceWarnings(s, ls[k - 1], k);
    var ws := Advance(s, ls[k - 1], k).next.warnings;
    var m := |s.warnings|;
    forall j | 0 <= j < |ws| ensures 1 <= ws[j].line <= k && ls[ws[j].line - 1].DataText? {
      if j < m {
        assert ws[j] == ws[..m][j];
      }
    }
  }

  /** The first data line with no `#Fields` before it is a fields error,
      whether or not `#Version` was seen. */
  lemma MissingFields(ls: seq<Line>, k: nat)
    requires k < |ls| && ls[k].DataText?
    requires Scan(ls, k).source.error.None? && Scan(ls, k).source.header.columns.None?
    ensures var e := Scan(ls, k + 1).source.error; e.Some? && KindOf(e.value.problem) == FieldsError && e.value.line == k + 1
  {
  }

  /** With `#Fields` but no `#Version`, the first data line is a version
      error. */
  lemma MissingVersion(ls: seq<Line>, k: nat)
    requires k < |ls| && ls[k].DataText?
    requires Scan(ls, k).source.error.None?
    requires Scan(ls, k).source.header.columns.Some? && Scan(ls, k).source.header.version.None?
    ensures var e := Scan(ls, k + 1).source.error; e.Some? && KindOf(e.value.problem) == VersionError && e.value.line == k + 1
  {
  }

  /** A `#Version` line is accepted exactly when it is the first and says
      `1.0`; otherwise, as when its value is not `<digits>.<digits>`, it
      is a version error. */
  lemma VersionDirective(h: Header, d: Directive, n: nat)
    requires d.VersionLine? || d.MalformedVersion?
    ensures ApplyDirective(h, d, n).Applied? <==> d.VersionLine? && d.text == "1.0" && h.version.None?
    ensures ApplyDirective(h, d, n).Failed? ==> KindOf(ApplyDirective(h, d, n).error.problem) == VersionError
  {
  }

  /** A `#Fields` line is accepted exactly when it is the first, lists at
      least one identifier, and its column names are distinct;
      otherwise it is a fields error. */
  lemma FieldsDirective(h: Header, ids: seq<string>, n: nat)
    requires forall i :: 0 <= i < |ids| ==> |ids[i]| > 0
    ensures var r := ApplyFields(h, ids, n);
      && (r.Applied? <==> h.columns.None? && |ids| > 0 && Distinct(Names(BuildSchema(ids).value)))
      && (r.Failed? ==> KindOf(r.error.problem) == FieldsError)
      && (r.Applied? ==> Identifiers(r.header.columns.value) == ids)
  {
    FieldsFailKind(h, ids, n);
    FieldsAccepted(h, ids, n);
  }

  lemma FieldsAccepted(h: Header, ids: seq<string>, n: nat)
    requires forall i :: 0 <= i < |ids| ==> |ids[i]| > 0
    ensures var r := ApplyFields(h, ids, n);
      && (r.Applied? <==> h.columns.None? && |ids| > 0 && Distinct(Names(BuildSchema(ids).value)))
      && (r.Applied? ==> Identifiers(r.header.columns.value) == ids)
  {
    if h.columns.None? && |ids| > 0 {
      assert BuildSchema(ids).Some?;
      var cols := BuildSchema(ids).value;
      if Distinct(Names(cols)) {
        assert ApplyFields(h, ids, n) == Applied(h.(columns := Some(cols)));
        SchemaIdentifiers(ids);
      }
    }
  }

  /** Every way a `#Fields` line can fail is a fields error. */
  lemma FieldsFailKind(h: Header, ids: seq<string>, n: nat)
    ensures var r := ApplyFields(h, ids, n); r.Failed? ==> KindOf(r.error.problem) == FieldsError
  {
  }

  /** The schema keeps the identifiers it was built from. */
  lemma SchemaIdentifiers(ids: seq<string>)
    requires BuildSchema(ids).Some?
    ensures Identifiers(BuildSchema(ids).value) == ids
  {
    var cols := BuildSchema(ids).value;
    SchemaColumns(ids);
    assert forall i :: 0 <= i < |ids| ==> Identifiers(cols)[i] == ids[i];
  }

  /** Two identifiers with the same column name make `#Fields` a fields
      error. */
  lemma ClashingNames(h: Header, ids: seq<string>, n: nat, i: nat, j: nat)
    requires forall x :: 0 <= x < |ids| ==> |ids[x]| > 0
    requires i < j < |ids| && ColumnName(ids[i]) == ColumnName(ids[j])
    ensures ApplyFields(h, ids, n).Failed?
  {
    assert BuildSchema(ids).Some?;
    var cols := BuildSchema(ids).value;
    SchemaColumns(ids);
    assert cols[i].name == cols[j].name;
    assert Names(cols)[i] == Names(cols)[j];
    assert !Distinct(Names(cols));
  }

  /** A `#` line that is no known directive is a directive error, whatever
      the header holds. */
  lemma UnknownDirective(s: Source, line: string, n: nat)
    requires s.error.None? && IsDirectiveLine(line) && ParseDirective(line).UnknownLine?
    ensures var e := Advance(s, Read(line), n).next.error; e.Some? && KindOf(e.value.problem) == DirectiveError
  {
    var l := Read(line);
    assert l == DirectiveText(UnknownLine);
    UnknownStep(s, n);
  }

  lemma UnknownStep(s: Source, n: nat)
    requires s.error.None?
    ensures Advance(s, DirectiveText(UnknownLine), n).next.error == Some(Fatal(UnrecognizedDirective, n))
  {
  }

  /** `date` is `#Date` when there is one, else `#Start-Date`. */
  lemma DateFallback(h: Header, t: DateTime, u: DateTime, n: nat)
    ensures ApplyDirective(ApplyDirective(h, DateLine(t), n).header, StartDateLine(u), n).header.date == Some(t)
    ensures !h.dated ==> ApplyDirective(h, StartDateLine(u), n).header.date == Some(u)
    ensures ApplyDirective(ApplyDirective(h, StartDateLine(u), n).header, DateLine(t), n).header.date == Some(t)
  {
  }

  /** A data line whose token count matches the schema but one of whose
      tokens does not convert yields one warning for that line and no
      row; the header and the error state are untouched. */
  lemma BadTokenWarns(s: Source, tokens: seq<string>, n: nat, i: nat)
    requires s.error.None? && s.header.columns.Some? && s.header.version.Some?
    requires |tokens| == |s.header.columns.value| && i < |tokens|
    requires Convert(s.header.columns.value[i].kind, tokens[i]).None?
    ensures var st := Advance(s, DataText(tokens), n);
      && st.row.None? && st.next.header == s.header && st.next.error.None?
      && |st.next.warnings| == |s.warnings| + 1 && st.next.warnings[|s.warnings|].line == n
      && st.next.warnings[|s.warnings|].reason.BadValue?
  {
    DecodedCells(s.header.columns.value, tokens);
  }

  /** A data line with the wrong number of tokens yields one warning
      naming both counts, and no row. */
  lemma FieldCountWarns(s: Source, tokens: seq<string>, n: nat)
    requires s.error.None? && s.header.columns.Some? && s.header.version.Some?
    requires |tokens| != |s.header.columns.value|
    ensures Advance(s, DataText(tokens), n) ==
      Step(s.(warnings := s.warnings + [Warning(n, FieldCount(|s.header.columns.value|, |tokens|))]), None)
  {
  }

  /** `p-x` with an entity prefix `p` is the identifier `x` with that
      prefix. */
  lemma PrefixedField(p: string, x: string)
    requires IsEntityPrefix(p) && |x| > 0 && '(' !in x
    ensures ParseField(p + "-" + x) == PlainField(Some(p), x)
  {
    var t := p + "-" + x;
    assert '(' !in p && '-' !in p;
    assert t == p + ("-" + x);
    FindAppend(p, "-" + x, '(');
    FindAppend(p, "-" + x, '-');
    FindAppend("-", x, '(');
    assert t[..|p|] == p && t[|p| + 1..] == x;
  }

  /** The column types of the identifiers in the test logs. */
  lemma ClassifyClientIp()
    ensures Classify("c-ip") == AddressKind
  {
    var t := "c-ip";
    assert EndsWith(t, "-ip");
    assert t == "c" + "-" + "ip";
    PrefixedField("c", "ip");
  }

  lemma ClassifyServerPort()
    ensures Classify("s-port") == IntKind
  {
    var t := "s-port";
    assert EndsWith(t, "-port");
    assert !EndsWith(t, "-ip") by { assert t[|t| - 1] == 't'; }
    assert t == "s" + "-" + "port";
    PrefixedField("s", "port");
  }

  lemma ClassifyStatus()
    ensures Classify("sc-status") == IntKind
  {
    var t := "sc-status";
    assert EndsWith(t, "-status");
    assert !EndsWith(t, "-ip") by { assert t[|t| - 1] == 's'; }
    assert t == "sc" + "-" + "status";
    PrefixedField("sc", "status");
  }

  lemma ClassifyBytes()
    ensures Classify("sc-bytes") == IntKind
  {
    var t := "sc-bytes";
    assert EndsWith(t, "-bytes");
    assert !EndsWith(t, "-ip") by { assert t[|t| - 1] == 's'; }
    assert t == "sc" + "-" + "bytes";
    PrefixedField("sc", "bytes");
  }

  lemma ClassifyUriStem()
    ensures Classify("cs-uri-stem") == UrlKind
  {
    var t := "cs-uri-stem";
    assert t[3..6] == "uri";
    ContainsAt(t, "uri", 3);
    assert t == "cs" + "-" + "uri-stem";
    PrefixedField("cs", "uri-stem");
    var f := ParseField(t);
    assert f.identifier == "uri-stem";
    assert f.identifier != "date" && f.identifier != "time" && f.identifier != "time-taken";
    assert !EndsWith(t, "-ip") && !EndsWith(t, "-port") by { assert t[|t| - 1] == 'm'; }
    assert !EndsWith(t, "-status") && !EndsWith(t, "-bytes") by { assert t[|t| - 1] == 'm'; }
  }

  lemma ClassifyMethod()
    ensures Classify("cs-method") == StringKind
  {
    var t := "cs-method";
    assert 'u' !in t;
    assert t == "cs" + "-" + "method";
    PrefixedField("cs", "method");
    var f := ParseField(t);
    assert f.identifier == "method";
    assert f.identifier != "date" && f.identifier != "time" && f.identifier != "time-taken";
    assert !EndsWith(t, "-ip") && !EndsWith(t, "-port") by { assert t[|t| - 1] == 'd'; }
    assert !EndsWith(t, "-status") && !EndsWith(t, "-bytes") by { assert t[|t| - 1] == 'd'; }
    NotContainsHead(t, "uri");
  }

  // The header fields of the test logs, cut at their parts.

  lemma UserAgentText()
    ensures "cs(User-Agent)" == "cs" + "(" + "User-Agent" + ")"
    ensures "cs_User_Agent" == "cs" + "_" + "User_Agent"
  {
  }

  lemma ReferrerText()
    ensures "cs(Referrer)" == "cs" + "(" + "Referrer" + ")"
    ensures "cs_Referrer" == "cs" + "_" + "Referrer"
  {
  }

  lemma UserAgentForm()
    ensures ColumnName("cs(User-Agent)") == Some("cs" + "_" + SanitizeName("User-Agent").value)
    ensures ParseField("cs(User-Agent)").HeaderField?
  {
    UserAgentText();
    HeaderColumnName("cs", "User-Agent");
    HeaderFieldParse("cs", "User-Agent");
  }

  lemma ReferrerForm()
    ensures ColumnName("cs(Referrer)") == Some("cs" + "_" + SanitizeName("Referrer").value)
    ensures ParseField("cs(Referrer)").HeaderField?
  {
    ReferrerText();
    HeaderColumnName("cs", "Referrer");
    HeaderFieldParse("cs", "Referrer");
  }

  /** The header columns of the test logs keep their header's name
      without a trailing `_`. */
  lemma UserAgentColumnName()
    ensures ColumnName("cs(User-Agent)") == Some("cs_User_Agent")
  {
    UserAgentForm();
    UserAgentText();
    SanitizeUserAgentExample();
  }

  lemma ReferrerColumnName()
    ensures ColumnName("cs(Referrer)") == Some("cs_Referrer")
  {
    ReferrerForm();
    ReferrerText();
    SanitizeReferrerExample();
  }

  /** The identifiers of the `#Fields` line of the test logs. */
  function InternetFields(): seq<string>
  {
    ["date", "time", "c-ip", "cs-username", "s-ip", "s-port", "cs-method", "cs-uri-stem", "cs-uri-query",
     "sc-status", "sc-bytes", "cs-bytes", "time-taken", "cs(User-Agent)", "cs(Referrer)"]
  }

  /** The schema of that line has fifteen columns, the last two being the
      string columns `cs_User_Agent` and `cs_Referrer`. */
  lemma InternetHeaderColumns()
    ensures var s := BuildSchema(InternetFields());
      && s.Some? && |s.value| == 15
      && s.value[13] == Column("cs(User-Agent)", "cs_User_Agent", StringKind)
      && s.value[14] == Column("cs(Referrer)", "cs_Referrer", StringKind)
  {
    var ids := InternetFields();
    assert forall i :: 0 <= i < |ids| ==> |ids[i]| > 0;
    SchemaColumn(ids, 13);
    SchemaColumn(ids, 14);
    UserAgentForm();
    UserAgentColumnName();
    ReferrerForm();
    ReferrerColumnName();
  }

  /** `sub` occurs in `s` at `i`. */
  lemma {:induction false} ContainsAt(s: string, sub: string, i: nat)
    requires i + |sub| <= |s| && s[i..i + |sub|] == sub
    ensures Contains(s, sub)
    decreases i
  {
    if i > 0 {
      assert s[1..][i - 1..i - 1 + |sub|] == s[i..i + |sub|];
      ContainsAt(s[1..], sub, i - 1);
    }
  }

  /** A text that lacks the first character of `sub` does not contain it. */
  lemma {:induction false} NotContainsHead(s: string, sub: string)
    requires |sub| > 0 && sub[0] !in s
    ensures !Contains(s, sub)
    decreases |s|
  {
    if |sub| <= |s| {
      assert s[..|sub|][0] == s[0];
      NotContainsHead(s[1..], sub);
    }
  }

  /** An address column refuses every token that is no address. */
  lemma AddressConvert(t: string)
    requires !IsPlaceholder(t) && ParseAddress(t).None?
    ensures Convert(AddressKind, t).None?
  {
  }

  /** The bad tokens of the data-warning tests: `172.224.24.300` (an octet
      over 255) and `foo.bar` (no address at all). */
  lemma BadAddressTokens()
    ensures Convert(AddressKind, "172.224.24.300").None?
    ensures Convert(AddressKind, "foo.bar").None?
  {
    BadOctetExample();
    FooBarAddressExample();
    AddressConvert("172.224.24.300");
    AddressConvert("foo.bar");
  }

  /** The informational directives never fail: `#Software` sets the
      exposed software, a `#Date` or `#Start-Date` may set the date, and
      none of them touches the version or the schema. */
  lemma HeaderDirectivesApply(h: Header, d: Directive, n: nat)
    requires d.SoftwareLine? || d.RemarkLine? || d.DateLine? || d.StartDateLine? || d.EndDateLine?
    ensures ApplyDirective(h, d, n).Applied?
    ensures var g := ApplyDirective(h, d, n).header;
      && g.version == h.version && g.columns == h.columns
      && g.software == (if d.SoftwareLine? then Some(d.software) else h.software)
      && (d.SoftwareLine? || d.RemarkLine? || d.EndDateLine? ==> g.date == h.date)
  {
  }

  /** A log made of `#Version: 1.0`, a `#Fields` line and one data line
      whose every token converts yields exactly that one row, with one
      attribute per identifier in `#Fields` order, and no warning and no
      error; the header exposes the version and the fields. */
  lemma OneRowLog(ids: seq<string>, tokens: seq<string>)
    requires |ids| > 0 && forall i :: 0 <= i < |ids| ==> |ids[i]| > 0
    requires Distinct(Names(BuildSchema(ids).value))
    requires |tokens| == |ids| && forall i :: 0 <= i < |ids| ==> Convert(Classify(ids[i]), tokens[i]).Some?
    ensures var ls := [DirectiveText(VersionLine("1.0")), DirectiveText(FieldsLine(ids)), DataText(tokens)];
      var p := Scan(ls, 3);
      var cols := BuildSchema(ids).value;
      && p.source.error.None? && p.source.warnings == []
      && p.source.header.version == Some("1.0") && Fields(p.source.header) == ids
      && |p.rows| == 1 && |p.rows[0]| == |ids|
      && forall i :: 0 <= i < |ids| ==> p.rows[0][i] == Cell(cols[i].name, Convert(Classify(ids[i]), tokens[i]).value)
  {
    var ls := [DirectiveText(VersionLine("1.0")), DirectiveText(FieldsLine(ids)), DataText(tokens)];
    var schema := BuildSchema(ids);
    assert schema.Some?;
    var cols := schema.value;
    var h1 := EmptyHeader.(version := Some("1.0"));
    var h2 := h1.(columns := schema);
    var r := DecodeCells(cols, tokens);
    SchemaColumns(ids);
    DecodedCells(cols, tokens);
    assert Scan(ls, 1) == Progress(Source(h1, [], None), []) by {
      VersionFirst(ls);
    }
    assert ApplyDirective(h1, FieldsLine(ids), 2) == Applied(h2) by {
      FieldsSet(h1, ids, 2);
      FieldsDispatch(h1, ids, 2);
    }
    assert Scan(ls, 2) == Progress(Source(h2, [], None), []) by {
      DirectiveSecond(ls, h1, h2);
    }
    assert Scan(ls, 3) == Progress(Source(h2, [], None), [r.row]) by {
      GoodDataLine(h2, tokens, 3);
      ScanStep(ls, 2, ls[2], Source(h2, [], None), []);
    }
    assert Fields(h2) == ids by { SchemaIdentifiers(ids); }
  }

  /** `#Version: 1.0` as the first line sets the version. */
  lemma VersionFirst(ls: seq<Line>)
    requires |ls| >= 1 && ls[0] == DirectiveText(VersionLine("1.0"))
    ensures Scan(ls, 1) == Progress(Source(EmptyHeader.(version := Some("1.0")), [], None), [])
  {
    DirectiveStep(EmptyHeader, [], VersionLine("1.0"), 1, EmptyHeader.(version := Some("1.0")));
    ScanStep(ls, 0, ls[0], Fresh, []);
  }

  /** A second line that is a directive applying to the header `h` makes
      it `g`. */
  lemma DirectiveSecond(ls: seq<Line>, h: Header, g: Header)
    requires |ls| >= 2 && ls[1].DirectiveText? && Scan(ls, 1) == Progress(Source(h, [], None), [])
    requires ApplyDirective(h, ls[1].directive, 2) == Applied(g)
    ensures Scan(ls, 2) == Progress(Source(g, [], None), [])
  {
    DirectiveStep(h, [], ls[1].directive, 2, g);
    ScanStep(ls, 1, ls[1], Source(h, [], None), []);
  }

  /** A directive that applies changes the header and nothing else. */
  lemma DirectiveStep(h: Header, ws: seq<Warning>, d: Directive, n: nat, g: Header)
    requires ApplyDirective(h, d, n) == Applied(g)
    ensures Advance(Source(h, ws, None), DirectiveText(d), n) == Step(Source(g, ws, None), None)
  {
  }

  /** An accepted `#Fields` line sets the schema and nothing else. */
  lemma FieldsSet(h: Header, ids: seq<string>, n: nat)
    requires h.columns.None? && |ids| > 0 && BuildSchema(ids).Some?
    requires Distinct(Names(BuildSchema(ids).value))
    ensures ApplyFields(h, ids, n) == Applied(h.(columns := BuildSchema(ids)))
  {
  }

  /** A `#Fields` directive is read by `ApplyFields`. */
  lemma FieldsDispatch(h: Header, ids: seq<string>, n: nat)
    ensures ApplyDirective(h, FieldsLine(ids), n) == ApplyFields(h, ids, n)
  {
  }

  /** A data line every token of which converts, read under a header with
      a version and a schema of as many columns, yields its decoded row. */
  lemma GoodDataLine(h: Header, tokens: seq<string>, n: nat)
    requires h.version.Some? && h.columns.Some? && |tokens| == |h.columns.value|
    requires forall i :: 0 <= i < |tokens| ==> Convert(h.columns.value[i].kind, tokens[i]).Some?
    ensures DecodeCells(h.columns.value, tokens).Decoded?
    ensures Advance(Source(h, [], None), DataText(tokens), n)
      == Step(Source(h, [], None), Some(DecodeCells(h.columns.value, tokens).row))
  {
    DecodedCells(h.columns.value, tokens);
  }

  // ----------------------------------------------------------------------
  // The line-driven source
  // ----------------------------------------------------------------------

  /** `W3CSource`: a reader over the lines of a log. `cursor` lines have
      been read; the header, the warnings and the fatal error are those
      `Scan` gives after them, and `produced` holds the rows yielded so
      far. */
  class W3CSource {
    const lines: seq<string>
    /** The lines, each read on its own. */
    ghost const log: seq<Line>
    var cursor: nat
    var header: Header
    var warnings: seq<Warning>
    var error: Option<Fatal>
    ghost var produced: seq<Row>

    ghost predicate Valid()
      reads this
    {
      && log == ReadAll(lines)
      && cursor <= |lines|
      && Scan(log, cursor) == Progress(Source(header, warnings, error), produced)
    }

    constructor(lines: seq<string>)
      ensures Valid() && this.lines == lines && cursor == 0
      ensures header == EmptyHeader && warnings == [] && error.None? && produced == []
    {
      this.lines := lines;
      log := ReadAll(lines);
      cursor := 0;
      header := EmptyHeader;
      warnings := [];
      error := None;
      produced := [];
    }

    /** Reads the line under the cursor. */
    method ReadLine() returns (row: Option<Row>)
      requires Valid() && cursor < |lines| && error.None?
      modifies this
      ensures Valid() && cursor == old(cursor) + 1
      ensures produced == old(produced) + (if row.Some? then [row.value] else [])
      ensures row.Some? ==> header == old(header) && warnings == old(warnings) && error.None?
    {
      var l := Read(lines[cursor]);
      ReadAllAt(lines, cursor);
      row := Take(l);
    }

    /** Applies the line under the cursor, already read as `l`. */
    method Take(l: Line) returns (row: Option<Row>)
      requires Valid() && cursor < |lines| && error.None? && l == log[cursor]
      modifies this
      ensures Valid() && cursor == old(cursor) + 1
      ensures produced == old(produced) + (if row.Some? then [row.value] else [])
      ensures row.Some? ==> header == old(header) && warnings == old(warnings) && error.None?
    {
      var s := Source(header, warnings, error);
      var st := Advance(s, l, cursor + 1);
      ghost var rows := produced + (if st.row.Some? then [st.row.value] else []);
      assert Scan(log, cursor + 1) == Progress(st.next, rows) by {
        ScanStep(log, cursor, l, s, produced);
      }
      assert st.row.Some? ==> st.next == s by {
        AdvanceFrame(s, l, cursor + 1);
      }
      header, warnings, error := st.next.header, st.next.warnings, st.next.error;
      cursor := cursor + 1;
      row := st.row;
      if row.Some? {
        produced := produced + [row.value];
      }
    }

    /** The next row, reading lines until one yields it; `None` once the
        lines are exhausted or a fatal error has been found. */
    method Next() returns (row: Option<Row>)
      requires Valid()
      modifies this
      ensures Valid() && old(cursor) <= cursor
      ensures produced == old(produced) + (if row.Some? then [row.value] else [])
      ensures row.None? ==> cursor == |lines| || error.Some?
    {
      row := None;
      while row.None? && cursor < |lines| && error.None?
        invariant Valid() && old(cursor) <= cursor
        invariant produced == old(produced) + (if row.Some? then [row.value] else [])
        decreases |lines| - cursor
      {
        row := ReadLine();
      }
    }

    /** All remaining rows, and the fatal error that ended the reading, if
        any: together with the rows already yielded they are what the
        whole log gives. */
    method ReadRows() returns (rows: seq<Row>, failure: Option<W3CError>)
      requires Valid()
      modifies this
      ensures Valid()
      ensures old(produced) + rows == Scan(log, |lines|).rows
      ensures Source(header, warnings, error) == Scan(log, |lines|).source
      ensures failure.Some? <==> error.Some?
      ensures error.Some? ==> failure == Some(Raised(error.value))
    {
      rows := [];
      while cursor < |lines| && error.None?
        invariant Valid()
        invariant produced == old(produced) + rows
        decreases |lines| - cursor
      {
        var row := ReadLine();
        if row.Some? {
          rows := rows + [row.value];
        }
      }
      if cursor < |lines| {
        ScanStops(log, cursor, |lines|);
      }
      failure := if error.Some? then Some(Raised(error.value)) else None;
    }
  }
}
