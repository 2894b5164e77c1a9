# www2csv W3C log reader: a Dafny model

This project models the core of `www2csv`, which converts web-server access logs in the W3C Extended Log File Format (W3C Working Draft WD-logfile-960323) into typed rows. The implementation modules `www2csv/w3c.py` and `www2csv/datatypes.py` are not part of this model. The behaviour modelled here is the behaviour their tests pin down, in `tests/test_w3c.py` and `tests/test_datatypes.py`.

The model has these modules:

- `Wrappers`: `Option`.
- `Text`: shared string helpers in Python's terms:
  - ASCII `lower`, `strip` and `split`, where whitespace is the ASCII characters Python's `str.isspace` accepts: space, tab, line feed, carriage return, vertical tab, form feed and `\x1c` to `\x1f`;
  - `str.split()` on whitespace runs (`Words`), which tokenizes data lines and `#Fields` values;
  - decimal and hexadecimal numerals.
- `Temporal`: the `date`, `time` and `datetime` constructors.
  - Each accepts exactly `YYYY-MM-DD`, `HH:MM:SS` (24-hour clock) or `YYYY-MM-DD HH:MM:SS`, on a valid calendar date.
- `Hostnames`: `Hostname` validation, following section 2.3.4 of RFC 1035.
  - Each dot-separated label has 1 to 63 characters, made of ASCII letters, digits and hyphens, with no hyphen at either end.
  - There is no empty label.
  - The whole name has at most 255 characters.
- `Addresses`: the four address variants `IPv4Address`, `IPv4Port`, `IPv6Address` and `IPv6Port`.
  - Each is stored as its binary groups plus an optional 16-bit port.
  - `ParseAddress` is the `address()` dispatcher.
  - `Display` gives the canonical text:
    - lower-case IPv6 with the first longest run of zero groups compressed (section 4 of RFC 5952);
    - brackets only when a port is present (section 6 of RFC 5952).
- `Urls`: `Url`, the six components of `urlparse`, split as CPython's `urllib.parse` does (section 3 of RFC 3986). The split mixes releases; see "## Left out".
- `Filenames`: the `Filename` constructor, which refuses `<`, `>` and `*`, and its string-only derived forms `basename`, `dirname`, `isabs`, `normcase` and `normpath`, all as `posixpath` does them.
- `Literals`: the token parsers of `w3c.py` (`int_parse`, `fixed_parse`, `date_parse`, `time_parse`, `string_parse`, `name_parse`, `address_parse` and `url_parse`) and `sanitize_name`.
  - Each parser's result is `Null` for the placeholder `-`, `Value(v)`, or `Invalid` (the `ValueError`).
- `W3C`: directive lines, the schema built from `#Fields`, row decoding, and the `W3CSource` class.
  - `Advance` is one step of the reader, and `Scan` is its run over the first `k` lines.
  - `Scan` is the specification the class is proved against.
  - The class keeps a line cursor and the header, warnings and fatal error read so far. Its `Valid()` ties that state to `Scan` of the lines already consumed.
  - `ReadRows` is the `for row in source` loop. It returns every remaining row, and the exception raised if a fatal error stopped the reading.

Decisions the tests leave open:

- A directive line with a malformed value works differently depending on the directive:
  - a malformed `#Version` value (`#Version: foo`) raises the version error;
  - a `#Date`, `#Start-Date` or `#End-Date` whose value is not a full timestamp matches no directive pattern (`tests/test_w3c.py:58`, `62` and `66`), so it raises the directive error.
- `#Software` keeps the last value seen.
- `#Date` takes precedence over `#Start-Date` for the exposed `date`, whichever comes first.
- At the first data line, a missing `#Fields` is reported before a missing `#Version`.
- Errors are raised at the line that shows them:
  - a second `#Version` or `#Fields` line;
  - an unknown directive;
  - the first data line when `#Fields` or `#Version` is still missing.
- A data line is dropped with a warning in two cases:
  - its token count differs from the schema's;
  - one of its tokens does not convert.
- A column's attribute name is `sanitize_name` of its identifier, except for a header field `entity(header)`. Such a field is named `entity_` followed by the sanitized header, with no `_` for the closing parenthesis: `cs(User-Agent)` gives `cs_User_Agent` (`tests/test_w3c.py:234`), although `sanitize_name('cs(User-Agent)')` is `cs_User_Agent_` (`tests/test_w3c.py:89`).
- A column's type is chosen by the first rule that matches:
  - a header field `entity(header)` is a string column;
  - a name `date` or `time` (after any entity prefix) is a date or time column;
  - an identifier ending in `-ip` is an address column;
  - an identifier ending in `-port`, `-status` or `-bytes` is an integer column;
  - the name `time-taken` is a fixed-point column;
  - an identifier containing `uri` anywhere is a URL column. The tests only show `cs-uri-stem` and `cs-uri-query` (tests/test_w3c.py:205, 228-229), so `cs-security-uri-x` or `x-curious` would be URL columns too;
  - every other identifier is a string column.
- `string_parse` first decodes `%XX` and `+`, then removes one enclosing pair of quotes, then collapses `""` to `"`.
- Ports are 0 to 65535.
- IPv4 octets have no leading zeros.
- IPv6 text has at most one `::` and 1 to 4 hexadecimal digits per group. Embedded IPv4 tails are not accepted.

## Model

| member | source | states |
|---|---|---|
| Literals.IntParse | tests/test_w3c.py:101-102 | `int_parse` gives null exactly for the token `-` |
| Literals.IntRoundTrip | tests/test_w3c.py:101-105 | every integer's decimal text (with `-` when negative) reads back as that integer |
| Literals.IntNegation | tests/test_w3c.py:104 | `-` followed by digits reads as the negated value of the digits |
| Literals.IntExamples | tests/test_w3c.py:101-107 | `-` is null, `0`, `-1` and `101` read as their values, `abc` is refused |
| Literals.FixedParse | tests/test_w3c.py:109-110 | `fixed_parse` gives null exactly for `-` |
| Literals.FixedOfInt | tests/test_w3c.py:109-114 | every integer token is a fixed-point token with the same value |
| Literals.FixedRoundTrip | tests/test_w3c.py:109-114 | the text `q.r` with `r` padded to `k` places reads back as `q + r/10^k` |
| Literals.FixedOfPointed | tests/test_w3c.py:112-113 | digits, a point and digits read as the decimal they spell |
| Literals.FixedNegative | tests/test_w3c.py:114 | a leading `-` negates the value of an unsigned token |
| Literals.TrailingPoint | tests/test_w3c.py:111-112 | `n.` has the same value as `n` |
| Literals.TrailingZero | tests/test_w3c.py:112-113 | a trailing zero after the point does not change the value |
| Literals.NotNumeric | tests/test_w3c.py:106-107 | a token starting with neither a digit nor `-` is refused by both `int_parse` and `fixed_parse` |
| Literals.FixedZeroExample | tests/test_w3c.py:111 | `0` reads as 0.0 |
| Literals.FixedPointExample | tests/test_w3c.py:112 | `0.` reads as 0.0 |
| Literals.FixedPointZeroExample | tests/test_w3c.py:113 | `0.0` reads as 0.0 |
| Literals.FixedNegativeExample | tests/test_w3c.py:114 | `-101.5` reads as -101.5 |
| Literals.FixedRejectExample | tests/test_w3c.py:110-116 | `-` is null and `abc` is refused |
| Literals.DateParse | tests/test_w3c.py:118-119 | null exactly for `-`; a date it returns is a valid calendar date whose `YYYY-MM-DD` text is the token |
| Literals.TimeParse | tests/test_w3c.py:129-130 | null exactly for `-`; a time it returns is a valid 24-hour time whose `HH:MM:SS` text is the token |
| Literals.DateParseOf | tests/test_w3c.py:118-127 | any token other than `-` is read by the `date` constructor alone |
| Literals.TimeParseOf | tests/test_w3c.py:129-138 | any token other than `-` is read by the `time` constructor alone |
| Literals.DateLiteralExamples | tests/test_w3c.py:118-127 | the accepted and refused dates of `test_date_parse` |
| Literals.TimeLiteralExamples | tests/test_w3c.py:129-138 | the accepted and refused times of `test_time_parse` |
| Literals.DecodeEncode | tests/test_w3c.py:140-145 | percent-decoding undoes percent-encoding for every string |
| Literals.UndoubleDouble | tests/test_w3c.py:148-151 | collapsing `""` to `"` undoes doubling every quote |
| Literals.StringParse | tests/test_w3c.py:140-141 | null exactly for `-`; `string_parse` never refuses a token |
| Literals.StringRoundTrip | tests/test_w3c.py:140-151 | every string, encoded, doubled and quoted, reads back as itself |
| Literals.DecodePlus | tests/test_w3c.py:143 | `+` decodes to a space |
| Literals.DecodeEscape | tests/test_w3c.py:144 | `%XY` decodes to the character with hexadecimal code `XY` |
| Literals.DecodePlainText | tests/test_w3c.py:142 | text without `+` or `%` decodes to itself |
| Literals.QuotedPlain | tests/test_w3c.py:146-147 | one enclosing pair of quotes is removed |
| Literals.QuotedDoubled | tests/test_w3c.py:148-151 | inside enclosing quotes, a doubled quote stands for one quote |
| Literals.StringPlaceholderExample | tests/test_w3c.py:141 | `-` is null |
| Literals.StringPlainExample | tests/test_w3c.py:142 | `foo` is `foo` |
| Literals.StringPlusExample | tests/test_w3c.py:143 | `foo+bar` is `foo bar` |
| Literals.StringEscapeExample | tests/test_w3c.py:144 | `%28foo+bar%29` is `(foo bar)` |
| Literals.StringSemicolonExample | tests/test_w3c.py:145 | `(foo;+bar;+baz)` is `(foo; bar; baz)` |
| Literals.StringQuotedExample | tests/test_w3c.py:146-147 | `"foo"` is `foo` and `"foo bar"` is `foo bar` |
| Literals.StringInnerQuotesExample | tests/test_w3c.py:148 | `"""foo"""` is `"foo"` |
| Literals.StringQuotedEmptyExample | tests/test_w3c.py:149 | `""` is the empty string |
| Literals.StringOddQuotesExample | tests/test_w3c.py:150 | `"""` is `"` |
| Literals.StringEvenQuotesExample | tests/test_w3c.py:151 | `""""` is `"` |
| Literals.NameParse | tests/test_w3c.py:153-171 | null exactly for `-`; otherwise a name is returned, unchanged, exactly when it has at most 255 characters and well-formed labels |
| Literals.AddressParse | tests/test_w3c.py:173-174 | null exactly for `-`; every address it returns is valid |
| Literals.PlaceholderIsNoAddress | tests/test_w3c.py:174 | `-` is no address text, so reading it as null hides none |
| Literals.AddressParseRoundTrip | tests/test_w3c.py:175-183 | the canonical text of every valid address reads back as that address, without a port-less bracket |
| Literals.UrlParse | tests/test_w3c.py:93-94 | `url_parse` gives null exactly for `-` |
| Literals.UrlPlain | tests/test_w3c.py:93-99 | a token without `+` or `%` is split by the `url` constructor as it stands |
| Literals.UrlRelativeExample | tests/test_w3c.py:95 | `foo` is the path alone |
| Literals.UrlNetworkPathExample | tests/test_w3c.py:96 | `//foo/bar` has netloc `foo` and no scheme |
| Literals.UrlHttpExample | tests/test_w3c.py:97 | `http://foo/` splits into scheme, netloc and path |
| Literals.UrlQueryExample | tests/test_w3c.py:98 | the query follows `?` |
| Literals.UrlFragmentExample | tests/test_w3c.py:99 | the fragment follows `#` |
| Literals.SanitizeName | tests/test_w3c.py:84-91 | `sanitize_name` refuses exactly the empty identifier |
| Literals.SanitizeNameShape | tests/test_w3c.py:84-89 | same length; every character that is not a letter, a digit or `_` (whitespace included) becomes `_`; every other character, in either case, is kept |
| Literals.SanitizeNameFixed | tests/test_w3c.py:85-86 | an identifier made only of name characters is unchanged |
| Literals.SanitizeNameAppend | tests/test_w3c.py:84-89 | sanitizing works character by character, so it distributes over concatenation |
| Literals.SanitizeNameIdempotent | tests/test_w3c.py:84-89 | sanitizing a sanitized name changes nothing |
| Literals.SanitizeCollision | tests/test_w3c.py:88 | `a-b` and `a_b` have the same sanitized name, which is why names can clash |
| Literals.SanitizeKeepExample | tests/test_w3c.py:85-86 | `foo` and `FOO` are kept |
| Literals.SanitizeSpaceExample | tests/test_w3c.py:87 | ` foo ` becomes `_foo_` |
| Literals.SanitizeDashExample | tests/test_w3c.py:88 | `rs-date` becomes `rs_date` |
| Literals.SanitizeHeaderExample | tests/test_w3c.py:89 | `cs(User-Agent)` becomes `cs_User_Agent_` |
| Literals.SanitizeEmptyExample | tests/test_w3c.py:90-91 | the empty identifier is refused |
| Temporal.ParseDate | tests/test_datatypes.py:92-100 | a date it returns is a valid calendar date |
| Temporal.ParseTime | tests/test_datatypes.py:102-110 | a time it returns has hour below 24 and minute and second below 60 |
| Temporal.ParseDateTime | tests/test_datatypes.py:82-90 | a timestamp it returns is a valid date and a valid time |
| Temporal.DateTextIff | tests/test_datatypes.py:92-100 | `date(s)` is `d` if and only if `d` is valid and `s` is its `YYYY-MM-DD` text |
| Temporal.TimeTextIff | tests/test_datatypes.py:102-110 | `time(s)` is `t` if and only if `t` is valid and `s` is its `HH:MM:SS` text |
| Temporal.DateTimeTextIff | tests/test_datatypes.py:82-90 | `datetime(s)` is `dt` if and only if `dt` is valid and `s` is its `YYYY-MM-DD HH:MM:SS` text |
| Temporal.DateTimeParsedExact | tests/test_datatypes.py:85-90 | only the exact text of a timestamp is accepted |
| Temporal.DateTimeFormatParses | tests/test_datatypes.py:83-84 | every valid timestamp's text reads back as it |
| Temporal.DateExamples | tests/test_datatypes.py:92-100 | the accepted and refused dates of `test_date` |
| Temporal.TimeExamples | tests/test_datatypes.py:102-110 | the accepted and refused times of `test_time` |
| Temporal.DateTimeExample | tests/test_datatypes.py:83 | `2000-01-01 12:34:56` is accepted with its fields |
| Temporal.DateTimeRejects | tests/test_datatypes.py:85-90 | day 32, a trailing `PM` and `foo` are refused |
| Hostnames.MakeHostname | tests/test_datatypes.py:148-153 | a hostname keeps its text, which has at most 255 characters |
| Hostnames.MakeHostnameIff | tests/test_datatypes.py:148-169 | construction succeeds exactly on names of at most 255 characters whose labels are all valid |
| Hostnames.LabelsValidIff | tests/test_datatypes.py:148-169 | checking each part of `split('.')` against the label pattern is the same as the name grammar |
| Hostnames.DotSplitIff | tests/test_datatypes.py:156-169 | `label.rest` is well formed if and only if the label is valid and the rest is well formed |
| Hostnames.RejectedShapes | tests/test_datatypes.py:156-169 | refused: the empty text, a leading or trailing dot or hyphen, `..`, `-.`, `.-`, and more than 255 characters |
| Hostnames.JoinedLabels | tests/test_datatypes.py:148-153 | valid labels joined by dots, within 255 characters, always make a hostname |
| Hostnames.SingleLabel | tests/test_datatypes.py:149 | a single valid label is a hostname |
| Hostnames.LabelLengthExamples | tests/test_datatypes.py:152-167 | a 63-character label is accepted and a 64-character one refused |
| Hostnames.NameExamples | tests/test_datatypes.py:149-151 | `foo` and `localhost` are accepted |
| Hostnames.FooBarExample | tests/test_datatypes.py:150 | `foo.bar` is accepted unchanged |
| Hostnames.LoopbackExample | tests/test_w3c.py:157 | `127.0.0.1` is a well-formed name |
| Hostnames.RejectedNameExamples | tests/test_datatypes.py:156-165 | `foo.`, `.foo.`, `-foo.bar` and `foo.bar-` are refused |
| Filenames.MakeFilename | tests/test_datatypes.py:112-136 | a filename is accepted, unchanged, exactly when it holds no `<`, `>` or `*` |
| Filenames.Basename | tests/test_datatypes.py:117 | the basename holds no `/` and is what follows the head of the path |
| Filenames.SplitJoined | tests/test_datatypes.py:117-118 | `dirname` and `basename` of `a/b` are `a` and `b` |
| Filenames.JoinSplit | tests/test_datatypes.py:117-118 | joining `dirname` and `basename` gives back a path without doubled slashes |
| Filenames.DirnameIsAbs | tests/test_datatypes.py:118-125 | `dirname` keeps a path absolute or relative |
| Filenames.NormCase | tests/test_datatypes.py:137-140 | `normcase` is the identity on POSIX paths |
| Filenames.NormPath | tests/test_datatypes.py:141 | `normpath` never gives the empty string |
| Filenames.NormPathIdempotent | tests/test_datatypes.py:141 | normalizing a normalized path changes nothing |
| Filenames.NormPathIsAbs | tests/test_datatypes.py:124-141 | `normpath` keeps a path absolute or relative |
| Filenames.Collapse | tests/test_datatypes.py:141 | `/a//.//b` normalizes to `/a/b` for any plain names `a` and `b` |
| Filenames.AcceptedExamples | tests/test_datatypes.py:113-115 | `/`, `/bin` and `bin` are accepted |
| Filenames.RejectedExamples | tests/test_datatypes.py:133-136 | `<foo>` and `foo*` are refused |
| Filenames.SplitExample | tests/test_datatypes.py:117-118 | `/foo/bar` has basename `bar` and dirname `/foo` |
| Filenames.IsAbsExamples | tests/test_datatypes.py:124-125 | `/foo/bar` is absolute and `foo/bar` is not |
| Filenames.NormCaseExample | tests/test_datatypes.py:140 | `/FOO/BAR` keeps its case |
| Filenames.CollapseExample | tests/test_datatypes.py:141 | `/FOO//.//BAR` normalizes to `/FOO/BAR` |
| Urls.ParseUrl | tests/test_datatypes.py:75-80 | a split URL's netloc is bracket-balanced and holds no `/`, `?` or `#`; its path holds no `?` or `#`; its query holds no `#` |
| Urls.RoundTrip | tests/test_datatypes.py:75-80 | every well-formed URL, put back together, splits into the same six components |
| Urls.UnbalancedRefused | tests/test_datatypes.py:77 | a network location with an unmatched bracket is refused |
| Urls.RelativeExample | tests/test_datatypes.py:76 | `foo` is the path alone |
| Urls.NetworkPathExample | tests/test_datatypes.py:77 | `//foo/bar` sets the netloc with an empty scheme |
| Urls.HttpExample | tests/test_datatypes.py:78 | `http://foo/` splits into scheme, netloc and path |
| Urls.QueryExample | tests/test_datatypes.py:79 | `http://foo/bar?baz=quux` has query `baz=quux` |
| Urls.FragmentExample | tests/test_datatypes.py:80 | `https://foo/bar#baz` has fragment `baz` |
| Addresses.ParseOctet | tests/test_datatypes.py:172-173 | an octet is at most 255 |
| Addresses.OctetTextIff | tests/test_datatypes.py:172-173 | `t` reads as octet `n` if and only if `n <= 255` and `t` is the decimal numeral of `n` |
| Addresses.ParseHextet | tests/test_datatypes.py:174-179 | a group is at most 0xffff |
| Addresses.ParsePort | tests/test_datatypes.py:187-189 | a port is at most 65535 |
| Addresses.ParseIPv4 | tests/test_datatypes.py:172 | a dotted quad it returns is valid |
| Addresses.IPv4TextIff | tests/test_datatypes.py:172 | `s` reads as IPv4 address `a` if and only if `a` is valid and `s` is its canonical dotted quad |
| Addresses.IPv4RoundTrip | tests/test_datatypes.py:172 | every valid IPv4 address's text reads back as it |
| Addresses.ParseIPv6 | tests/test_datatypes.py:174-179 | an IPv6 address it returns has eight groups of at most 0xffff |
| Addresses.IPv6RoundTrip | tests/test_datatypes.py:174-179 | every valid IPv6 address's canonical text reads back as it |
| Addresses.CompressedParse | tests/test_datatypes.py:177 | a text with any run of groups replaced by `::` reads as the address with those groups zero |
| Addresses.BestRunIsFirstLongest | tests/test_datatypes.py:177-178 | the compressed run is the longest run of zero groups, and the first of the longest |
| Addresses.FormatIPv6Lower | tests/test_datatypes.py:177 | the canonical IPv6 text is lower case |
| Addresses.ParseIPv4Port | tests/test_datatypes.py:173 | `a.b.c.d:p` gives a valid `IPv4Port` |
| Addresses.ParseIPv6Port | tests/test_datatypes.py:175-179 | a bracketed form gives a valid `IPv6Port` |
| Addresses.ParseAddress | tests/test_datatypes.py:171-189 | `address()` returns only valid addresses |
| Addresses.AddressRoundTrip | tests/test_datatypes.py:171-179 | the canonical text of every valid address reads back as it; `[a]` without a port comes back as a bare `IPv6Address` text |
| Addresses.CanonicalIdempotent | tests/test_datatypes.py:171-179 | canonicalization is idempotent: the canonical text of an accepted text reads back to the same canonical text |
| Addresses.IPv4PortRoundTrip | tests/test_datatypes.py:173 | `a.b.c.d:p` reads back as the same `IPv4Port` |
| Addresses.IPv6AddressRoundTrip | tests/test_datatypes.py:174 | the canonical text of an IPv6 address reads back as an `IPv6Address` |
| Addresses.IPv6PortRoundTrip | tests/test_datatypes.py:176 | `[a]:p` reads back as the same `IPv6Port` |
| Addresses.BareIPv6 | tests/test_datatypes.py:174 | an unbracketed IPv6 text is an `IPv6Address` |
| Addresses.BracketedIsIPv6Port | tests/test_datatypes.py:175-176 | any text starting with `[` is read, if at all, as an `IPv6Port` |
| Addresses.Bracketed | tests/test_datatypes.py:175 | `[f]` is the `IPv6Port` of address `f` with no port |
| Addresses.BracketedAddress | tests/test_datatypes.py:176-179 | `[f]:n` is the `IPv6Port` of `f` and port `n`, and is refused when `n` is no port |
| Addresses.NoColonNoAddress | tests/test_datatypes.py:182-185 | text without a colon that is neither a dotted quad nor bracketed is no address |
| Addresses.IPv4Example | tests/test_datatypes.py:172 | `127.0.0.1` is an `IPv4Address` |
| Addresses.IPv4PortExample | tests/test_datatypes.py:173 | `127.0.0.1:80` is an `IPv4Port` |
| Addresses.IPv6Example | tests/test_datatypes.py:174 | `::1` is an `IPv6Address` |
| Addresses.BracketedLoopbackExample | tests/test_datatypes.py:175 | `[::1]` is an `IPv6Port` without a port |
| Addresses.BracketedLoopbackPortExample | tests/test_datatypes.py:176 | `[::1]:80` is an `IPv6Port` with port 80 |
| Addresses.DocumentationFull | tests/test_datatypes.py:177 | the uncompressed `2001:0db8:85a3:0000:0000:8a2e:0370:7334` reads as the address |
| Addresses.DocumentationShort | tests/test_datatypes.py:177 | that address's canonical text is `2001:db8:85a3::8a2e:370:7334` |
| Addresses.DocumentationShortParse | tests/test_datatypes.py:177 | the compressed text reads as the same address, so both texts are equal addresses |
| Addresses.BracketedDocumentationExample | tests/test_datatypes.py:178 | the bracketed uncompressed text with `:22` is that address with port 22 |
| Addresses.LinkLocalExample | tests/test_datatypes.py:179 | `[fe80::7334]:22` is read with port 22 |
| Addresses.WordExample | tests/test_datatypes.py:183 | `abc` is refused |
| Addresses.DomainNameExample | tests/test_datatypes.py:185 | `google.com` is refused |
| Addresses.IPv4BadPortExample | tests/test_datatypes.py:187 | `127.0.0.1:100000` is refused |
| Addresses.BracketedBadPortExample | tests/test_datatypes.py:189 | `[::1]:100000` is refused |
| Addresses.BadOctetExample | tests/test_w3c.py:352 | `172.224.24.300` is refused |
| Addresses.FooBarAddressExample | tests/test_w3c.py:365 | `foo.bar` is refused |
| Text.Lower | tests/test_w3c.py:51-53 | same length, every letter lower-cased, no upper-case letter left |
| Text.Words | tests/test_w3c.py:205-206 | every token is non-empty and holds no whitespace |
| Text.WordsJoin | tests/test_w3c.py:205-206 | splitting tokens joined by single spaces gives the tokens back |
| Text.StripOf | tests/test_w3c.py:52 | stripping removes exactly the surrounding whitespace |
| W3C.Render | tests/test_w3c.py:193-197 | without a line number the message alone; the text always ends with the message |
| W3C.RenderLineNumber | tests/test_w3c.py:193-195 | with a line number the text starts `Line `, and the numeral before the first colon reads back as the line number |
| W3C.RenderExamples | tests/test_w3c.py:193-197 | `Line 23: Something went wrong!` and `Something else went wrong!` |
| W3C.Raised | tests/test_w3c.py:268-343 | a fatal problem is raised as the error class of its kind, with its line number |
| W3C.Interpret | tests/test_w3c.py:50-54 | a `#Version` directive is accepted only with a `<digits>.<digits>` value |
| W3C.InterpretVersion | tests/test_w3c.py:50-54 | `#Version` holds its value exactly when it is `<digits>.<digits>`, and is a malformed version exactly otherwise |
| W3C.InterpretDates | tests/test_w3c.py:55-66 | `#Date`, `#Start-Date` and `#End-Date` hold a timestamp exactly when their value is that valid timestamp's `YYYY-MM-DD HH:MM:SS` text, and are no directive exactly when the value is no timestamp |
| W3C.InterpretUnknown | tests/test_w3c.py:55-66 | a line is no directive exactly when its name is none of the seven, or it is a date directive whose value is no full timestamp |
| W3C.DirectiveForm | tests/test_w3c.py:51-53 | whitespace around the name, the colon and the value is ignored, and the name is read without regard to case |
| W3C.VersionExample | tests/test_w3c.py:51 | `#Version: 1.0` is a version directive |
| W3C.VersionSpacedExample | tests/test_w3c.py:52 | `# VERSION : 1.0` is the same directive |
| W3C.VersionUnspacedExample | tests/test_w3c.py:53 | `# version:100.99` is a version directive |
| W3C.VersionRejectExample | tests/test_w3c.py:54 | `#Version: foo` is a malformed version |
| W3C.DateRejectExamples | tests/test_w3c.py:55-66 | a date directive with a date but no time matches no directive |
| W3C.SoftwareExample | tests/test_w3c.py:68 | `# software : bar` gives software `bar` |
| W3C.RemarkExample | tests/test_w3c.py:69 | `#Remark: bar` is a remark |
| W3C.FieldsWords | tests/test_w3c.py:71 | `foo cs-foo rs(foo)` lists three identifiers |
| W3C.UnknownExample | tests/test_w3c.py:336 | `#Foo: Bar` is no directive |
| W3C.FieldParts | tests/test_w3c.py:73-82 | an identifier is `entity(header)`, `prefix-name` with a known entity prefix, or the name alone, and the parts put back together give the identifier |
| W3C.PrefixedField | tests/test_w3c.py:74 | `cs-foo` has prefix `cs` and name `foo` |
| W3C.BuildSchema | tests/test_w3c.py:205-220 | a schema exists exactly when no identifier is empty, with one column per identifier |
| W3C.ColumnName | tests/test_w3c.py:84-91 | a column name exists exactly when the identifier is not empty |
| W3C.HeaderColumnName | tests/test_w3c.py:234-235 | a header field `e(h)` is named `e_` followed by the sanitized header, with no trailing `_` |
| W3C.HeaderFieldParse | tests/test_w3c.py:71-76 | `e(h)` with an entity prefix `e` reads back as the header field of `e` and `h` |
| W3C.UserAgentColumnName | tests/test_w3c.py:234 | `cs(User-Agent)` is named `cs_User_Agent` |
| W3C.ReferrerColumnName | tests/test_w3c.py:235 | `cs(Referrer)` is named `cs_Referrer` |
| W3C.InternetHeaderColumns | tests/test_w3c.py:205-235 | the schema of the `#Fields` line at line 205 has fifteen columns, the last two being the string columns `cs_User_Agent` and `cs_Referrer` |
| W3C.SchemaColumns | tests/test_w3c.py:215-235 | column `i` keeps identifier `i`, is named by its column name (the sanitized identifier, or `entity_header` for a header field), and has the type its identifier selects |
| W3C.SchemaColumn | tests/test_w3c.py:215-235 | the same for one column |
| W3C.SchemaIdentifiers | tests/test_w3c.py:215-220 | the schema's identifiers are the `#Fields` list, in order |
| W3C.ClassifyClientIp | tests/test_w3c.py:223 | `c-ip` is an address column |
| W3C.ClassifyServerPort | tests/test_w3c.py:226 | `s-port` is an integer column |
| W3C.ClassifyStatus | tests/test_w3c.py:230 | `sc-status` is an integer column |
| W3C.ClassifyBytes | tests/test_w3c.py:231 | `sc-bytes` is an integer column |
| W3C.ClassifyUriStem | tests/test_w3c.py:228 | `cs-uri-stem` is a URL column |
| W3C.ClassifyMethod | tests/test_w3c.py:227 | `cs-method` is a string column |
| W3C.Carry | tests/test_w3c.py:221-235 | `-` becomes the null cell value, a parsed value its typed cell value, and a refusal a conversion failure |
| W3C.DecodeCells | tests/test_w3c.py:221-235 | a decoded row has one cell per column; a rejection names a value |
| W3C.DecodedCells | tests/test_w3c.py:221-235 | a row is decoded exactly when every token converts, and cell `i` is column `i`'s name bound to token `i` converted |
| W3C.DecodedExactly | tests/test_w3c.py:345-358 | a row is decoded exactly when every token converts |
| W3C.DecodedRow | tests/test_w3c.py:221-235 | a decoded row has one cell per column, and cell `i` is column `i`'s name bound to the value token `i` converts to |
| W3C.RejectedCell | tests/test_w3c.py:345-357 | a rejected row names a column whose token does not convert, and that token |
| W3C.DecodeRow | tests/test_w3c.py:345-370 | a token count that differs from the schema's is exactly the field-count rejection |
| W3C.Read | tests/test_w3c.py:200-209 | a line is blank, a `#` directive (read by the directive grammar), or a data line with at least one whitespace-separated token |
| W3C.ReadAll | tests/test_w3c.py:209 | one reading per line of the log |
| W3C.ScanStops | tests/test_w3c.py:276-279 | after a fatal error no further line changes anything |
| W3C.AdvanceFrame | tests/test_w3c.py:211-220 | only a directive changes the header; an error changes nothing else; a row comes only from a data line and changes nothing |
| W3C.AdvanceWarnings | tests/test_w3c.py:345-370 | a step adds at most one warning, only for the data line it reads, with that line's number |
| W3C.ColumnsStay | tests/test_w3c.py:301-311 | once `#Fields` has set the schema, no step changes it |
| W3C.AdvanceColumns | tests/test_w3c.py:301-311 | only an accepted `#Fields` line changes the schema |
| W3C.DirectiveHeader | tests/test_w3c.py:211-214 | a directive line leaves the header the directive gives, or the old header when it fails |
| W3C.AdvanceWellBuilt | tests/test_w3c.py:322-332 | the schema always names each column by its identifier's column name, types it by that identifier, and has distinct names |
| W3C.AdvanceConforms | tests/test_w3c.py:221-235 | a row is produced only once a schema is set, and it follows that schema |
| W3C.RowsFollowSchema | tests/test_w3c.py:211-235 | every row produced so far has one attribute per field, named by the identifiers' column names in `#Fields` order, and the schema stays well built |
| W3C.ScanWellBuilt | tests/test_w3c.py:322-332 | after any number of lines the schema, once set, is well built |
| W3C.ScanConforms | tests/test_w3c.py:211-235 | after any number of lines every row follows the schema |
| W3C.RowsAndWarnings | tests/test_w3c.py:345-370 | without a fatal error, every data line gives exactly one row or one warning |
| W3C.WarningsOnDataLines | tests/test_w3c.py:345-370 | every warning names a data line of the log |
| W3C.MissingFields | tests/test_w3c.py:312-321 | a data line before any `#Fields` raises the fields error at that line, whether or not `#Version` was seen |
| W3C.MissingVersion | tests/test_w3c.py:291-300 | a data line with a schema but no `#Version` raises the version error at that line |
| W3C.VersionDirective | tests/test_w3c.py:270-290 | `#Version` is accepted exactly when it is `1.0` and the first one; every failure is a version error |
| W3C.FieldsDirective | tests/test_w3c.py:301-332 | `#Fields` is accepted exactly when it is the first one, is not empty and has distinct column names; every failure is a fields error; an accepted one keeps its identifiers |
| W3C.ClashingNames | tests/test_w3c.py:322-332 | two identifiers with the same column name make `#Fields` fail |
| W3C.UnknownDirective | tests/test_w3c.py:333-343 | an unrecognized `#` line raises the directive error, ahead of any check for missing `#Fields` |
| W3C.DateFallback | tests/test_w3c.py:203-214 | `date` is the `#Date` value when there is one, otherwise the `#Start-Date` value |
| W3C.HeaderDirectivesApply | tests/test_w3c.py:212-214 | `#Software`, `#Remark` and the date directives never fail and leave the version and the schema alone; `software` is the `#Software` value |
| W3C.BadTokenWarns | tests/test_w3c.py:345-358 | a data line with a token that does not convert produces no row and one warning for that line, and the reading goes on |
| W3C.FieldCountWarns | tests/test_w3c.py:359-370 | a data line with the wrong number of tokens produces only a field-count warning for that line |
| W3C.AddressConvert | tests/test_w3c.py:345-370 | an address column refuses every token that is no address |
| W3C.BadAddressTokens | tests/test_w3c.py:352-365 | `172.224.24.300` and `foo.bar` do not convert in an address column |
| W3C.OneRowLog | tests/test_w3c.py:209-237 | `#Version: 1.0`, `#Fields` and one convertible data line give no error, no warning, the version and fields, and exactly one row of the converted tokens named by the identifiers' column names |
| W3C.W3CSource.constructor | tests/test_w3c.py:209 | a new source has read no line and holds an empty header |
| W3C.W3CSource.ReadLine | tests/test_w3c.py:211 | reading one line advances the cursor by one and keeps the state equal to the reading of the lines consumed |
| W3C.W3CSource.Take | tests/test_w3c.py:211 | applying one line keeps the state equal to the reading of the lines consumed; a produced row changes no header, warning or error |
| W3C.W3CSource.Next | tests/test_w3c.py:211 | the next row, or nothing once the lines are exhausted or a fatal error has been found |
| W3C.W3CSource.ReadRows | tests/test_w3c.py:209-237 | the rows read, after those already yielded, are all the rows of the log; the final header and warnings are those of the whole log; an exception is returned exactly when a fatal error stopped the reading, and it is that error |

## Left out

- DNS resolution (`Hostname.address`, `Address.hostname` and `www2csv/dns.py`) is not modelled. It is a network lookup with process-wide memoisation (tests/test_datatypes.py:154-155, 180-181, 191-194, 217-219; tests/test_dns.py).
- GeoIP lookups (`country`, `region`, `city`, `coords`, `geoip.init_database`) are not modelled. They read binary database files and return floating-point coordinates (tests/test_datatypes.py:196-215).
- `Filename` properties that depend on the filesystem are not modelled, because they depend on the current directory and on disk state: `abspath`, `realpath`, `exists`, `lexists`, `isfile`, `isdir`, `islink`, `ismount`, `atime`, `mtime`, `ctime` and `size` (tests/test_datatypes.py:116, 119-123, 126-132, 142-146).
- Literals.FixedParse: reads values as exact rationals (`real`), not as binary floating-point numbers, so float rounding is not captured.
- Python's `warnings` machinery is not modelled. Warnings are a list of (line number, reason) values in the reader's state instead of `W3CWarning` objects passed to the warnings module.
- The context-manager lifecycle of `W3CSource` (`__enter__`, `__exit__`, closing the file) is not modelled. The source is a class over a sequence of lines.
- The Python 2/3 `str` shim (tests/test_w3c.py:37-38) is not modelled.
- Header attribute access before the first row is not modelled separately. The class exposes the header fields as read so far.
- The two complete sample logs of `test_source_01` are not evaluated line by line. W3C.OneRowLog states the general form for any field list and any convertible data line. The naming and typing of the two header columns of the `#Fields` line at tests/test_w3c.py:205 are stated by W3C.InternetHeaderColumns. The column-type lemmas cover `c-ip`, `s-port`, `sc-status`, `sc-bytes`, `cs-uri-stem` and `cs-method`; the remaining columns of those logs (`cs-username`, `s-ip`, `cs-uri-query`, `cs-bytes`, `time-taken`, `date`, `time`) have no example lemma of their own.
- Temporal.DateTimeExample: covers `2000-01-01 12:34:56`. The other accepted timestamp, `1986-02-28 00:00:00` (tests/test_datatypes.py:84), is covered only by Temporal.DateTimeTextIff.
- Hostnames.RejectedNameExamples: does not evaluate the `'foo.bar.'*32 + '.com'` example (tests/test_datatypes.py:169). Hostnames.RejectedShapes covers it: that name contains `..` and has more than 255 characters.
- W3C.Interpret: the `#Fields` identifier grammar (`FIELD_RE`) accepts any identifier. The prefix split is stated by W3C.FieldParts, not by a separate pattern.
- Literals.UrlParse: its contract says only that `-` is null. Tokens without `+` or `%` are covered by Literals.UrlPlain; a token with `+` or `%` is decoded first and then split, which no lemma states on its own.
- Literals.StringParse: decodes each `%XX` escape to the single character with that code, as Python 2's `unquote_plus` does. It does not decode UTF-8 sequences as Python 3's does, so `%C3%A9` gives two characters rather than `é`. Literals.UrlParse decodes the same way. Escapes below `%80` agree with both.
- Text.IsSpace: covers the ASCII whitespace only. Unicode whitespace outside ASCII (such as U+00A0 or U+2028), which Python's `str.split()` also splits on, is not modelled.
- Urls.ParseUrl: matches no single CPython release. Its scheme check (first character a letter) and its `uses_netloc` list (with `itms-services`) follow current releases. It does not remove tab, CR and LF from the text, and it does not validate bracketed hosts beyond balanced brackets, though those same releases do both.
- IPv6 addresses with an embedded dotted IPv4 tail (`::ffff:1.2.3.4`) and scope suffixes (`%eth0`) are not accepted by the model.
