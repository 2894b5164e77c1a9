/** `Url`: a URL split into its six components the way Python's
    `urllib.parse.urlparse` splits it, and `str(url)`, which puts them back
    together as `urlunparse` does. */
module Urls {
  import opened Wrappers
  import opened Text

  /** scheme://netloc/path;params?query#fragment */
  datatype Url = Url(scheme: string, netloc: string, path: string, params: string, query: string, fragment: string)

  /** Schemes whose last path segment may carry `;params`. */
  predicate UsesParams(scheme: string)
  {
    scheme in {"", "ftp", "hdl", "prospero", "http", "imap", "https", "shttp", "rtsp", "rtspu", "sip", "sips", "mms", "sftp", "tel"}
  }

  /** Schemes printed with `//` before the network location even when it is
      empty. */
  predicate UsesNetloc(scheme: string)
  {
    scheme in {"", "ftp", "http", "gopher", "nntp", "telnet", "imap", "wais", "file", "mms", "https", "shttp", "snews",
     "prospero", "rtsp", "rtspu", "rsync", "svn", "svn+ssh", "sftp", "nfs", "git", "git+ssh", "ws", "wss", "itms-services"}
  }

  predicate IsSchemeChar(c: char) { IsAlnum(c) || c == '+' || c == '-' || c == '.' }

  /** A scheme: an ASCII letter, then letters, digits, `+`, `-` or `.`. */
  predicate IsSchemeName(t: string)
  {
    |t| > 0 && IsLetter(t[0]) && forall i :: 0 <= i < |t| ==> IsSchemeChar(t[i])
  }

  /** The index of the first character of `s` that is in `ds`, or `|s|`. */
  function FindAny(s: string, ds: set<char>): (k: nat)
    ensures k <= |s|
    ensures k < |s| ==> s[k] in ds
    ensures forall j :: 0 <= j < k ==> s[j] !in ds
  {
    if |s| == 0 || s[0] in ds then 0 else 1 + FindAny(s[1..], ds)
  }

  /** `s.split(c, 1)`, with an empty second half when `c` is absent. */
  function Cut(s: string, c: char): (r: (string, string))
    ensures c !in r.0
    ensures c in s ==> s == r.0 + [c] + r.1
    ensures c !in s ==> r == (s, "")
  {
    var k := Find(s, c);
    if k == |s| then (s, "")
    else
      assert s == s[..k] + [c] + s[k + 1..];
      (s[..k], s[k + 1..])
  }

  // ----------------------------------------------------------------------
  // Splitting
  // ----------------------------------------------------------------------

  /** The scheme (lower-cased) and the rest: the text before the first colon
      is a scheme only when it is a valid scheme name. */
  function SplitScheme(s: string): (r: (string, string))
  {
    var i := Find(s, ':');
    if 0 < i < |s| && IsSchemeName(s[..i]) then (Lower(s[..i]), s[i + 1..]) else ("", s)
  }

  /** After `//`: the network location runs up to the first `/`, `?` or
      `#`. */
  function SplitNetloc(s: string): (r: (string, string))
    ensures s == r.0 + r.1
    ensures '/' !in r.0 && '?' !in r.0 && '#' !in r.0
  {
    var k := FindAny(s, {'/', '?', '#'});
    assert s == s[..k] + s[k..];
    (s[..k], s[k..])
  }

  /** The path and the parameters: the parameters follow the first `;` of
      the last path segment. */
  function SplitParams(s: string): (r: (string, string))
  {
    var j := FindLast(s, '/');
    var st := if j < 0 then 0 else j;
    var k := st + Find(s[st..], ';');
    if k == |s| then (s, "") else (s[..k], s[k + 1..])
  }

  /** Square brackets in a network location come in pairs. */
  predicate Balanced(n: string) { ('[' in n) == (']' in n) }

  predicate StartsWithSlashes(s: string) { |s| >= 2 && s[0] == '/' && s[1] == '/' }

  /** `url(s)`: always a `Url`, except that a network location with a
      lone bracket is refused (`ValueError: Invalid IPv6 URL`). The scheme
      check (first character a letter) and the `uses_netloc` list (with
      `itms-services`) are those of current CPython releases; the removal
      of tab, CR and LF and the validation of bracketed hosts, which those
      releases also perform, are not modelled. */
  function ParseUrl(s: string): (r: Option<Url>)
    ensures r.Some? ==> var u := r.value;
      && Balanced(u.netloc) && '/' !in u.netloc && '?' !in u.netloc && '#' !in u.netloc
      && '?' !in u.path && '#' !in u.path
      && '?' !in u.params && '#' !in u.params
      && '#' !in u.query
  {
    var (scheme, rest) := SplitScheme(s);
    var (netloc, rest2) := if StartsWithSlashes(rest) then SplitNetloc(rest[2..]) else ("", rest);
    if !Balanced(netloc) then None
    else
      var (rest3, fragment) := Cut(rest2, '#');
      var (rest4, query) := Cut(rest3, '?');
      var (path, params) := if UsesParams(scheme) && ';' in rest4 then SplitParams(rest4) else (rest4, "");
      assert '?' !in path && '?' !in params && '#' !in path && '#' !in params by {
        if UsesParams(scheme) && ';' in rest4 {
          ParamsInside(rest4);
        }
      }
      Some(Url(scheme, netloc, path, params, query, fragment))
  }

  lemma ParamsInside(s: string)
    ensures var (p, q) := SplitParams(s);
      forall c :: c !in s ==> c !in p && c !in q
  {
  }

  // ----------------------------------------------------------------------
  // Joining
  // ----------------------------------------------------------------------

  /** The path with its parameters. */
  function PathText(u: Url): string
  {
    if |u.params| > 0 then u.path + ";" + u.params else u.path
  }

  /** Whether `//` and the network location are printed. */
  predicate ShowsNetloc(u: Url)
  {
    |u.netloc| > 0 || (|u.scheme| > 0 && UsesNetloc(u.scheme) && !StartsWithSlashes(PathText(u)))
  }

  /** Everything after the scheme's colon, up to the query. */
  function Hierarchy(u: Url): string
  {
    var p := PathText(u);
    if ShowsNetloc(u) then "//" + u.netloc + (if |p| > 0 && p[0] != '/' then "/" + p else p) else p
  }

  function QueryText(u: Url): string { if |u.query| > 0 then "?" + u.query else "" }

  function FragmentText(u: Url): string { if |u.fragment| > 0 then "#" + u.fragment else "" }

  /** `str(url)`: Python's `urlunparse`. */
  function Unparse(u: Url): string
  {
    SchemeText(u) + AfterScheme(u)
  }

  function SchemeText(u: Url): string { if |u.scheme| > 0 then u.scheme + ":" else "" }

  /** The text after the scheme. */
  function AfterScheme(u: Url): string { Hierarchy(u) + QueryText(u) + FragmentText(u) }

  /** The part of the path after its last `/`. */
  function LastSegment(p: string): string
  {
    p[FindLast(p, '/') + 1..]
  }

  /** The components that `urlunparse` prints in a form `urlparse` reads
      back unchanged: each component is free of the delimiters that end it,
      the scheme is a lower-case scheme name, the parameters belong to a
      scheme that has them, and the path cannot be mistaken for a scheme or
      a network location. */
  predicate WellFormed(u: Url)
  {
    var p := PathText(u);
    && (|u.scheme| == 0 || (IsSchemeName(u.scheme) && NoUpper(u.scheme)))
    && '/' !in u.netloc && '?' !in u.netloc && '#' !in u.netloc && Balanced(u.netloc)
    && '?' !in u.path && '#' !in u.path
    && '/' !in u.params && '?' !in u.params && '#' !in u.params
    && '#' !in u.query
    && (|u.params| > 0 ==> UsesParams(u.scheme))
    && (UsesParams(u.scheme) ==> ';' !in LastSegment(u.path))
    && (ShowsNetloc(u) ==> |p| == 0 || p[0] == '/')
    && (|u.netloc| == 0 ==> !StartsWithSlashes(p))
    && (|u.scheme| == 0 && |u.netloc| == 0 ==> ':' !in u.path)
  }

  // ----------------------------------------------------------------------
  // The round trip, stage by stage
  // ----------------------------------------------------------------------

  /** A well-formed `Url` prints as text that reads back as the same
      `Url`. */
  lemma RoundTrip(u: Url)
    requires WellFormed(u)
    ensures ParseUrl(Unparse(u)) == Some(u)
  {
    var p, q, f := PathText(u), QueryText(u), FragmentText(u);
    SchemeOf(u);
    NetlocOf(u);
    FragmentOf(u);
    QueryOf(u);
    ParamsStage(u);
    ParseStages(Unparse(u), u, AfterScheme(u), p + q + f, p + q, p);
  }

  /** `ParseUrl` reassembled from the results of its stages. */
  lemma ParseStages(s: string, u: Url, rest: string, rest2: string, rest3: string, rest4: string)
    requires SplitScheme(s) == (u.scheme, rest)
    requires (if StartsWithSlashes(rest) then SplitNetloc(rest[2..]) else ("", rest)) == (u.netloc, rest2)
    requires Balanced(u.netloc)
    requires Cut(rest2, '#') == (rest3, u.fragment)
    requires Cut(rest3, '?') == (rest4, u.query)
    requires (if UsesParams(u.scheme) && ';' in rest4 then SplitParams(rest4) else (rest4, "")) == (u.path, u.params)
    ensures ParseUrl(s) == Some(u)
  {
  }

  lemma SchemeOf(u: Url)
    requires WellFormed(u)
    ensures SplitScheme(Unparse(u)) == (u.scheme, AfterScheme(u))
  {
    var rest := AfterScheme(u);
    if |u.scheme| > 0 {
      SchemeStage(u.scheme, rest);
    } else {
      EmptyPrefix(SchemeText(u), rest);
      NoSchemeOf(u);
    }
  }

  lemma NoSchemeOf(u: Url)
    requires WellFormed(u) && |u.scheme| == 0
    ensures SplitScheme(AfterScheme(u)) == ("", AfterScheme(u))
  {
    if ShowsNetloc(u) {
      assert AfterScheme(u)[0] == '/' by { ShownSlash(u); }
      NoSchemeSlash(AfterScheme(u));
    } else {
      var t := (if |u.params| > 0 then ";" + u.params else "") + QueryText(u) + FragmentText(u);
      assert AfterScheme(u) == u.path + t && (|t| == 0 || IsDelimiter(t[0])) by { HiddenTail(u); }
      assert ':' !in u.path;
      NoSchemeStage(u.path, t);
    }
  }

  /** With the network location shown, the text after the scheme starts
      with `//`. */
  lemma ShownSlash(u: Url)
    requires ShowsNetloc(u)
    ensures |AfterScheme(u)| > 1 && AfterScheme(u)[0] == '/' && AfterScheme(u)[1] == '/'
  {
    var h := Hierarchy(u);
    assert h[0] == '/' && h[1] == '/';
    assert AfterScheme(u) == h + (QueryText(u) + FragmentText(u));
  }

  /** Without it, the text after the scheme is the path, then whatever
      follows it, starting with a delimiter. */
  lemma HiddenTail(u: Url)
    requires !ShowsNetloc(u)
    ensures var t := (if |u.params| > 0 then ";" + u.params else "") + QueryText(u) + FragmentText(u);
      AfterScheme(u) == u.path + t && (|t| == 0 || IsDelimiter(t[0]))
  {
    var t := (if |u.params| > 0 then ";" + u.params else "") + QueryText(u) + FragmentText(u);
    if |u.params| > 0 {
      assert PathText(u) == u.path + (";" + u.params);
    }
    assert Hierarchy(u) == PathText(u);
  }

  lemma NetlocOf(u: Url)
    requires WellFormed(u)
    ensures var rest := Hierarchy(u) + QueryText(u) + FragmentText(u);
      (if StartsWithSlashes(rest) then SplitNetloc(rest[2..]) else ("", rest))
        == (u.netloc, PathText(u) + QueryText(u) + FragmentText(u))
  {
    if ShowsNetloc(u) {
      NetlocShownOf(u);
    } else {
      NetlocHiddenOf(u);
    }
  }

  lemma NetlocShownOf(u: Url)
    requires WellFormed(u) && ShowsNetloc(u)
    ensures var p, q, f := PathText(u), QueryText(u), FragmentText(u);
      var rest := Hierarchy(u) + q + f;
      (if StartsWithSlashes(rest) then SplitNetloc(rest[2..]) else ("", rest)) == (u.netloc, p + q + f)
  {
    var p, q, f := PathText(u), QueryText(u), FragmentText(u);
    assert |q| == 0 || q[0] == '?';
    assert |f| == 0 || f[0] == '#';
    assert |p| == 0 || p[0] == '/';
    assert Hierarchy(u) + q + f == "//" + u.netloc + p + q + f;
    ShownStage(u.netloc, p, q, f);
  }

  lemma NetlocHiddenOf(u: Url)
    requires WellFormed(u) && !ShowsNetloc(u)
    ensures var p, q, f := PathText(u), QueryText(u), FragmentText(u);
      var rest := Hierarchy(u) + q + f;
      (if StartsWithSlashes(rest) then SplitNetloc(rest[2..]) else ("", rest)) == (u.netloc, p + q + f)
  {
    var p, q, f := PathText(u), QueryText(u), FragmentText(u);
    assert |q| == 0 || q[0] == '?';
    assert |f| == 0 || f[0] == '#';
    assert Hierarchy(u) == p && u.netloc == [];
    assert !StartsWithSlashes(p);
    NoNetlocStage(p, q, f);
  }

  /** The network location stage on a text that shows one. */
  lemma ShownStage(n: string, p: string, q: string, f: string)
    requires '/' !in n && '?' !in n && '#' !in n
    requires |p| == 0 || p[0] == '/'
    requires |q| == 0 || q[0] == '?'
    requires |f| == 0 || f[0] == '#'
    ensures var rest := "//" + n + p + q + f;
      (if StartsWithSlashes(rest) then SplitNetloc(rest[2..]) else ("", rest)) == (n, p + q + f)
  {
    Reassociate("//", n, p, q, f);
    HeadOf(p, q, f);
    NetlocShown("//" + n + p + q + f, n, p + q + f);
  }

  lemma FragmentOf(u: Url)
    requires WellFormed(u)
    ensures Cut(PathText(u) + QueryText(u) + FragmentText(u), '#') == (PathText(u) + QueryText(u), u.fragment)
  {
    var p, q := PathText(u), QueryText(u);
    if |u.fragment| > 0 {
      assert p + q + FragmentText(u) == (p + q) + ['#'] + u.fragment;
      CutAt(p + q, u.fragment, '#');
    } else {
      assert p + q + FragmentText(u) == p + q;
      CutNone(p + q, '#');
    }
  }

  lemma QueryOf(u: Url)
    requires WellFormed(u)
    ensures Cut(PathText(u) + QueryText(u), '?') == (PathText(u), u.query)
  {
    var p := PathText(u);
    if |u.query| > 0 {
      assert p + QueryText(u) == p + ['?'] + u.query;
      CutAt(p, u.query, '?');
    } else {
      assert p + QueryText(u) == p;
      CutNone(p, '?');
    }
  }

  /** A scheme and its colon are split off the front. */
  lemma SchemeStage(scheme: string, rest: string)
    requires IsSchemeName(scheme) && NoUpper(scheme)
    ensures SplitScheme(scheme + ":" + rest) == (scheme, rest)
  {
    var s := scheme + ":" + rest;
    forall i | 0 <= i < |scheme|
      ensures scheme[i] != ':'
    {
      assert IsSchemeChar(scheme[i]);
    }
    FindAppend(scheme, ":" + rest, ':');
    assert s[..|scheme|] == scheme;
    assert s[|scheme| + 1..] == rest;
    LowerIdentity(scheme);
  }

  predicate IsDelimiter(c: char) { c == '/' || c == ';' || c == '?' || c == '#' }

  /** Text that reaches a delimiter before any colon has no scheme. */
  lemma NoSchemeStage(a: string, t: string)
    requires ':' !in a
    requires |t| == 0 || IsDelimiter(t[0])
    ensures SplitScheme(a + t) == ("", a + t)
  {
    var s := a + t;
    FindAppend(a, t, ':');
    var i := Find(s, ':');
    if 0 < i < |s| {
      assert i > |a| by {
        assert s[|a|] == t[0];
      }
      assert s[..i][|a|] == t[0];
      assert !IsSchemeChar(s[..i][|a|]);
    }
  }

  /** The network location is read back after `//`. */
  lemma NetlocShown(rest: string, n: string, t: string)
    requires rest == "//" + (n + t)
    requires '/' !in n && '?' !in n && '#' !in n
    requires |t| == 0 || t[0] == '/' || t[0] == '?' || t[0] == '#'
    ensures (if StartsWithSlashes(rest) then SplitNetloc(rest[2..]) else ("", rest)) == (n, t)
  {
    DropPrefix("//", n + t);
    NetlocStage(n, t);
  }

  /** The first character of three strings put together. */
  lemma HeadOf(a: string, b: string, c: string)
    ensures |a + b + c| > 0 ==> (a + b + c)[0] == if |a| > 0 then a[0] else if |b| > 0 then b[0] else c[0]
  {
  }

  lemma Reassociate(a: string, b: string, c: string, d: string, e: string)
    ensures a + b + c + d + e == a + (b + (c + d + e))
  {
  }

  lemma DropPrefix(a: string, b: string)
    ensures (a + b)[|a|..] == b
  {
  }

  lemma EmptyPrefix(a: string, b: string)
    requires |a| == 0
    ensures a + b == b
  {
  }

  /** Text that starts with `/` has no scheme. */
  lemma NoSchemeSlash(s: string)
    requires |s| > 0 && s[0] == '/'
    ensures SplitScheme(s) == ("", s)
  {
    var i := Find(s, ':');
    if 0 < i < |s| {
      assert s[..i][0] == '/';
    }
  }

  /** `//` then the network location, which ends at a delimiter. */
  lemma NetlocStage(n: string, t: string)
    requires '/' !in n && '?' !in n && '#' !in n
    requires |t| == 0 || t[0] == '/' || t[0] == '?' || t[0] == '#'
    ensures SplitNetloc(n + t) == (n, t)
  {
    var s := n + t;
    var k := FindAny(s, {'/', '?', '#'});
    FindAnyAppend(n, t, {'/', '?', '#'});
    assert s[..k] == n;
    assert s[k..] == t;
  }

  /** The first delimiter of `a + b`, when `a` holds none and `b` starts
      with one, is where `b` starts. */
  lemma {:induction false} FindAnyAppend(a: string, b: string, ds: set<char>)
    requires forall i :: 0 <= i < |a| ==> a[i] !in ds
    requires |b| == 0 || b[0] in ds
    ensures FindAny(a + b, ds) == |a|
  {
    if |a| == 0 {
      assert a + b == b;
    } else {
      assert (a + b)[1..] == a[1..] + b;
      FindAnyAppend(a[1..], b, ds);
    }
  }

  /** A path not starting with `//`, followed by the query and fragment,
      does not start with `//`. */
  lemma NoNetlocStage(p: string, q: string, f: string)
    requires !StartsWithSlashes(p)
    requires |q| == 0 || q[0] == '?'
    requires |f| == 0 || f[0] == '#'
    ensures !StartsWithSlashes(p + q + f)
  {
    HeadOf(p, q, f);
    if |p| == 1 {
      assert (p + q + f)[1..] == q + f;
    }
  }

  /** Cutting at the first `c` of `a + [c] + b`, when `a` holds none. */
  lemma CutAt(a: string, b: string, c: char)
    requires c !in a
    ensures Cut(a + [c] + b, c) == (a, b)
  {
    var s := a + ([c] + b);
    assert a + [c] + b == s;
    FindAppend(a, [c] + b, c);
    assert Find(s, c) == |a|;
    assert s[..|a|] == a;
    assert s[|a| + 1..] == b;
  }

  lemma CutNone(a: string, c: char)
    requires c !in a
    ensures Cut(a, c) == (a, "")
  {
  }

  /** Reading the parameters back off the path. */
  lemma ParamsStage(u: Url)
    requires (|u.params| > 0 ==> UsesParams(u.scheme)) && '/' !in u.params
    requires UsesParams(u.scheme) ==> ';' !in LastSegment(u.path)
    ensures var p := PathText(u);
      (if UsesParams(u.scheme) && ';' in p then SplitParams(p) else (p, "")) == (u.path, u.params)
  {
    var p := PathText(u);
    if UsesParams(u.scheme) && ';' in p {
      if |u.params| > 0 {
        ParamsAt(u.path, u.params);
      } else {
        ParamsAtEnd(u.path);
      }
    }
  }

  /** Where the last path segment starts its search for `;`. */
  function SegmentStart(p: string): nat
  {
    var j := FindLast(p, '/');
    if j < 0 then 0 else j
  }

  lemma SegmentTail(p: string)
    requires ';' !in LastSegment(p)
    ensures ';' !in p[SegmentStart(p)..]
  {
    var j := FindLast(p, '/');
    var st := SegmentStart(p);
    forall i | st <= i < |p|
      ensures p[i] != ';'
    {
      if i > j {
        assert p[i] == LastSegment(p)[i - j - 1];
      }
    }
  }

  lemma ParamsAt(path: string, params: string)
    requires ';' !in LastSegment(path) && '/' !in params
    ensures SplitParams(path + ";" + params) == (path, params)
  {
    var p := path + ";" + params;
    ParamsIndex(path, params);
    SplitParamsCut(p, |path|);
    assert p[..|path|] == path;
    assert p[|path| + 1..] == params;
  }

  /** `SplitParams` cuts at the `;` it finds in the last segment. */
  lemma SplitParamsCut(s: string, k: nat)
    requires SegmentStart(s) <= |s| && SegmentStart(s) + Find(s[SegmentStart(s)..], ';') == k < |s|
    ensures SplitParams(s) == (s[..k], s[k + 1..])
  {
  }

  /** The `;` that `SplitParams` finds is the one after the path. */
  lemma ParamsIndex(path: string, params: string)
    requires ';' !in LastSegment(path) && '/' !in params
    ensures var p := path + ";" + params;
      SegmentStart(p) == SegmentStart(path) && SegmentStart(p) + Find(p[SegmentStart(p)..], ';') == |path|
  {
    var p := path + ";" + params;
    assert p == path + (";" + params);
    FindLastOf(path, ";" + params, '/');
    assert SegmentStart(p) == SegmentStart(path);
    SegmentTail(path);
    SemicolonAfter(path, params, SegmentStart(path));
  }

  lemma SemicolonAfter(path: string, params: string, st: nat)
    requires st <= |path| && ';' !in path[st..]
    ensures st + Find((path + ";" + params)[st..], ';') == |path|
  {
    var p := path + ";" + params;
    assert p[st..] == path[st..] + (";" + params);
    FindAppend(path[st..], ";" + params, ';');
  }

  lemma ParamsAtEnd(path: string)
    requires ';' !in LastSegment(path)
    ensures SplitParams(path) == (path, "")
  {
    SegmentTail(path);
  }

  /** The last `c` of `a + b` is the last of `a` when `b` has none. */
  lemma FindLastOf(a: string, b: string, c: char)
    requires c !in b
    ensures FindLast(a + b, c) == FindLast(a, c)
  {
    var s := a + b;
    var k := FindLast(s, c);
    var j := FindLast(a, c);
    if j >= 0 {
      assert s[j] == c;
    }

  }

  /** A network location with an unmatched bracket is refused. */
  lemma UnbalancedRefused(n: string)
    requires '/' !in n && '?' !in n && '#' !in n && !Balanced(n)
    ensures ParseUrl("//" + n) == None
  {
    var s := "//" + n;
    NoSchemeSlash(s);
    assert s == "//" + (n + "");
    NetlocShown(s, n, "");
  }

  /** A path without `;` has none in its last segment. */
  lemma NoSemicolon(p: string)
    requires ';' !in p
    ensures ';' !in LastSegment(p)
  {
    var k := FindLast(p, '/') + 1;
    forall i | 0 <= i < |p| - k
      ensures LastSegment(p)[i] != ';'
    {
      assert LastSegment(p)[i] == p[k + i];
    }
  }

  // ----------------------------------------------------------------------
  // Examples
  // ----------------------------------------------------------------------

  lemma RelativeExample()
    ensures ParseUrl("foo") == Some(Url("", "", "foo", "", "", ""))
  {
    var u := Url("", "", "foo", "", "", "");
    assert Unparse(u) == "foo";
    NoSemicolon(u.path);
    RoundTrip(u);
  }

  lemma NetworkPathExample()
    ensures ParseUrl("//foo/bar") == Some(Url("", "foo", "/bar", "", "", ""))
  {
    var u := Url("", "foo", "/bar", "", "", "");
    NetworkPathWellFormed();
    assert Unparse(u) == "//foo/bar";
    RoundTrip(u);
  }

  lemma NetworkPathWellFormed()
    ensures WellFormed(Url("", "foo", "/bar", "", "", ""))
  {
    WellFormedWithNetloc(Url("", "foo", "/bar", "", "", ""));
  }

  lemma HttpExample()
    ensures ParseUrl("http://foo/") == Some(Url("http", "foo", "/", "", "", ""))
  {
    var u := Url("http", "foo", "/", "", "", "");
    assert Unparse(u) == "http://foo/";
    NoSemicolon(u.path);
    RoundTrip(u);
  }

  lemma QueryExample()
    ensures ParseUrl("http://foo/bar?baz=quux") == Some(Url("http", "foo", "/bar", "", "baz=quux", ""))
  {
    var u := Url("http", "foo", "/bar", "", "baz=quux", "");
    assert WellFormed(u) by { QueryWellFormed(); }
    assert Unparse(u) == "http://foo/bar?baz=quux" by { QueryUnparse(); }
    RoundTrip(u);
  }

  lemma QueryUnparse()
    ensures Unparse(Url("http", "foo", "/bar", "", "baz=quux", "")) == "http://foo/bar?baz=quux"
  {
  }

  lemma QueryWellFormed()
    ensures WellFormed(Url("http", "foo", "/bar", "", "baz=quux", ""))
  {
    SchemeFacts("http");
    WellFormedWithNetloc(Url("http", "foo", "/bar", "", "baz=quux", ""));
  }

  /** The facts about a scheme name that `WellFormed` asks for. */
  lemma SchemeFacts(t: string)
    requires t == "http" || t == "https"
    ensures IsSchemeName(t) && NoUpper(t)
  {
    assert IsLetter(t[0]);
  }

  /** A `Url` with a network location and an absolute path without
      parameters is well formed when its components avoid their
      delimiters. */
  lemma WellFormedWithNetloc(u: Url)
    requires |u.scheme| == 0 || (IsSchemeName(u.scheme) && NoUpper(u.scheme))
    requires |u.netloc| > 0 && '/' !in u.netloc && '?' !in u.netloc && '#' !in u.netloc && Balanced(u.netloc)
    requires |u.params| == 0 && (|u.path| == 0 || u.path[0] == '/')
    requires '?' !in u.path && '#' !in u.path && ';' !in u.path
    requires '#' !in u.query
    ensures WellFormed(u)
  {
    var p := PathText(u);
    assert p == u.path;
    NoSemicolon(u.path);
    assert ShowsNetloc(u);
    assert '/' !in u.params && '?' !in u.params && '#' !in u.params;
  }

  lemma FragmentExample()
    ensures ParseUrl("https://foo/bar#baz") == Some(Url("https", "foo", "/bar", "", "", "baz"))
  {
    var u := Url("https", "foo", "/bar", "", "", "baz");
    FragmentWellFormed();
    assert Unparse(u) == "https://foo/bar#baz";
    RoundTrip(u);
  }

  lemma FragmentWellFormed()
    ensures WellFormed(Url("https", "foo", "/bar", "", "", "baz"))
  {
    SchemeFacts("https");
    WellFormedWithNetloc(Url("https", "foo", "/bar", "", "", "baz"));
  }
}
