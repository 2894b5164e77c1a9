/** `Filename`: a path string checked for characters a path may not hold,
    and its string-only derived forms, which follow Python's `posixpath`:
    `basename`, `dirname`, `isabs`, `normcase` and `normpath`. */
module Filenames {
  import opened Wrappers
  import opened Text

  datatype Filename = Filename(path: string)

  /** The characters a path may not hold. */
  predicate IsForbidden(c: char) { c == '<' || c == '>' || c == '*' }

  predicate ValidPath(s: string) { forall i :: 0 <= i < |s| ==> !IsForbidden(s[i]) }

  /** `filename(s)`: the path unchanged, or an error when it holds a
      forbidden character. */
  function MakeFilename(s: string): (r: Option<Filename>)
    ensures r.Some? <==> ValidPath(s)
    ensures r.Some? ==> r.value.path == s
  {
    if exists i :: 0 <= i < |s| && IsForbidden(s[i]) then None else Some(Filename(s))
  }

  // ----------------------------------------------------------------------
  // basename, dirname, isabs, normcase
  // ----------------------------------------------------------------------

  /** Everything up to and including the last `/`. */
  function Head(p: string): (h: string)
    ensures h <= p
    ensures |h| > 0 ==> h[|h| - 1] == '/'
  {
    p[..FindLast(p, '/') + 1]
  }

  /** `posixpath.basename`: everything after the last `/`. */
  function Basename(p: string): (b: string)
    ensures '/' !in b
    ensures p == Head(p) + b
  {
    var k := FindLast(p, '/') + 1;
    assert p == p[..k] + p[k..];
    p[k..]
  }

  predicate AllSlashes(s: string) { forall i :: 0 <= i < |s| ==> s[i] == '/' }

  /** `s.rstrip('/')`. */
  function RStripSlashes(s: string): (r: string)
    ensures r <= s
    ensures |r| > 0 ==> r[|r| - 1] != '/'
    ensures forall i :: |r| <= i < |s| ==> s[i] == '/'
  {
    if |s| > 0 && s[|s| - 1] == '/' then RStripSlashes(s[..|s| - 1]) else s
  }

  /** `posixpath.dirname`: the head without its trailing slashes, unless
      the head is nothing but slashes. */
  function Dirname(p: string): string
  {
    var h := Head(p);
    if !AllSlashes(h) then RStripSlashes(h) else h
  }

  /** `posixpath.isabs`. */
  predicate IsAbs(p: string) { |p| > 0 && p[0] == '/' }

  /** `posixpath.normcase`: paths are case-sensitive, so nothing changes. */
  function NormCase(p: string): (r: string)
    ensures r == p
  {
    p
  }

  /** `posixpath.join` of two parts. */
  function JoinPath(a: string, b: string): string
  {
    if IsAbs(b) then b
    else if |a| == 0 || a[|a| - 1] == '/' then a + b
    else a + "/" + b
  }

  predicate NoDoubleSlash(p: string)
  {
    forall i :: 0 <= i < |p| - 1 ==> !(p[i] == '/' && p[i + 1] == '/')
  }

  /** A directory and a name in it split back into the two. */
  lemma SplitJoined(a: string, b: string)
    requires |a| > 0 && a[|a| - 1] != '/' && '/' !in b
    ensures Dirname(JoinPath(a, b)) == a && Basename(JoinPath(a, b)) == b
  {
    var p := a + "/" + b;
    assert JoinPath(a, b) == p;
    FindLastAppend(a, b, '/');
    assert p[..|a| + 1] == a + "/";
    assert Head(p) == a + "/";
    assert (a + "/")[|a| - 1] == a[|a| - 1];
    assert !AllSlashes(a + "/");
    StripOneSlash(a);
  }

  lemma StripOneSlash(a: string)
    requires |a| > 0 && a[|a| - 1] != '/'
    ensures RStripSlashes(a + "/") == a
  {
    assert (a + "/")[..|a|] == a;
  }

  /** Joining the directory and the name gives back the path, as long as
      no `/` is doubled. */
  lemma JoinSplit(p: string)
    requires NoDoubleSlash(p)
    ensures JoinPath(Dirname(p), Basename(p)) == p
  {
    var h, b := Head(p), Basename(p);
    var k := |h|;
    if k == 0 {
      assert p == b;
    } else if AllSlashes(h) {
      assert Dirname(p) == h;
      assert h[k - 1] == '/';
    } else {
      var d := RStripSlashes(h);
      if k >= 2 {
        assert h[k - 1] == p[k - 1] == '/';
        assert h[k - 2] == p[k - 2] != '/';
      }
      assert |d| >= k - 1;
      assert d == h[..|d|];
      assert |d| > 0;
      assert h == d + "/";
      assert JoinPath(d, b) == d + "/" + b;
    }
  }

  /** The directory of an absolute path is absolute, and that of a relative
      path is relative. */
  lemma DirnameIsAbs(p: string)
    ensures IsAbs(Dirname(p)) == IsAbs(p)
  {
    var h := Head(p);
    if |h| > 0 && !AllSlashes(h) {
      var d := RStripSlashes(h);
      assert d[0] == h[0] == p[0];
    } else if |h| > 0 {
      assert h[0] == p[0];
    } else {
      assert Basename(p) == p;
      if |p| > 0 {
        assert p[0] in Basename(p);
      }
    }
  }

  // ----------------------------------------------------------------------
  // normpath
  // ----------------------------------------------------------------------

  predicate IsDot(c: string) { |c| == 1 && c[0] == '.' }

  predicate IsDotDot(c: string) { |c| == 2 && c[0] == '.' && c[1] == '.' }

  /** How many of `p`'s leading slashes `normpath` keeps: exactly two
      stay two, one or three and more become one. */
  function InitialSlashes(p: string): (n: nat)
    ensures n <= 2
    ensures n > 0 <==> IsAbs(p)
  {
    if |p| == 0 || p[0] != '/' then 0
    else if |p| >= 2 && p[1] == '/' && (|p| == 2 || p[2] != '/') then 2
    else 1
  }

  function Slashes(n: nat): (s: string)
    ensures |s| == n && AllSlashes(s)
  {
    if n == 0 then "" else "/" + Slashes(n - 1)
  }

  /** One component of the walk: empty and `.` components vanish, `..`
      removes the component before it, except at the root, where it
      vanishes, and at the front of a relative path or after another `..`,
      where it stays. */
  function Push(acc: seq<string>, c: string, rooted: bool): seq<string>
  {
    if |c| == 0 || IsDot(c) then acc
    else if !IsDotDot(c) || (!rooted && |acc| == 0) || (|acc| > 0 && IsDotDot(acc[|acc| - 1])) then acc + [c]
    else if |acc| > 0 then acc[..|acc| - 1]
    else acc
  }

  /** The components that survive, walking `cs` from the left. */
  function Walk(cs: seq<string>, rooted: bool): seq<string>
  {
    if |cs| == 0 then [] else Push(Walk(cs[..|cs| - 1], rooted), cs[|cs| - 1], rooted)
  }

  /** `posixpath.normpath`. */
  function NormPath(p: string): (r: string)
    ensures |r| > 0
  {
    if |p| == 0 then "."
    else
      var n := InitialSlashes(p);
      var r := Slashes(n) + Join(Walk(Split(p, '/'), n > 0), '/');
      if |r| == 0 then "." else r
  }

  /** A list of components as `normpath` leaves it: no empty or `.`
      component, no `/` inside one, and `..` only at the front of a
      relative path. */
  predicate Clean(cs: seq<string>, rooted: bool)
  {
    forall i :: 0 <= i < |cs| ==>
      && |cs[i]| > 0 && !IsDot(cs[i]) && '/' !in cs[i]
      && (IsDotDot(cs[i]) ==> !rooted && forall j :: 0 <= j < i ==> IsDotDot(cs[j]))
  }

  lemma {:induction false} WalkClean(cs: seq<string>, rooted: bool)
    requires forall i :: 0 <= i < |cs| ==> '/' !in cs[i]
    ensures Clean(Walk(cs, rooted), rooted)
    decreases |cs|
  {
    if |cs| > 0 {
      var front := cs[..|cs| - 1];
      WalkClean(front, rooted);
      PushClean(Walk(front, rooted), cs[|cs| - 1], rooted);
    }
  }

  lemma PushClean(acc: seq<string>, c: string, rooted: bool)
    requires Clean(acc, rooted) && '/' !in c
    ensures Clean(Push(acc, c, rooted), rooted)
  {
    var r := Push(acc, c, rooted);
    if |c| == 0 || IsDot(c) {
    } else if !IsDotDot(c) {
      assert r == acc + [c];
    } else if (!rooted && |acc| == 0) || (|acc| > 0 && IsDotDot(acc[|acc| - 1])) {
      assert r == acc + [c];
      if |acc| > 0 {
        assert !rooted;
      }
    } else if |acc| > 0 {
      assert r == acc[..|acc| - 1];
    }
  }

  /** A clean list walks to itself. */
  lemma {:induction false} WalkOfClean(cs: seq<string>, rooted: bool)
    requires Clean(cs, rooted)
    ensures Walk(cs, rooted) == cs
    decreases |cs|
  {
    if |cs| > 0 {
      var front := cs[..|cs| - 1];
      assert Clean(front, rooted);
      WalkOfClean(front, rooted);
      var c := cs[|cs| - 1];
      if IsDotDot(c) && |front| > 0 {
        assert IsDotDot(front[|front| - 1]);
      }
      assert front + [c] == cs;
    }
  }

  /** A leading empty component walks to nothing. */
  lemma {:induction false} WalkEmptyFirst(cs: seq<string>, rooted: bool)
    ensures Walk([""] + cs, rooted) == Walk(cs, rooted)
    decreases |cs|
  {
    if |cs| > 0 {
      assert ([""] + cs)[..|cs|] == [""] + cs[..|cs| - 1];
      WalkEmptyFirst(cs[..|cs| - 1], rooted);
    } else {
      assert Walk([""], rooted) == Push([], "", rooted);
    }
  }

  /** The first character of a join whose first part is not empty. */
  lemma JoinStart(cs: seq<string>, sep: char)
    requires |cs| > 0 && |cs[0]| > 0
    ensures |Join(cs, sep)| > 0 && Join(cs, sep)[0] == cs[0][0]
  {
  }

  /** Splitting the joined components of a clean list, which gives `[""]`
      when the list is empty. */
  lemma SplitClean(cs: seq<string>, rooted: bool)
    requires Clean(cs, rooted)
    ensures Walk(Split(Join(cs, '/'), '/'), rooted) == cs
  {
    if |cs| == 0 {
      assert Split("", '/') == [""];
      assert Walk([""], rooted) == Push([], "", rooted);
    } else {
      SplitJoin(cs, '/');
      WalkOfClean(cs, rooted);
    }
  }

  lemma SplitSlash(s: string)
    ensures Split("/" + s, '/') == [""] + Split(s, '/')
  {
    assert ("/" + s)[1..] == s;
  }

  /** `normpath` of an already normalised path changes nothing. */
  lemma NormPathIdempotent(p: string)
    ensures NormPath(NormPath(p)) == NormPath(p)
  {
    if |p| == 0 {
      DotIsNormal();
    } else {
      var n := InitialSlashes(p);
      var cs := Walk(Split(p, '/'), n > 0);
      WalkClean(Split(p, '/'), n > 0);
      var j := Join(cs, '/');
      var r := Slashes(n) + j;
      if |r| == 0 {
        assert NormPath(p) == ".";
        DotIsNormal();
      } else {
        assert NormPath(p) == r;
        RenormalizeClean(cs, n);
      }
    }
  }

  lemma DotIsNormal()
    ensures NormPath(".") == "."
  {
    var p := ".";
    assert Find(p, '/') == 1;
    assert Split(p, '/') == [p];
    assert Walk([p], false) == Push([], p, false);
  }

  /** The slashes and the clean components `normpath` puts together are
      read back as the same slashes and components. */
  lemma RenormalizeClean(cs: seq<string>, n: nat)
    requires n <= 2 && Clean(cs, n > 0) && |Slashes(n) + Join(cs, '/')| > 0
    ensures NormPath(Slashes(n) + Join(cs, '/')) == Slashes(n) + Join(cs, '/')
  {
    var j := Join(cs, '/');
    if n == 0 {
      RenormalizeRelative(cs);
    } else if n == 1 {
      assert Slashes(n) == "/";
      RenormalizeRooted(cs);
    } else {
      assert Slashes(n) == "//";
      RenormalizeDoubleRooted(cs);
    }
  }

  /** The join of a clean list does not start with a slash. */
  lemma JoinClean(cs: seq<string>, rooted: bool)
    requires Clean(cs, rooted)
    ensures |Join(cs, '/')| > 0 ==> Join(cs, '/')[0] != '/'
  {
    if |cs| > 0 {
      JoinStart(cs, '/');
      assert '/' !in cs[0];
    }
  }

  lemma RenormalizeRelative(cs: seq<string>)
    requires Clean(cs, false) && |Join(cs, '/')| > 0
    ensures NormPath(Join(cs, '/')) == Join(cs, '/')
  {
    var j := Join(cs, '/');
    assert j[0] != '/' by { JoinClean(cs, false); }
    assert Walk(Split(j, '/'), false) == cs by { SplitClean(cs, false); }
    assert InitialSlashes(j) == 0;
    assert Slashes(0) + j == j;
  }

  lemma RenormalizeRooted(cs: seq<string>)
    requires Clean(cs, true)
    ensures NormPath("/" + Join(cs, '/')) == "/" + Join(cs, '/')
  {
    var j := Join(cs, '/');
    var r := "/" + j;
    assert InitialSlashes(r) == 1 by {
      JoinClean(cs, true);
      if |r| >= 2 {
        assert r[1] == j[0];
      }
    }
    assert Walk(Split(r, '/'), true) == cs by {
      SplitClean(cs, true);
      SplitSlash(j);
      WalkEmptyFirst(Split(j, '/'), true);
    }
    assert Slashes(1) == "/";
  }

  lemma RenormalizeDoubleRooted(cs: seq<string>)
    requires Clean(cs, true)
    ensures NormPath("//" + Join(cs, '/')) == "//" + Join(cs, '/')
  {
    var j := Join(cs, '/');
    var r := "//" + j;
    assert InitialSlashes(r) == 2 by {
      JoinClean(cs, true);
      if |r| >= 3 {
        assert r[2] == j[0];
      }
    }
    assert Walk(Split(r, '/'), true) == cs by {
      SplitClean(cs, true);
      DoubleSlashWalk(j);
    }
    assert Slashes(2) == "//";
  }

  /** Two leading slashes split into two empty components, which walk to
      nothing. */
  lemma DoubleSlashWalk(j: string)
    ensures Walk(Split("//" + j, '/'), true) == Walk(Split(j, '/'), true)
  {
    assert "//" + j == "/" + ("/" + j);
    SplitSlash("/" + j);
    SplitSlash(j);
    WalkEmptyFirst([""] + Split(j, '/'), true);
    WalkEmptyFirst(Split(j, '/'), true);
  }

  /** `normpath` keeps a path absolute or relative. */
  lemma NormPathIsAbs(p: string)
    ensures IsAbs(NormPath(p)) == IsAbs(p)
  {
    if |p| > 0 {
      var n := InitialSlashes(p);
      var cs := Walk(Split(p, '/'), n > 0);
      WalkClean(Split(p, '/'), n > 0);
      var r := Slashes(n) + Join(cs, '/');
      if n == 0 && |cs| > 0 {
        JoinStart(cs, '/');
        assert r[0] == cs[0][0];
        assert '/' !in cs[0];
      }
    }
  }

  // ----------------------------------------------------------------------
  // Examples
  // ----------------------------------------------------------------------

  lemma AcceptedExamples()
    ensures MakeFilename("/") == Some(Filename("/"))
    ensures MakeFilename("/bin") == Some(Filename("/bin"))
    ensures MakeFilename("bin") == Some(Filename("bin"))
  {
  }

  lemma RejectedExamples()
    ensures MakeFilename("<foo>") == None
    ensures MakeFilename("foo*") == None
  {
    assert IsForbidden("<foo>"[0]);
    assert IsForbidden("foo*"[3]);
  }

  lemma SplitExample()
    ensures Basename("/foo/bar") == "bar" && Dirname("/foo/bar") == "/foo"
  {
    assert "/foo/bar" == JoinPath("/foo", "bar");
    SplitJoined("/foo", "bar");
  }

  lemma IsAbsExamples()
    ensures IsAbs("/foo/bar") && !IsAbs("foo/bar")
  {
  }

  lemma NormCaseExample()
    ensures NormCase("/FOO/BAR") == "/FOO/BAR"
  {
  }

  /** Doubled slashes and `.` components collapse. */
  lemma CollapseExample()
    ensures NormPath("/FOO//.//BAR") == "/FOO/BAR"
  {
    assert "/FOO//.//BAR" == DoubledAndDot("FOO", "BAR");
    assert "/FOO/BAR" == "/" + "FOO" + "/" + "BAR";
    Collapse("FOO", "BAR");
  }

  lemma Collapse(a: string, b: string)
    requires |a| > 0 && |b| > 0 && '/' !in a && '/' !in b
    requires !IsDot(a) && !IsDot(b) && !IsDotDot(a) && !IsDotDot(b)
    ensures NormPath(DoubledAndDot(a, b)) == "/" + a + "/" + b
  {
    var p := DoubledAndDot(a, b);
    assert InitialSlashes(p) == 1 by {
      assert p[0] == '/' && p[1] == a[0];
    }
    assert Walk(Split(p, '/'), true) == [a, b] by {
      CollapseSplit(a, b);
      CollapseWalk(a, b);
    }
    NormPathSingleRooted(p, [a, b]);
    assert Join([a, b], '/') == a + "/" + b by { assert [a, b][1..] == [b]; }
  }

  /** `normpath` of a path with one leading slash, given the components
      that survive the walk. */
  lemma NormPathSingleRooted(p: string, cs: seq<string>)
    requires |p| > 0 && InitialSlashes(p) == 1 && Walk(Split(p, '/'), true) == cs
    ensures NormPath(p) == "/" + Join(cs, '/')
  {
    assert Slashes(1) == "/";
  }

  /** `/a//.//b`. */
  function DoubledAndDot(a: string, b: string): string
  {
    "/" + (a + "/" + ("/" + ("." + "/" + ("/" + b))))
  }

  lemma CollapseSplit(a: string, b: string)
    requires '/' !in a && '/' !in b
    ensures Split(DoubledAndDot(a, b), '/') == ["", a, "", ".", "", b]
  {
    var s2 := a + "/" + ("/" + ("." + "/" + ("/" + b)));
    var xs := Split(s2, '/');
    assert xs == [a, "", ".", "", b] by { SplitNameFirst(a, b); }
    assert Split("/" + s2, '/') == [""] + xs by { SplitSlash(s2); }
    Prepend(xs, "", ["", a, "", ".", "", b]);
  }

  /** Putting one more component in front of a known list of components. */
  lemma Prepend(xs: seq<string>, x: string, ys: seq<string>)
    requires |ys| > 0 && ys[0] == x && ys[1..] == xs
    ensures [x] + xs == ys
  {
  }

  lemma SplitNameFirst(a: string, b: string)
    requires '/' !in a && '/' !in b
    ensures Split(a + "/" + ("/" + ("." + "/" + ("/" + b))), '/') == [a, "", ".", "", b]
  {
    var s3 := "/" + ("." + "/" + ("/" + b));
    var xs := Split(s3, '/');
    assert xs == ["", ".", "", b] by { SplitSlashDot(b); }
    assert Split(a + "/" + s3, '/') == [a] + xs by {
      SplitAppend(a, s3, '/');
      SplitNoSeparator(a, '/');
    }
    Prepend(xs, a, [a, "", ".", "", b]);
  }

  lemma SplitSlashDot(b: string)
    requires '/' !in b
    ensures Split("/" + ("." + "/" + ("/" + b)), '/') == ["", ".", "", b]
  {
    var s4 := "." + "/" + ("/" + b);
    var xs := Split(s4, '/');
    assert xs == [".", "", b] by { SplitDot(b); }
    assert Split("/" + s4, '/') == [""] + xs by { SplitSlash(s4); }
    Prepend(xs, "", ["", ".", "", b]);
  }

  lemma SplitDot(b: string)
    requires '/' !in b
    ensures Split("." + "/" + ("/" + b), '/') == [".", "", b]
  {
    var xs := Split("/" + b, '/');
    assert xs == ["", b] by {
      SplitSlash(b);
      SplitNoSeparator(b, '/');
    }
    assert Split("." + "/" + ("/" + b), '/') == ["."] + xs by {
      SplitAppend(".", "/" + b, '/');
      SplitNoSeparator(".", '/');
    }
    Prepend(xs, ".", [".", "", b]);
  }

  lemma WalkSnoc(cs: seq<string>, c: string, rooted: bool)
    ensures Walk(cs + [c], rooted) == Push(Walk(cs, rooted), c, rooted)
  {
    assert (cs + [c])[..|cs|] == cs;
  }

  lemma CollapseWalk(a: string, b: string)
    requires |a| > 0 && |b| > 0 && !IsDot(a) && !IsDot(b) && !IsDotDot(a) && !IsDotDot(b)
    ensures Walk(["", a, "", ".", "", b], true) == [a, b]
  {
    var cs := ["", a, "", ".", "", b];
    assert Walk(cs[..2], true) == [a] by {
      WalkSnoc([], "", true);
      WalkSnoc([""], a, true);
      assert cs[..2] == [""] + [a];
    }
    assert Walk(cs[..5], true) == [a] by {
      WalkSnoc(cs[..2], "", true);
      WalkSnoc(cs[..3], ".", true);
      WalkSnoc(cs[..4], "", true);
      assert cs[..3] == cs[..2] + [""];
      assert cs[..4] == cs[..3] + ["."];
      assert cs[..5] == cs[..4] + [""];
    }
    WalkSnoc(cs[..5], b, true);
    assert cs == cs[..5] + [b];
  }
}
