/** Host names: the `Hostname` value type and its validating constructor.
    A name is a sequence of dot-separated labels; the limits are those of
    section 2.3.4 of RFC 1035 (labels of 1 to 63 characters, names of at
    most 255) with the preferred-name rule that a label neither starts nor
    ends with a hyphen. */
module Hostnames {
  import opened Wrappers
  import opened Text

  const MaxNameLength: nat := 255
  const MaxLabelLength: nat := 63

  /** A validated host name; equality is equality of the (case-preserved)
      text. */
  datatype Hostname = Hostname(name: string)

  predicate IsLabelChar(c: char) { IsAlnum(c) || c == '-' }

  /** One label: 1 to 63 letters, digits and hyphens, with no hyphen at
      either end. */
  predicate ValidLabel(l: string)
  {
    && 1 <= |l| <= MaxLabelLength
    && l[0] != '-' && l[|l| - 1] != '-'
    && forall i :: 0 <= i < |l| ==> IsLabelChar(l[i])
  }

  /** Python's `all(LABEL.match(l) for l in labels)`. */
  function AllLabelsValid(labels: seq<string>): (ok: bool)
    ensures ok <==> forall i :: 0 <= i < |labels| ==> ValidLabel(labels[i])
  {
    if |labels| == 0 then true else ValidLabel(labels[0]) && AllLabelsValid(labels[1..])
  }

  /** The `hostname` constructor: the name itself when it is at most 255
      characters and every label of `s.split('.')` is valid; otherwise
      `None` (a `ValueError`). */
  function MakeHostname(s: string): (r: Option<Hostname>)
    ensures r.Some? ==> r.value.name == s && |s| <= MaxNameLength
  {
    if |s| <= MaxNameLength && AllLabelsValid(Split(s, '.')) then Some(Hostname(s)) else None
  }

  /** The constructor accepts exactly the names that are short enough and
      well formed character by character. */
  lemma MakeHostnameIff(s: string)
    ensures MakeHostname(s).Some? <==> |s| <= MaxNameLength && WellFormedName(s)
  {
    LabelsValidIff(s);
  }

  // ----------------------------------------------------------------------
  // The same rule stated on characters, without splitting
  // ----------------------------------------------------------------------

  predicate NameChars(s: string)
  {
    forall i :: 0 <= i < |s| ==> IsLabelChar(s[i]) || s[i] == '.'
  }

  /** Neither end is a dot or a hyphen. */
  predicate EdgesOk(s: string)
  {
    |s| > 0 && s[0] != '.' && s[0] != '-' && s[|s| - 1] != '.' && s[|s| - 1] != '-'
  }

  /** Two neighbouring characters that may stand side by side: no empty
      label (`..`), and no hyphen next to a dot. */
  predicate AdjacentOk(a: char, b: char)
  {
    !(a == '.' && (b == '.' || b == '-')) && !(a == '-' && b == '.')
  }

  predicate NeighboursOk(s: string)
  {
    forall i :: 0 <= i < |s| - 1 ==> AdjacentOk(s[i], s[i + 1])
  }

  /** The window of 64 characters starting at `i`, when there is one,
      holds a dot. */
  predicate DotInWindow(s: string, i: int)
  {
    0 <= i && i + MaxLabelLength + 1 <= |s| ==> '.' in s[i..i + MaxLabelLength + 1]
  }

  /** Every window of 64 characters holds a dot: no label exceeds 63. */
  predicate ShortRuns(s: string)
  {
    forall i :: 0 <= i < |s| ==> DotInWindow(s, i)
  }

  predicate WellFormedName(s: string)
  {
    NameChars(s) && EdgesOk(s) && NeighboursOk(s) && ShortRuns(s)
  }

  lemma {:induction false} LabelsValidIff(s: string)
    ensures AllLabelsValid(Split(s, '.')) <==> WellFormedName(s)
    decreases |s|
  {
    var k := Find(s, '.');
    if k == |s| {
      OneLabelIff(s);
    } else {
      var l, t := s[..k], s[k + 1..];
      assert AllLabelsValid(Split(s, '.')) == (ValidLabel(l) && AllLabelsValid(Split(t, '.'))) by {
        LabelsOfCut(s, k);
      }
      assert AllLabelsValid(Split(t, '.')) == WellFormedName(t) by { LabelsValidIff(t); }
      assert WellFormedName(s) == (ValidLabel(l) && WellFormedName(t)) by {
        assert s == l + "." + t;
        DotSplitIff(s, l, t);
      }
    }
  }

  /** Cutting at the first dot peels off the first label. */
  lemma LabelsOfCut(s: string, k: nat)
    requires k == Find(s, '.') < |s|
    ensures AllLabelsValid(Split(s, '.')) == (ValidLabel(s[..k]) && AllLabelsValid(Split(s[k + 1..], '.')))
  {
    var l, parts := s[..k], Split(s[k + 1..], '.');
    assert Split(s, '.') == [l] + parts;
    assert ([l] + parts)[0] == l && ([l] + parts)[1..] == parts;
  }

  lemma OneLabelIff(s: string)
    requires '.' !in s
    ensures ValidLabel(s) <==> WellFormedName(s)
  {
    if |s| > MaxLabelLength {
      assert s[..|s|] == s;
      NoDotPrefix(s, |s|);
    }
  }

  /** A dot-free prefix of 64 or more characters leaves the first window
      without a dot. */
  lemma NoDotPrefix(s: string, n: nat)
    requires MaxLabelLength < n <= |s| && '.' !in s[..n]
    ensures !DotInWindow(s, 0)
  {
    assert s[0..MaxLabelLength + 1] == s[..n][..MaxLabelLength + 1];
  }

  lemma DotSplitIff(s: string, l: string, t: string)
    requires s == l + "." + t && '.' !in l
    ensures WellFormedName(s) <==> ValidLabel(l) && WellFormedName(t)
  {
    var k := |l|;
    assert s[k] == '.';
    assert forall i :: 0 <= i < k ==> s[i] == l[i];
    assert forall i :: 0 <= i < |t| ==> s[k + 1 + i] == t[i];
    if WellFormedName(s) {
      DotSplitForward(s, l, t);
    }
    if ValidLabel(l) && WellFormedName(t) {
      DotSplitBackward(s, l, t);
    }
  }

  lemma DotSplitForward(s: string, l: string, t: string)
    requires s == l + "." + t && '.' !in l
    requires WellFormedName(s)
    ensures ValidLabel(l) && WellFormedName(t)
  {
    var k := |l|;
    assert s[k] == '.';
    assert k > 0;
    assert AdjacentOk(s[k - 1], s[k]);
    if k > MaxLabelLength {
      assert s[..k] == l;
      NoDotPrefix(s, k);
      assert false;
    }
    forall i | 0 <= i < k ensures IsLabelChar(l[i]) {
      assert l[i] == s[i];
    }
    assert |t| > 0;
    assert AdjacentOk(s[k], s[k + 1]);
    assert t[0] == s[k + 1];
    assert t[|t| - 1] == s[|s| - 1];
    forall i | 0 <= i < |t| - 1 ensures AdjacentOk(t[i], t[i + 1]) {
      assert AdjacentOk(s[k + 1 + i], s[k + 2 + i]);
    }
    forall i | 0 <= i < |t| ensures DotInWindow(t, i) {
      if 0 <= i && i + MaxLabelLength + 1 <= |t| {
        var j := k + 1 + i;
        assert DotInWindow(s, j);
        assert s[j..j + MaxLabelLength + 1] == t[i..i + MaxLabelLength + 1];
      }
    }
    forall i | 0 <= i < |t| ensures IsLabelChar(t[i]) || t[i] == '.' {
      assert t[i] == s[k + 1 + i];
    }
  }

  lemma DotSplitBackward(s: string, l: string, t: string)
    requires s == l + "." + t && '.' !in l
    requires ValidLabel(l) && WellFormedName(t)
    ensures WellFormedName(s)
  {
    var k := |l|;
    assert s[k] == '.';
    forall i | 0 <= i < |s| - 1 ensures AdjacentOk(s[i], s[i + 1]) {
      if i < k - 1 {
        assert s[i] == l[i] && s[i + 1] == l[i + 1];
      } else if i == k - 1 {
        assert s[i] == l[k - 1];
      } else if i == k {
        assert s[i + 1] == t[0];
      } else {
        assert s[i] == t[i - k - 1] && s[i + 1] == t[i - k];
      }
    }
    forall i | 0 <= i < |s| ensures DotInWindow(s, i) {
      if 0 <= i && i + MaxLabelLength + 1 <= |s| {
        if i <= k {
          assert s[i..i + MaxLabelLength + 1][k - i] == '.';
        } else {
          var j := i - k - 1;
          assert DotInWindow(t, j);
          assert s[i..i + MaxLabelLength + 1] == t[j..j + MaxLabelLength + 1];
        }
      }
    }
    forall i | 0 <= i < |s| ensures IsLabelChar(s[i]) || s[i] == '.' {
      if i < k {
        assert s[i] == l[i];
      } else if i > k {
        assert s[i] == t[i - k - 1];
      }
    }
  }

  // ----------------------------------------------------------------------
  // Consequences stated by the tests
  // ----------------------------------------------------------------------

  /** No valid name is empty, starts or ends with a dot or a hyphen, holds
      an empty label, or a label longer than 63 characters. */
  lemma RejectedShapes(s: string)
    ensures |s| == 0 ==> MakeHostname(s).None?
    ensures |s| > 0 && (s[0] == '.' || s[|s| - 1] == '.') ==> MakeHostname(s).None?
    ensures |s| > 0 && (s[0] == '-' || s[|s| - 1] == '-') ==> MakeHostname(s).None?
    ensures (exists i :: 0 <= i < |s| - 1 && s[i] == '.' && s[i + 1] == '.') ==> MakeHostname(s).None?
    ensures (exists i :: 0 <= i < |s| - 1 && s[i] == '-' && s[i + 1] == '.') ==> MakeHostname(s).None?
    ensures (exists i :: 0 <= i < |s| - 1 && s[i] == '.' && s[i + 1] == '-') ==> MakeHostname(s).None?
    ensures |s| > MaxNameLength ==> MakeHostname(s).None?
  {
    MakeHostnameIff(s);
    if exists i :: 0 <= i < |s| - 1 && s[i] == '.' && s[i + 1] == '.' {
      var i :| 0 <= i < |s| - 1 && s[i] == '.' && s[i + 1] == '.';
      assert !AdjacentOk(s[i], s[i + 1]);
    }
    if exists i :: 0 <= i < |s| - 1 && s[i] == '-' && s[i + 1] == '.' {
      var i :| 0 <= i < |s| - 1 && s[i] == '-' && s[i + 1] == '.';
      assert !AdjacentOk(s[i], s[i + 1]);
    }
    if exists i :: 0 <= i < |s| - 1 && s[i] == '.' && s[i + 1] == '-' {
      var i :| 0 <= i < |s| - 1 && s[i] == '.' && s[i + 1] == '-';
      assert !AdjacentOk(s[i], s[i + 1]);
    }
  }

  /** A label of `n` copies of `c`. */
  function Repeat(c: char, n: nat): (s: string)
    ensures |s| == n && forall i :: 0 <= i < n ==> s[i] == c
  {
    seq(n, i => c)
  }

  /** Splitting off a leading dot-free label. */
  lemma SplitLabel(a: string, rest: string)
    requires '.' !in a
    ensures Split(a + "." + rest, '.') == [a] + Split(rest, '.')
  {
    SplitAppend(a, rest, '.');
    assert Find(a, '.') == |a|;
    assert a + "." + rest == a + ['.'] + rest;
  }

  /** Labels of `f` repeated: 63 is the longest accepted. */
  lemma LongLabels()
    ensures ValidLabel(Repeat('f', 63)) && !ValidLabel(Repeat('f', 64))
    ensures ValidLabel("o") && ValidLabel("oo")
  {
  }

  /** A single valid label is a name. */
  lemma SingleLabel(a: string)
    requires ValidLabel(a)
    ensures MakeHostname(a) == Some(Hostname(a))
  {
    assert Find(a, '.') == |a|;
  }

  /** A valid label in front of a name, within the length limit, is a
      name. */
  lemma ConsLabel(a: string, rest: string)
    requires ValidLabel(a) && MakeHostname(rest).Some?
    requires |a| + 1 + |rest| <= MaxNameLength
    ensures MakeHostname(a + "." + rest) == Some(Hostname(a + "." + rest))
  {
    SplitLabel(a, rest);
    var parts := Split(rest, '.');
    assert ([a] + parts)[0] == a && ([a] + parts)[1..] == parts;
  }

  /** `f` * 63 + `.o` and `f` * 63 + `.oo` are names; `f` * 64 + `.o` is
      not. */
  lemma LabelLengthExamples()
    ensures MakeHostname(Repeat('f', 63) + ".o").Some?
    ensures MakeHostname(Repeat('f', 63) + ".oo").Some?
    ensures MakeHostname(Repeat('f', 64) + ".o").None?
  {
    ShortTopLabels();
    OverlongLabel();
  }

  lemma LongestLabel(t: string)
    requires ValidLabel(t) && |t| <= 2
    ensures MakeHostname(Repeat('f', 63) + "." + t).Some?
  {
    LongLabels();
    SingleLabel(t);
    ConsLabel(Repeat('f', 63), t);
  }

  /** A 63-character label followed by a one- or two-character label. */
  lemma ShortTopLabels()
    ensures MakeHostname(Repeat('f', 63) + ".o").Some?
    ensures MakeHostname(Repeat('f', 63) + ".oo").Some?
  {
    var f63 := Repeat('f', 63);
    assert f63 + ".o" == f63 + "." + "o";
    assert ValidLabel("o");
    LongestLabel("o");
    assert f63 + ".oo" == f63 + "." + "oo";
    assert ValidLabel("oo");
    LongestLabel("oo");
  }

  lemma OverlongLabel()
    ensures MakeHostname(Repeat('f', 64) + ".o").None?
  {
    var f64 := Repeat('f', 64);
    assert f64 + ".o" == f64 + "." + "o";
    assert !ValidLabel(f64) by { LongLabels(); }
    SplitLabel(f64, "o");
  }

  /** The other names the tests accept. */
  lemma NameExamples()
    ensures MakeHostname("foo") == Some(Hostname("foo"))
    ensures MakeHostname("localhost").Some?
  {
    SingleLabel("foo");
    SingleLabel("localhost");
  }

  lemma FooBarExample()
    ensures MakeHostname("foo.bar") == Some(Hostname("foo.bar"))
  {
    SingleLabel("bar");
    ConsLabel("foo", "bar");
    assert "foo" + "." + "bar" == "foo.bar";
  }

  /** Valid labels joined by dots, within the length limit, form a
      name. */
  lemma JoinedLabels(parts: seq<string>)
    requires |parts| > 0 && forall i :: 0 <= i < |parts| ==> ValidLabel(parts[i])
    requires |Join(parts, '.')| <= MaxNameLength
    ensures MakeHostname(Join(parts, '.')).Some?
  {
    assert forall i :: 0 <= i < |parts| ==> '.' !in parts[i];
    SplitJoin(parts, '.');
  }

  lemma LoopbackExample()
    ensures MakeHostname("127.0.0.1").Some?
  {
    var parts := ["127", "0", "0", "1"];
    assert Join(parts, '.') == "127.0.0.1";
    assert ValidLabel("127") && ValidLabel("0") && ValidLabel("1");
    JoinedLabels(parts);
  }

  /** The names the tests reject. */
  lemma RejectedNameExamples()
    ensures MakeHostname("foo.").None?
    ensures MakeHostname(".foo.").None?
    ensures MakeHostname("-foo.bar").None?
    ensures MakeHostname("foo.bar-").None?
  {
    RejectedShapes("foo.");
    RejectedShapes(".foo.");
    RejectedShapes("-foo.bar");
    RejectedShapes("foo.bar-");
  }
}
