/** Character classes, numerals, searching, splitting and joining of
    strings: the small pieces of Python's `str` that the parsers rely on. */
module Text {

  // ----------------------------------------------------------------------
  // Character classes (ASCII, as the log format is ASCII text)
  // ----------------------------------------------------------------------

  predicate IsDigit(c: char) { '0' <= c <= '9' }
  predicate IsLower(c: char) { 'a' <= c <= 'z' }
  predicate IsUpper(c: char) { 'A' <= c <= 'Z' }
  predicate IsLetter(c: char) { IsLower(c) || IsUpper(c) }
  predicate IsAlnum(c: char) { IsLetter(c) || IsDigit(c) }

  /** The characters Python's argument-less `str.split()` and `str.strip()`
      treat as whitespace among the ASCII ones: space, tab, line feed,
      carriage return, vertical tab, form feed and the four separators
      `\x1c`-`\x1f`. */
  predicate IsSpace(c: char)
  {
    || c == ' ' || c == '\t' || c == '\n' || c == '\r' || c == '\U{0B}' || c == '\U{0C}'
    || '\U{1C}' <= c <= '\U{1F}'
  }

  predicate NoUpper(s: string) { forall i :: 0 <= i < |s| ==> !IsUpper(s[i]) }

  function ToLower(c: char): (r: char)
    ensures !IsUpper(r)
    ensures !IsUpper(c) ==> r == c
    ensures IsUpper(c) ==> r as int == c as int + 32
  {
    if IsUpper(c) then (c as int + 32) as char else c
  }

  /** ASCII lower-casing of a whole string. */
  function Lower(s: string): (r: string)
    ensures |r| == |s|
    ensures forall i :: 0 <= i < |s| ==> r[i] == ToLower(s[i])
    ensures NoUpper(r)
  {
    seq(|s|, i requires 0 <= i < |s| => ToLower(s[i]))
  }

  lemma LowerIdentity(s: string)
    requires NoUpper(s)
    ensures Lower(s) == s
  {
  }

  // ----------------------------------------------------------------------
  // Numerals in bases 2 to 16
  // ----------------------------------------------------------------------

  /** The value of one digit character: '0'-'9', then 'a'-'f' or 'A'-'F';
      -1 for anything else. */
  function CharValue(c: char): int
  {
    if '0' <= c <= '9' then c as int - '0' as int
    else if 'a' <= c <= 'f' then c as int - 'a' as int + 10
    else if 'A' <= c <= 'F' then c as int - 'A' as int + 10
    else -1
  }

  predicate IsDigitOf(c: char, base: nat) { 0 <= CharValue(c) < base }

  predicate AllDigitsOf(s: string, base: nat)
  {
    forall i :: 0 <= i < |s| ==> IsDigitOf(s[i], base)
  }

  lemma DecimalDigits(s: string)
    ensures AllDigitsOf(s, 10) <==> forall i :: 0 <= i < |s| ==> IsDigit(s[i])
  {
  }

  /** The lower-case digit character of value `d`. */
  function DigitChar(d: nat): (c: char)
    requires d < 16
    ensures CharValue(c) == d
    ensures !IsUpper(c)
  {
    if d < 10 then ('0' as int + d) as char else ('a' as int + d - 10) as char
  }

  lemma DigitCharOfValue(c: char, base: nat)
    requires base <= 16 && IsDigitOf(c, base) && !IsUpper(c)
    ensures DigitChar(CharValue(c)) == c
  {
  }

  function Pow(b: nat, k: nat): (r: nat)
    ensures b >= 1 ==> r >= 1
  {
    if k == 0 then 1 else b * Pow(b, k - 1)
  }

  lemma DivFacts(n: nat, base: nat)
    requires 2 <= base
    ensures n == (n / base) * base + n % base
    ensures 0 <= n % base < base
    ensures n >= base ==> 1 <= n / base < n
    ensures n < base ==> n / base == 0 && n % base == n
  {
  }

  lemma MulMono(a: nat, b: nat, base: nat)
    requires a <= b
    ensures a * base <= b * base
  {
  }

  lemma MulDiv(a: nat, d: nat, base: nat)
    requires 2 <= base && d < base
    ensures (a * base + d) / base == a && (a * base + d) % base == d
  {
    var n := a * base + d;
    var q, r := n / base, n % base;
    assert n == q * base + r;
    if q > a {
      MulMono(a + 1, q, base);
      assert false;
    } else if q < a {
      MulMono(q + 1, a, base);
      assert false;
    }
  }

  /** The number a digit string denotes, most significant digit first
      (Python's `int(s, base)` on a string of digits). */
  function ValueOf(s: string, base: nat): nat
    requires AllDigitsOf(s, base)
  {
    if |s| == 0 then 0 else ValueOf(s[..|s| - 1], base) * base + CharValue(s[|s| - 1])
  }

  /** The shortest lower-case numeral for `n` (Python's `str(n)` in base 10,
      `'%x' % n` in base 16). */
  function Numeral(n: nat, base: nat): (s: string)
    requires 2 <= base <= 16
    ensures |s| > 0 && AllDigitsOf(s, base) && NoUpper(s)
    ensures s[0] == '0' <==> n == 0
    ensures |s| > 1 ==> s[0] != '0'
    decreases n
  {
    DivFacts(n, base);
    if n < base then [DigitChar(n)]
    else Numeral(n / base, base) + [DigitChar(n % base)]
  }

  /** The last digit of a numeral of two or more digits. */
  lemma NumeralStep(n: nat, base: nat)
    requires 2 <= base <= 16 && n >= base
    ensures Numeral(n, base) == Numeral(n / base, base) + [DigitChar(n % base)]
  {
  }

  /** The four digits of a four-digit hexadecimal numeral. */
  lemma HexNumeral4(n: nat)
    requires 0x1000 <= n < 0x10000
    ensures Numeral(n, 16) == [DigitChar(n / 0x1000), DigitChar(n / 0x100 % 16), DigitChar(n / 16 % 16), DigitChar(n % 16)]
  {
    var a := n / 16;
    var b := a / 16;
    var c := b / 16;
    assert b == n / 0x100 && c == n / 0x1000;
    NumeralStep(n, 16);
    NumeralStep(a, 16);
    NumeralStep(b, 16);
    assert Numeral(c, 16) == [DigitChar(c)];
  }

  /** The three digits of a three-digit hexadecimal numeral. */
  lemma HexNumeral3(n: nat)
    requires 0x100 <= n < 0x1000
    ensures Numeral(n, 16) == [DigitChar(n / 0x100), DigitChar(n / 16 % 16), DigitChar(n % 16)]
  {
    var a := n / 16;
    var b := a / 16;
    assert b == n / 0x100;
    NumeralStep(n, 16);
    NumeralStep(a, 16);
    assert Numeral(b, 16) == [DigitChar(b)];
  }

  lemma {:induction false} ValueOfNumeral(n: nat, base: nat)
    requires 2 <= base <= 16
    ensures ValueOf(Numeral(n, base), base) == n
    decreases n
  {
    DivFacts(n, base);
    if n >= base {
      var s := Numeral(n / base, base);
      ValueOfNumeral(n / base, base);
      var t := s + [DigitChar(n % base)];
      assert t[..|t| - 1] == s;
      assert ValueOf(t, base) == ValueOf(s, base) * base + n % base;
    }
  }

  lemma {:induction false} ValueOfPositive(s: string, base: nat)
    requires 2 <= base && |s| > 0 && AllDigitsOf(s, base) && s[0] != '0'
    ensures ValueOf(s, base) > 0
  {
    if |s| > 1 {
      var p := s[..|s| - 1];
      ValueOfPositive(p, base);
      MulMono(1, ValueOf(p, base), base);
    }
  }

  lemma {:induction false} NumeralOfValue(s: string, base: nat)
    requires 2 <= base <= 16 && |s| > 0 && AllDigitsOf(s, base) && NoUpper(s)
    requires |s| > 1 ==> s[0] != '0'
    ensures Numeral(ValueOf(s, base), base) == s
  {
    var p := s[..|s| - 1];
    var c := s[|s| - 1];
    var d := CharValue(c);
    DigitCharOfValue(c, base);
    if |s| == 1 {
      assert ValueOf(s, base) == d;
    } else {
      var a := ValueOf(p, base);
      ValueOfPositive(p, base);
      NumeralOfValue(p, base);
      var v := ValueOf(s, base);
      assert v == a * base + d;
      MulDiv(a, d, base);
      MulMono(1, a, base);
      assert Numeral(v, base) == Numeral(a, base) + [DigitChar(d)];
      assert s == p + [c];
    }
  }

  /** Leading zeros do not change the value of a numeral. */
  lemma {:induction false} ValueOfZeroPrefix(z: string, s: string, base: nat)
    requires 2 <= base && AllDigitsOf(s, base)
    requires forall i :: 0 <= i < |z| ==> z[i] == '0'
    ensures AllDigitsOf(z + s, base) && ValueOf(z + s, base) == ValueOf(s, base)
    decreases |s|, |z|
  {
    var t := z + s;
    if |s| > 0 {
      var p := s[..|s| - 1];
      ValueOfZeroPrefix(z, p, base);
      assert t[..|t| - 1] == z + p;
    } else if |z| > 0 {
      ValueOfZeroPrefix(z[..|z| - 1], s, base);
      assert t[..|t| - 1] == z[..|z| - 1] + s;
    }
  }

  lemma {:induction false} ValueOfBound(s: string, base: nat)
    requires AllDigitsOf(s, base)
    ensures ValueOf(s, base) < Pow(base, |s|)
  {
    if |s| > 0 {
      var p := s[..|s| - 1];
      ValueOfBound(p, base);
      var v, P := ValueOf(p, base), Pow(base, |p|);
      MulMono(v + 1, P, base);
      assert (v + 1) * base == v * base + base;
      assert Pow(base, |s|) == base * P;
    }
  }

  lemma {:induction false} NumeralLength(n: nat, base: nat, k: nat)
    requires 2 <= base <= 16 && 1 <= k && n < Pow(base, k)
    ensures |Numeral(n, base)| <= k
    decreases k
  {
    DivFacts(n, base);
    if n >= base {
      if k == 1 {
        assert false;
      } else {
        var q := n / base;
        var P := Pow(base, k - 1);
        assert Pow(base, k) == base * P;
        if q >= P {
          MulMono(P, q, base);
          assert false;
        }
        NumeralLength(q, base, k - 1);
      }
    }
  }

  // ----------------------------------------------------------------------
  // Searching
  // ----------------------------------------------------------------------

  /** The index of the first `c` in `s`, or `|s|` when there is none
      (Python's `s.find(c)`, with `|s|` in place of -1). */
  function Find(s: string, c: char): (k: nat)
    ensures k <= |s|
    ensures k < |s| ==> s[k] == c
    ensures forall j :: 0 <= j < k ==> s[j] != c
    ensures k == |s| <==> c !in s
  {
    if |s| == 0 then 0 else if s[0] == c then 0 else 1 + Find(s[1..], c)
  }

  /** The index of the last `c` in `s`, or -1 (Python's `s.rfind(c)`). */
  function FindLast(s: string, c: char): (k: int)
    ensures -1 <= k < |s|
    ensures 0 <= k ==> s[k] == c
    ensures forall j :: k < j < |s| ==> s[j] != c
    ensures k == -1 <==> c !in s
  {
    if |s| == 0 then -1
    else if s[|s| - 1] == c then |s| - 1
    else FindLast(s[..|s| - 1], c)
  }

  // ----------------------------------------------------------------------
  // Splitting and joining on one separator character
  // ----------------------------------------------------------------------

  /** Python's `s.split(sep)`: the pieces between separators, empty pieces
      included; never an empty list. */
  function Split(s: string, sep: char): (parts: seq<string>)
    ensures |parts| > 0
    ensures forall i :: 0 <= i < |parts| ==> sep !in parts[i]
    decreases |s|
  {
    var k := Find(s, sep);
    if k == |s| then [s] else [s[..k]] + Split(s[k + 1..], sep)
  }

  /** Python's `sep.join(parts)`. */
  function Join(parts: seq<string>, sep: char): string
  {
    if |parts| == 0 then ""
    else if |parts| == 1 then parts[0]
    else parts[0] + [sep] + Join(parts[1..], sep)
  }

  lemma {:induction false} JoinSplit(s: string, sep: char)
    ensures Join(Split(s, sep), sep) == s
    decreases |s|
  {
    var k := Find(s, sep);
    if k < |s| {
      JoinSplit(s[k + 1..], sep);
      var rest := Split(s[k + 1..], sep);
      assert Split(s, sep) == [s[..k]] + rest;
      assert ([s[..k]] + rest)[1..] == rest;
      assert s == s[..k] + [sep] + s[k + 1..];
    }
  }

  lemma {:induction false} FindAppend(a: string, b: string, c: char)
    ensures Find(a + b, c) == if c in a then Find(a, c) else |a| + Find(b, c)
  {
    if |a| > 0 {
      FindAppend(a[1..], b, c);
      assert (a + b)[1..] == a[1..] + b;
    } else {
      assert a + b == b;
    }
  }

  lemma {:induction false} SplitAppend(a: string, b: string, sep: char)
    ensures Split(a + [sep] + b, sep) == Split(a, sep) + Split(b, sep)
    decreases |a|, 1
  {
    if sep !in a {
      SplitCons(a, b, sep);
    } else {
      var k := Find(a, sep);
      assert a == a[..k] + [sep] + a[k + 1..];
      SplitAppendCut(a, a[..k], a[k + 1..], b, sep);
    }
  }

  /** The inductive step of `SplitAppend`, with the first part `x` of `a` cut off. */
  lemma {:induction false} SplitAppendCut(a: string, x: string, a': string, b: string, sep: char)
    requires a == x + [sep] + a' && sep !in x
    ensures Split(a + [sep] + b, sep) == Split(a, sep) + Split(b, sep)
    decreases |a|, 0
  {
    var r := a' + [sep] + b;
    Regroup(x, a', b, sep);
    SplitCons(x, r, sep);
    SplitCons(x, a', sep);
    SplitAppend(a', b, sep);
    PartsAssoc([x], Split(a', sep), Split(b, sep));
  }

  lemma PartsAssoc(p: seq<string>, q: seq<string>, t: seq<string>)
    ensures p + (q + t) == p + q + t
  {
  }

  lemma Regroup(x: string, a': string, b: string, sep: char)
    ensures x + [sep] + a' + [sep] + b == x + [sep] + (a' + [sep] + b)
  {
  }

  /** A separator-free prefix followed by a separator is the first part. */
  lemma SplitCons(x: string, rest: string, sep: char)
    requires sep !in x
    ensures Split(x + [sep] + rest, sep) == [x] + Split(rest, sep)
  {
    var s := x + [sep] + rest;
    assert s[..|x|] == x;
    assert s[|x| + 1..] == rest;
    FindFirst(s, sep, |x|);
  }

  /** `Find` returns the first occurrence. */
  lemma {:induction false} FindFirst(s: string, c: char, k: nat)
    requires k < |s| && s[k] == c && c !in s[..k]
    ensures Find(s, c) == k
  {
    if k > 0 {
      assert s[0] == s[..k][0];
      assert s[1..][..k - 1] == s[..k][1..];
      FindFirst(s[1..], c, k - 1);
    }
  }

  lemma {:induction false} SplitJoin(parts: seq<string>, sep: char)
    requires |parts| > 0
    requires forall i :: 0 <= i < |parts| ==> sep !in parts[i]
    ensures Split(Join(parts, sep), sep) == parts
  {
    if |parts| == 1 {
      assert Find(parts[0], sep) == |parts[0]|;
    } else {
      SplitJoin(parts[1..], sep);
      SplitAppend(parts[0], Join(parts[1..], sep), sep);
      assert Find(parts[0], sep) == |parts[0]|;
      assert parts == [parts[0]] + parts[1..];
    }
  }

  lemma {:induction false} JoinAppend(a: seq<string>, b: seq<string>, sep: char)
    requires |a| > 0 && |b| > 0
    ensures Join(a + b, sep) == Join(a, sep) + [sep] + Join(b, sep)
  {
    if |a| == 1 {
      assert (a + b)[1..] == b;
    } else {
      JoinAppend(a[1..], b, sep);
      assert (a + b)[1..] == a[1..] + b;
    }
  }

  /** A property that holds of the separator and of every character of
      every part holds of every character of the joined string. */
  lemma {:induction false} JoinAll(parts: seq<string>, sep: char, P: char -> bool)
    requires P(sep)
    requires forall i, j :: 0 <= i < |parts| && 0 <= j < |parts[i]| ==> P(parts[i][j])
    ensures forall k :: 0 <= k < |Join(parts, sep)| ==> P(Join(parts, sep)[k])
  {
    if |parts| > 1 {
      JoinAll(parts[1..], sep, P);
      var rest := Join(parts[1..], sep);
      forall k | 0 <= k < |Join(parts, sep)| ensures P(Join(parts, sep)[k]) {
        if k < |parts[0]| {
          assert Join(parts, sep)[k] == parts[0][k];
        } else if k > |parts[0]| {
          assert Join(parts, sep)[k] == rest[k - |parts[0]| - 1];
        }
      }
    }
  }

  /** The last `c` of `a + [c] + b`, when `b` holds none, is the one
      between them. */
  lemma FindLastAppend(a: string, b: string, c: char)
    requires c !in b
    ensures FindLast(a + [c] + b, c) == |a|
  {
    var s := a + [c] + b;
    var k := FindLast(s, c);
    assert s[|a|] == c;
    if k > |a| {
      assert false;
    }
  }

  /** A string without the separator is its own single part. */
  lemma SplitNoSeparator(s: string, c: char)
    requires c !in s
    ensures Split(s, c) == [s]
  {
  }

  /** A string that splits into three or more parts has a separator before
      its last one. */
  lemma TwoSeparators(s: string, c: char)
    requires |Split(s, c)| >= 3
    ensures 0 <= Find(s, c) < FindLast(s, c)
  {
    var k := Find(s, c);
    if k == |s| {
      SplitNoSeparator(s, c);
      assert false;
    } else {
      var t := s[k + 1..];
      assert |Split(t, c)| >= 2;
      if c !in t {
        SplitNoSeparator(t, c);
        assert false;
      } else {
        var m := Find(t, c);
        assert s[k + 1 + m] == c;
      }
    }
  }

  // ----------------------------------------------------------------------
  // Whitespace
  // ----------------------------------------------------------------------

  /** `s` without its trailing whitespace (Python's `s.rstrip()`). */
  function RStrip(s: string): (r: string)
    ensures r <= s
    ensures |r| > 0 ==> !IsSpace(r[|r| - 1])
    ensures forall i :: |r| <= i < |s| ==> IsSpace(s[i])
  {
    if |s| > 0 && IsSpace(s[|s| - 1]) then RStrip(s[..|s| - 1]) else s
  }

  /** `s` without its leading whitespace (Python's `s.lstrip()`). */
  function LStrip(s: string): (r: string)
    ensures |r| <= |s| && r == s[|s| - |r|..]
    ensures |r| > 0 ==> !IsSpace(r[0])
    ensures forall i :: 0 <= i < |s| - |r| ==> IsSpace(s[i])
  {
    if |s| > 0 && IsSpace(s[0]) then LStrip(s[1..]) else s
  }

  function Strip(s: string): string { RStrip(LStrip(s)) }

  predicate NoSpace(s: string) { forall i :: 0 <= i < |s| ==> !IsSpace(s[i]) }

  predicate AllSpace(s: string) { forall i :: 0 <= i < |s| ==> IsSpace(s[i]) }

  /** Neither begins nor ends with whitespace. */
  predicate Trimmed(t: string) { |t| > 0 ==> !IsSpace(t[0]) && !IsSpace(t[|t| - 1]) }

  lemma {:induction false} LStripOf(a: string, t: string)
    requires AllSpace(a) && (|t| > 0 ==> !IsSpace(t[0]))
    ensures LStrip(a + t) == t
  {
    if |a| > 0 {
      assert (a + t)[0] == a[0];
      assert (a + t)[1..] == a[1..] + t;
      LStripOf(a[1..], t);
    } else {
      assert a + t == t;
    }
  }

  lemma {:induction false} RStripOf(t: string, b: string)
    requires AllSpace(b) && (|t| > 0 ==> !IsSpace(t[|t| - 1]))
    ensures RStrip(t + b) == t
  {
    if |b| > 0 {
      var s := t + b;
      assert s[|s| - 1] == b[|b| - 1];
      assert s[..|s| - 1] == t + b[..|b| - 1];
      RStripOf(t, b[..|b| - 1]);
    } else {
      assert t + b == t;
    }
  }

  /** Stripping removes exactly the surrounding whitespace. */
  lemma StripOf(a: string, t: string, b: string)
    requires AllSpace(a) && AllSpace(b) && Trimmed(t)
    ensures Strip(a + t + b) == t
  {
    if |t| > 0 {
      assert (t + b)[0] == t[0];
      assert a + t + b == a + (t + b);
      LStripOf(a, t + b);
      RStripOf(t, b);
    } else {
      assert a + t + b == (a + b) + t;
      assert AllSpace(a + b) by {
        forall i | 0 <= i < |a + b| ensures IsSpace((a + b)[i]) {
          if i >= |a| { assert (a + b)[i] == b[i - |a|]; }
        }
      }
      LStripOf(a + b, t);
      RStripOf(t, "");
    }
  }

  /** The index of the first whitespace character of `s`, or `|s|`. */
  function WordEnd(s: string): (k: nat)
    ensures k <= |s|
    ensures k < |s| ==> IsSpace(s[k])
    ensures NoSpace(s[..k])
  {
    if |s| == 0 || IsSpace(s[0]) then 0 else 1 + WordEnd(s[1..])
  }

  /** Python's argument-less `s.split()`: the maximal runs of
      non-whitespace characters, in order. */
  function Words(s: string): (ws: seq<string>)
    ensures forall i :: 0 <= i < |ws| ==> |ws[i]| > 0 && NoSpace(ws[i])
    decreases |s|
  {
    if |s| == 0 then []
    else if IsSpace(s[0]) then Words(s[1..])
    else
      var k := WordEnd(s);
      [s[..k]] + Words(s[k..])
  }

  lemma {:induction false} WordEndOf(w: string, r: string)
    requires NoSpace(w) && (|r| > 0 ==> IsSpace(r[0]))
    ensures WordEnd(w + r) == |w|
  {
    if |w| > 0 {
      assert (w + r)[0] == w[0];
      assert (w + r)[1..] == w[1..] + r;
      WordEndOf(w[1..], r);
    } else {
      assert w + r == r;
    }
  }

  /** A leading word is split off whole. */
  lemma WordsOfWord(w: string, r: string)
    requires |w| > 0 && NoSpace(w) && (|r| > 0 ==> IsSpace(r[0]))
    ensures Words(w + r) == [w] + Words(r)
  {
    WordEndOf(w, r);
    var s := w + r;
    assert s[0] == w[0];
    assert s[..|w|] == w && s[|w|..] == r;
  }

  /** Splitting words joined by single spaces gives the words back. */
  lemma {:induction false} WordsJoin(ws: seq<string>)
    requires forall i :: 0 <= i < |ws| ==> |ws[i]| > 0 && NoSpace(ws[i])
    ensures Words(Join(ws, ' ')) == ws
  {
    if |ws| == 1 {
      WordsOfWord(ws[0], "");
      assert ws[0] + "" == ws[0];
    } else if |ws| > 1 {
      var r := Join(ws[1..], ' ');
      WordsJoin(ws[1..]);
      assert Words([' '] + r) == Words(r) by {
        assert ([' '] + r)[1..] == r;
      }
      assert ws[0] + [' '] + r == ws[0] + ([' '] + r);
      WordsOfWord(ws[0], [' '] + r);
      assert ws == [ws[0]] + ws[1..];
    }
  }

  /** A line with a non-whitespace character has at least one word. */
  lemma {:induction false} WordsNonEmpty(s: string, i: nat)
    requires i < |s| && !IsSpace(s[i])
    ensures |Words(s)| > 0
    decreases |s|
  {
    if IsSpace(s[0]) {
      WordsNonEmpty(s[1..], i - 1);
    }
  }
}
