/** Network addresses: IPv4 dotted quads, IPv6 group lists, ports, and the
    four address value types that the log parser produces.

    The textual rules are those of Python's `ipaddress` module, which the
    address types wrap: an IPv4 octet is 1 to 3 decimal digits with no
    leading zero and a value of at most 255; an IPv6 address is 8 groups of
    1 to 4 hexadecimal digits, where one `::` may stand for a run of zero
    groups.  IPv6 text is produced in the canonical form of section 4.2 of
    RFC 5952 (lower case, leading zeros dropped, the first longest run of two
    or more zero groups written `::`), and, as section 6 of RFC 5952 asks,
    with brackets only when a port follows. */
module Addresses {
  import opened Wrappers
  import opened Text

  const MaxOctet: nat := 255
  const MaxHextet: nat := 0xFFFF
  const MaxPort: nat := 65535
  const OctetCount: nat := 4
  const HextetCount: nat := 8

  datatype IPv4 = IPv4(octets: seq<nat>)
  datatype IPv6 = IPv6(groups: seq<nat>)

  predicate ValidIPv4(a: IPv4)
  {
    |a.octets| == OctetCount && forall i :: 0 <= i < |a.octets| ==> a.octets[i] <= MaxOctet
  }

  predicate ValidIPv6(a: IPv6)
  {
    |a.groups| == HextetCount && forall i :: 0 <= i < |a.groups| ==> a.groups[i] <= MaxHextet
  }

  // ----------------------------------------------------------------------
  // Numeric fields
  // ----------------------------------------------------------------------

  /** One IPv4 octet: 1 to 3 decimal digits, no leading zero unless the
      octet is `0` itself, value at most 255. */
  function ParseOctet(t: string): (r: Option<nat>)
    ensures r.Some? ==> r.value <= MaxOctet
  {
    if 1 <= |t| <= 3 && AllDigitsOf(t, 10) && !(|t| > 1 && t[0] == '0') && ValueOf(t, 10) <= MaxOctet
    then Some(ValueOf(t, 10))
    else None
  }

  /** One IPv6 group: 1 to 4 hexadecimal digits of either case. */
  function ParseHextet(t: string): (r: Option<nat>)
    ensures r.Some? ==> r.value <= MaxHextet
  {
    if 1 <= |t| <= 4 && AllDigitsOf(t, 16) then
      ValueOfBound(t, 16);
      assert Pow(16, |t|) <= Pow(16, 4) == MaxHextet + 1 by { PowMono(16, |t|, 4); }
      Some(ValueOf(t, 16))
    else None
  }

  /** A port: one or more decimal digits with a value of at most 65535. */
  function ParsePort(t: string): (r: Option<nat>)
    ensures r.Some? ==> r.value <= MaxPort
  {
    if |t| > 0 && AllDigitsOf(t, 10) && ValueOf(t, 10) <= MaxPort then Some(ValueOf(t, 10)) else None
  }

  lemma {:induction false} PowMono(b: nat, j: nat, k: nat)
    requires 1 <= b && j <= k
    ensures Pow(b, j) <= Pow(b, k)
    decreases k
  {
    if j < k {
      PowMono(b, j, k - 1);
      MulMono(1, b, Pow(b, k - 1));
    }
  }

  /** A numeral has no character that is not a digit, so in particular no
      separator. */
  lemma NumeralExcludes(n: nat, base: nat, c: char)
    requires 2 <= base <= 16 && CharValue(c) < 0
    ensures c !in Numeral(n, base)
  {
    var s := Numeral(n, base);
    forall i | 0 <= i < |s| ensures s[i] != c {
      assert IsDigitOf(s[i], base);
    }
  }

  /** The octet text of `n` is exactly its shortest decimal numeral. */
  lemma OctetTextIff(t: string, n: nat)
    ensures ParseOctet(t) == Some(n) <==> n <= MaxOctet && t == Numeral(n, 10)
  {
    if ParseOctet(t) == Some(n) {
      assert NoUpper(t) by {
        forall i | 0 <= i < |t| ensures !IsUpper(t[i]) { assert IsDigitOf(t[i], 10); }
      }
      NumeralOfValue(t, 10);
    }
    if n <= MaxOctet && t == Numeral(n, 10) {
      ValueOfNumeral(n, 10);
      assert Pow(10, 3) == 1000;
      NumeralLength(n, 10, 3);
    }
  }

  /** The shortest hexadecimal numeral of a group value is read back as that
      value. */
  lemma HextetOfNumeral(n: nat)
    requires n <= MaxHextet
    ensures ParseHextet(Numeral(n, 16)) == Some(n)
  {
    ValueOfNumeral(n, 16);
    assert Pow(16, 4) == 65536;
    NumeralLength(n, 16, 4);
  }

  /** The decimal numeral of a port is read back as that port. */
  lemma PortOfNumeral(p: nat)
    requires p <= MaxPort
    ensures ParsePort(Numeral(p, 10)) == Some(p)
  {
    ValueOfNumeral(p, 10);
  }

  // ----------------------------------------------------------------------
  // Lists of fields
  // ----------------------------------------------------------------------

  function ParseOctets(parts: seq<string>): (r: Option<seq<nat>>)
    ensures r.Some? ==> |r.value| == |parts|
    ensures r.Some? ==> forall i :: 0 <= i < |parts| ==> ParseOctet(parts[i]) == Some(r.value[i])
    ensures r.None? ==> exists i :: 0 <= i < |parts| && ParseOctet(parts[i]).None?
  {
    if |parts| == 0 then Some([])
    else match (ParseOctet(parts[0]), ParseOctets(parts[1..]))
      case (Some(n), Some(ns)) => Some([n] + ns)
      case (None, _) => None
      case (_, None) =>
        var i :| 0 <= i < |parts[1..]| && ParseOctet(parts[1..][i]).None?;
        assert ParseOctet(parts[i + 1]).None?;
        None
  }

  function ParseHextets(parts: seq<string>): (r: Option<seq<nat>>)
    ensures r.Some? ==> |r.value| == |parts|
    ensures r.Some? ==> forall i :: 0 <= i < |parts| ==> ParseHextet(parts[i]) == Some(r.value[i])
    ensures r.None? ==> exists i :: 0 <= i < |parts| && ParseHextet(parts[i]).None?
  {
    if |parts| == 0 then Some([])
    else match (ParseHextet(parts[0]), ParseHextets(parts[1..]))
      case (Some(n), Some(ns)) => Some([n] + ns)
      case (None, _) => None
      case (_, None) =>
        var i :| 0 <= i < |parts[1..]| && ParseHextet(parts[1..][i]).None?;
        assert ParseHextet(parts[i + 1]).None?;
        None
  }

  /** When every part reads as the matching value, the list reads as the
      list of values. */
  lemma ParseOctetsOf(parts: seq<string>, ns: seq<nat>)
    requires |parts| == |ns| && forall i :: 0 <= i < |parts| ==> ParseOctet(parts[i]) == Some(ns[i])
    ensures ParseOctets(parts) == Some(ns)
  {
    var r := ParseOctets(parts);
    assert r.Some?;
    assert r.value == ns;
  }

  lemma ParseHextetsOf(parts: seq<string>, ns: seq<nat>)
    requires |parts| == |ns| && forall i :: 0 <= i < |parts| ==> ParseHextet(parts[i]) == Some(ns[i])
    ensures ParseHextets(parts) == Some(ns)
  {
    var r := ParseHextets(parts);
    assert r.Some?;
    assert r.value == ns;
  }

  function DecimalTexts(ns: seq<nat>): (ts: seq<string>)
    ensures |ts| == |ns| && forall i :: 0 <= i < |ns| ==> ts[i] == Numeral(ns[i], 10)
  {
    seq(|ns|, i requires 0 <= i < |ns| => Numeral(ns[i], 10))
  }

  function HexTexts(ns: seq<nat>): (ts: seq<string>)
    ensures |ts| == |ns| && forall i :: 0 <= i < |ns| ==> ts[i] == Numeral(ns[i], 16)
  {
    seq(|ns|, i requires 0 <= i < |ns| => Numeral(ns[i], 16))
  }

  // ----------------------------------------------------------------------
  // IPv4
  // ----------------------------------------------------------------------

  /** `IPv4Address(s)`: four dot-separated octets. */
  function ParseIPv4(s: string): (r: Option<IPv4>)
    ensures r.Some? ==> ValidIPv4(r.value)
  {
    var parts := Split(s, '.');
    if |parts| != OctetCount then None
    else match ParseOctets(parts)
      case None => None
      case Some(os) => Some(IPv4(os))
  }

  /** `str(IPv4Address)`: the octets in decimal, joined by dots. */
  function FormatIPv4(a: IPv4): string
  {
    Join(DecimalTexts(a.octets), '.')
  }

  /** Reading and printing an IPv4 address are inverse: a text is accepted
      as `a` exactly when it is the printed form of the valid address `a`.
      (So the parser accepts only canonical text.) */
  lemma IPv4TextIff(s: string, a: IPv4)
    ensures ParseIPv4(s) == Some(a) <==> ValidIPv4(a) && s == FormatIPv4(a)
  {
    if ParseIPv4(s) == Some(a) {
      var parts := Split(s, '.');
      forall i | 0 <= i < OctetCount ensures parts[i] == Numeral(a.octets[i], 10) {
        OctetTextIff(parts[i], a.octets[i]);
      }
      assert DecimalTexts(a.octets) == parts;
      JoinSplit(s, '.');
    }
    if ValidIPv4(a) && s == FormatIPv4(a) {
      IPv4RoundTrip(a);
    }
  }

  lemma IPv4RoundTrip(a: IPv4)
    requires ValidIPv4(a)
    ensures ParseIPv4(FormatIPv4(a)) == Some(a)
  {
    var ts := DecimalTexts(a.octets);
    forall i | 0 <= i < |ts| ensures '.' !in ts[i] && ParseOctet(ts[i]) == Some(a.octets[i]) {
      NumeralExcludes(a.octets[i], 10, '.');
      OctetTextIff(ts[i], a.octets[i]);
    }
    SplitJoin(ts, '.');
    ParseOctetsOf(ts, a.octets);
  }

  // ----------------------------------------------------------------------
  // IPv6
  // ----------------------------------------------------------------------

  /** The first index from `i` on, short of the last part, whose part is
      empty; the last index when there is none.  An empty part strictly
      inside the list is where `::` stood. */
  function FirstEmpty(parts: seq<string>, i: nat): (k: nat)
    requires 1 <= i <= |parts| - 1
    ensures i <= k <= |parts| - 1
    ensures k < |parts| - 1 ==> |parts[k]| == 0
    ensures forall j :: i <= j < k ==> |parts[j]| > 0
    decreases |parts| - i
  {
    if i == |parts| - 1 || |parts[i]| == 0 then i else FirstEmpty(parts, i + 1)
  }

  /** `n` zero groups. */
  function Zeros(n: nat): (z: seq<nat>)
    ensures |z| == n && forall i :: 0 <= i < n ==> z[i] == 0
  {
    seq(n, i => 0)
  }

  /** `IPv6Address(s)`, by the algorithm of Python's `ipaddress`: split on
      `:`; between 3 and 9 parts; at most one empty part strictly inside
      (the `::`); an empty first or last part only as half of that `::`;
      the `::` stands for at least one zero group; without `::`, exactly 8
      parts.  Every remaining part must be a group. */
  function ParseIPv6(s: string): (r: Option<IPv6>)
    ensures r.Some? ==> ValidIPv6(r.value)
  {
    ParseIPv6Parts(Split(s, ':'))
  }

  /** The part of `ParseIPv6` after the split on `:`. */
  function ParseIPv6Parts(parts: seq<string>): (r: Option<IPv6>)
    ensures r.Some? ==> ValidIPv6(r.value)
  {
    if |parts| < 3 || |parts| > HextetCount + 1 then None
    else
      var k := FirstEmpty(parts, 1);
      if k == |parts| - 1 then ParseFull(parts)
      else if FirstEmpty(parts, k + 1) != |parts| - 1 then None
      else ParseAbbreviated(parts, k)
  }

  /** No `::`: exactly eight groups (an empty first or last part is not a
      group, so a lone leading or trailing `:` is refused). */
  function ParseFull(parts: seq<string>): (r: Option<IPv6>)
    ensures r.Some? ==> ValidIPv6(r.value)
  {
    if |parts| != HextetCount then None
    else
      var gs := ParseHextets(parts);
      if gs.None? then None else Some(IPv6(gs.value))
  }

  /** The `::` is the empty part at `k`.  An empty first (last) part is
      allowed only as the first (second) colon of that `::`; the groups
      before and after it must leave at least one zero group to fill in. */
  function ParseAbbreviated(parts: seq<string>, k: nat): (r: Option<IPv6>)
    requires 1 <= k < |parts| - 1
    ensures r.Some? ==> ValidIPv6(r.value)
  {
    var lead := |parts[0]| == 0;
    var trail := |parts[|parts| - 1]| == 0;
    if lead && k != 1 then None
    else if trail && k != |parts| - 2 then None
    else
      var hi := if lead then [] else parts[..k];
      var lo := if trail then [] else parts[k + 1..];
      if |hi| + |lo| >= HextetCount then None
      else
        var h, l := ParseHextets(hi), ParseHextets(lo);
        if h.None? || l.None? then None
        else Some(IPv6(h.value + Zeros(HextetCount - |hi| - |lo|) + l.value))
  }

  /** The number of consecutive zero groups starting at `i`. */
  function ZeroRun(gs: seq<nat>, i: nat): (n: nat)
    requires i <= |gs|
    ensures i + n <= |gs|
    ensures forall j :: i <= j < i + n ==> gs[j] == 0
    ensures i + n < |gs| ==> gs[i + n] != 0
    decreases |gs| - i
  {
    if i < |gs| && gs[i] == 0 then 1 + ZeroRun(gs, i + 1) else 0
  }

  /** The scan of `_compress_hextets`: going left to right, a run replaces
      the best one so far only when it is strictly longer, so the result is
      the first of the longest runs.  `(bs, bl)` is the best run before
      `i`. */
  function BestRunFrom(gs: seq<nat>, i: nat, bs: nat, bl: nat): (r: (nat, nat))
    requires i <= |gs| && bs + bl <= |gs|
    ensures r.0 + r.1 <= |gs|
    decreases |gs| - i
  {
    if i == |gs| then (bs, bl)
    else
      var n := ZeroRun(gs, i);
      var next := if n == 0 then i + 1 else i + n;
      if n > bl then BestRunFrom(gs, next, i, n) else BestRunFrom(gs, next, bs, bl)
  }

  /** The scan never shortens the best run, and a run it picks is a whole
      run of zero groups found at or after `i`. */
  lemma {:induction false} BestRunFromIsRun(gs: seq<nat>, i: nat, bs: nat, bl: nat)
    requires i <= |gs| && bs + bl <= |gs|
    ensures var r := BestRunFrom(gs, i, bs, bl);
      && r.1 >= bl
      && (r.1 == bl ==> r.0 == bs)
      && (r.1 > bl ==> i <= r.0 && r.1 == ZeroRun(gs, r.0))
    decreases |gs| - i
  {
    if i < |gs| {
      var n := ZeroRun(gs, i);
      var next := if n == 0 then i + 1 else i + n;
      if n > bl {
        BestRunFromIsRun(gs, next, i, n);
      } else {
        BestRunFromIsRun(gs, next, bs, bl);
      }
    }
  }

  function BestRun(gs: seq<nat>): (r: (nat, nat))
    ensures r.0 + r.1 <= |gs|
    ensures r.1 > 0 ==> r.1 == ZeroRun(gs, r.0)
  {
    BestRunFromIsRun(gs, 0, 0, 0);
    BestRunFrom(gs, 0, 0, 0)
  }

  /** The parts of the canonical text: each group as lower-case hexadecimal
      without leading zeros; the first longest run of two or more zero
      groups replaced by one empty part, with a further empty part when the
      run touches either end (so that joining gives `::`). */
  function CompressedParts(gs: seq<nat>): seq<string>
  {
    var texts := HexTexts(gs);
    var (st, ln) := BestRun(gs);
    if ln <= 1 then texts else Abbreviated(texts, st, ln)
  }

  /** `texts` with the parts `st` to `st + ln` replaced by the empty part
      that joins to `::`. */
  function Abbreviated(texts: seq<string>, st: nat, ln: nat): seq<string>
    requires st + ln <= |texts|
  {
    (if st == 0 then [""] else []) + texts[..st] + [""]
    + (if st + ln == |texts| then [""] else texts[st + ln..])
  }

  /** `str(IPv6Address)`. */
  function FormatIPv6(a: IPv6): string
  {
    Join(CompressedParts(a.groups), ':')
  }

  /** No zero run is longer than the one `BestRun` picks, and every run
      that starts before it is shorter. */
  lemma {:induction false} BestRunFromIsFirstLongest(gs: seq<nat>, i: nat, bs: nat, bl: nat, j: nat)
    requires i <= |gs| && bs + bl <= |gs| && j < |gs|
    requires j < i ==> ZeroRun(gs, j) <= bl
    requires j < bs ==> ZeroRun(gs, j) < bl
    ensures ZeroRun(gs, j) <= BestRunFrom(gs, i, bs, bl).1
    ensures j < BestRunFrom(gs, i, bs, bl).0 ==> ZeroRun(gs, j) < BestRunFrom(gs, i, bs, bl).1
    decreases |gs| - i
  {
    if i < |gs| {
      var n := ZeroRun(gs, i);
      var next := if n == 0 then i + 1 else i + n;
      if i < j < next {
        RunSuffix(gs, i, j);
      }
      if n > bl {
        BestRunFromIsFirstLongest(gs, next, i, n, j);
      } else {
        BestRunFromIsFirstLongest(gs, next, bs, bl, j);
      }
    }
  }

  /** A run that starts inside another run ends where it does. */
  lemma {:induction false} RunSuffix(gs: seq<nat>, i: nat, m: nat)
    requires i <= |gs| && i <= m <= i + ZeroRun(gs, i)
    ensures ZeroRun(gs, m) == ZeroRun(gs, i) - (m - i)
    decreases m - i
  {
    if m > i {
      RunSuffix(gs, i + 1, m);
    }
  }

  /** Section 4.2.3 of RFC 5952: the compressed run is a longest run of
      zero groups, and the first of them. */
  lemma BestRunIsFirstLongest(gs: seq<nat>, j: nat)
    requires j < |gs|
    ensures ZeroRun(gs, j) <= BestRun(gs).1
    ensures j < BestRun(gs).0 ==> ZeroRun(gs, j) < BestRun(gs).1
  {
    BestRunFromIsFirstLongest(gs, 0, 0, 0, j);
  }

  /** No part of the canonical text holds a colon, and only the parts that
      stand for `::` are empty. */
  lemma CompressedPartsShape(gs: seq<nat>)
    ensures var L := CompressedParts(gs);
      forall i :: 0 <= i < |L| ==> ':' !in L[i]
  {
    var texts := HexTexts(gs);
    forall i | 0 <= i < |texts| ensures ':' !in texts[i] {
      NumeralExcludes(gs[i], 16, ':');
    }
    var (st, ln) := BestRun(gs);
    if ln > 1 {
      AbbreviatedFrom(texts, st, ln);
    }
  }

  /** Every part of an abbreviated list is empty or one of the original
      parts. */
  lemma AbbreviatedFrom(texts: seq<string>, st: nat, ln: nat)
    requires st + ln <= |texts|
    ensures var L := Abbreviated(texts, st, ln);
      forall i :: 0 <= i < |L| ==> |L[i]| == 0 || L[i] in texts
  {
  }

  predicate NonEmptyParts(ts: seq<string>)
  {
    forall i :: 0 <= i < |ts| ==> |ts[i]| > 0
  }

  /** Printing an IPv6 address and reading the text back gives the same
      address. */
  lemma IPv6RoundTrip(a: IPv6)
    requires ValidIPv6(a)
    ensures ParseIPv6(FormatIPv6(a)) == Some(a)
  {
    var gs := a.groups;
    var L := CompressedParts(gs);
    CompressedPartsShape(gs);
    SplitJoin(L, ':');
    var texts := HexTexts(gs);
    forall i | 0 <= i < |gs| ensures ParseHextet(texts[i]) == Some(gs[i]) {
      HextetOfNumeral(gs[i]);
    }
    var (st, ln) := BestRun(gs);
    if ln <= 1 {
      assert FirstEmpty(L, 1) == |L| - 1;
      ParseHextetsOf(texts, gs);
    } else {
      assert ln == ZeroRun(gs, st);
      CompressedRoundTrip(gs, st, ln);
    }
  }

  /** Where the parser finds the `::` of an abbreviated list, and what it
      reads before it. */
  lemma AbbreviatedHead(texts: seq<string>, st: nat, ln: nat)
    requires |texts| == HextetCount && st + ln <= |texts| && ln >= 2 && NonEmptyParts(texts)
    ensures var L := Abbreviated(texts, st, ln);
      var k := if st == 0 then 1 else st;
      && 3 <= |L| <= HextetCount && 1 <= k < |L| - 1
      && FirstEmpty(L, 1) == k
      && (|L[0]| == 0 <==> st == 0)
      && (if |L[0]| == 0 then [] else L[..k]) == texts[..st]
  {
    var L := Abbreviated(texts, st, ln);
    if st == 0 {
      assert |L[0]| == 0 && |L[1]| == 0;
    } else {
      assert L[..st] == texts[..st];
      assert |L[st]| == 0;
      assert L[0] == texts[0];
      forall j | 1 <= j < st ensures |L[j]| > 0 {
        assert L[j] == texts[j];
      }
    }
  }

  /** What the parser reads after the `::` of an abbreviated list. */
  lemma AbbreviatedTail(texts: seq<string>, st: nat, ln: nat)
    requires |texts| == HextetCount && st + ln <= |texts| && ln >= 2 && NonEmptyParts(texts)
    ensures var L := Abbreviated(texts, st, ln);
      var k := if st == 0 then 1 else st;
      && 3 <= |L| <= HextetCount && 1 <= k < |L| - 1
      && FirstEmpty(L, k + 1) == |L| - 1
      && (|L[|L| - 1]| == 0 <==> st + ln == |texts|)
      && (if |L[|L| - 1]| == 0 then [] else L[k + 1..]) == texts[st + ln..]
  {
    var L := Abbreviated(texts, st, ln);
    var k := if st == 0 then 1 else st;
    var B := texts[st + ln..];
    assert |L[k]| == 0;
    if st + ln == |texts| {
      assert |L| == k + 2;
      assert |L[k + 1]| == 0;
    } else {
      assert L[k + 1..] == B;
      forall j | k < j < |L| ensures |L[j]| > 0 {
        assert L[j] == B[j - k - 1];
      }
    }
  }

  /** Every group's text reads back as the group. */
  lemma HexTextsRead(gs: seq<nat>)
    requires forall i :: 0 <= i < |gs| ==> gs[i] <= MaxHextet
    ensures NonEmptyParts(HexTexts(gs))
    ensures forall i :: 0 <= i < |gs| ==> ParseHextet(HexTexts(gs)[i]) == Some(gs[i])
  {
    forall i | 0 <= i < |gs| ensures ParseHextet(HexTexts(gs)[i]) == Some(gs[i]) {
      HextetOfNumeral(gs[i]);
    }
  }

  /** The group texts before `a`, and from `a` on, read back as the groups
      there. */
  lemma HexTextsSlices(gs: seq<nat>, a: nat)
    requires a <= |gs| && forall i :: 0 <= i < |gs| ==> gs[i] <= MaxHextet
    ensures ParseHextets(HexTexts(gs)[..a]) == Some(gs[..a])
    ensures ParseHextets(HexTexts(gs)[a..]) == Some(gs[a..])
  {
    HexTextsRead(gs);
    ParseHextetsOf(HexTexts(gs)[..a], gs[..a]);
    ParseHextetsOf(HexTexts(gs)[a..], gs[a..]);
  }

  lemma AbbreviatedLayoutOf(texts: seq<string>, st: nat, ln: nat)
    requires |texts| == HextetCount && st + ln <= |texts| && ln >= 2 && NonEmptyParts(texts)
    ensures AbbreviatedLayout(Abbreviated(texts, st, ln), if st == 0 then 1 else st,
                              texts[..st], texts[st + ln..])
  {
    AbbreviatedHead(texts, st, ln);
    AbbreviatedTail(texts, st, ln);
  }

  /** The compressed case of the round trip: the empty part the `::` left
      is found, the groups before and after it are read back, and the zero
      run is restored. */
  lemma CompressedRoundTrip(gs: seq<nat>, st: nat, ln: nat)
    requires |gs| == HextetCount && forall i :: 0 <= i < |gs| ==> gs[i] <= MaxHextet
    requires st + ln <= |gs| && ln >= 2 && forall j :: st <= j < st + ln ==> gs[j] == 0
    ensures ParseIPv6Parts(Abbreviated(HexTexts(gs), st, ln)) == Some(IPv6(gs))
  {
    CompressedParse(gs, st, ln);
    RestoreRun(gs, st, ln);
  }

  /** The compressed text reads back as the groups around the run, with
      the run's zeros put back. */
  lemma CompressedParse(gs: seq<nat>, st: nat, ln: nat)
    requires |gs| == HextetCount && forall i :: 0 <= i < |gs| ==> gs[i] <= MaxHextet
    requires st + ln <= |gs| && ln >= 2
    ensures ParseIPv6Parts(Abbreviated(HexTexts(gs), st, ln)) == Some(IPv6(gs[..st] + Zeros(ln) + gs[st + ln..]))
  {
    var texts := HexTexts(gs);
    var L := Abbreviated(texts, st, ln);
    var k := if st == 0 then 1 else st;
    var hi, lo := texts[..st], texts[st + ln..];
    var h, l := gs[..st], gs[st + ln..];
    assert AbbreviatedLayout(L, k, hi, lo) by {
      assert NonEmptyParts(texts);
      AbbreviatedLayoutOf(texts, st, ln);
    }
    assert ParseHextets(hi) == Some(h) by { HexTextsSlices(gs, st); }
    assert ParseHextets(lo) == Some(l) by { HexTextsSlices(gs, st + ln); }
    assert HextetCount - |h| - |l| == ln;
    UnfoldCompressedParse(L, k, hi, lo, h, l);
  }

  /** A run of zero groups is the same as `Zeros` of its length. */
  lemma RestoreRun(gs: seq<nat>, st: nat, ln: nat)
    requires st + ln <= |gs| && forall j :: st <= j < st + ln ==> gs[j] == 0
    ensures gs == gs[..st] + Zeros(ln) + gs[st + ln..]
  {
  }

  /** Where `ParseIPv6Parts` finds the `::` of `L` (at `k`), and the
      parts `hi` and `lo` it then reads before and after it. */
  predicate AbbreviatedLayout(L: seq<string>, k: nat, hi: seq<string>, lo: seq<string>)
  {
    && 3 <= |L| <= HextetCount + 1 && 1 <= k < |L| - 1
    && FirstEmpty(L, 1) == k && FirstEmpty(L, k + 1) == |L| - 1
    && (|L[0]| == 0 ==> k == 1)
    && (|L[|L| - 1]| == 0 ==> k == |L| - 2)
    && hi == (if |L[0]| == 0 then [] else L[..k])
    && lo == (if |L[|L| - 1]| == 0 then [] else L[k + 1..])
  }

  /** One step of `ParseIPv6Parts` on a list with a `::`. */
  lemma UnfoldCompressedParse(L: seq<string>, k: nat, hi: seq<string>, lo: seq<string>, h: seq<nat>, l: seq<nat>)
    requires AbbreviatedLayout(L, k, hi, lo)
    requires |hi| + |lo| < HextetCount && ParseHextets(hi) == Some(h) && ParseHextets(lo) == Some(l)
    ensures ParseIPv6Parts(L) == Some(IPv6(h + Zeros(HextetCount - |h| - |l|) + l))
  {
    ParseFindsAbbreviation(L, k, hi, lo);
    ParseAbbreviatedOf(L, k, hi, lo, h, l);
  }

  lemma ParseFindsAbbreviation(L: seq<string>, k: nat, hi: seq<string>, lo: seq<string>)
    requires AbbreviatedLayout(L, k, hi, lo)
    ensures ParseIPv6Parts(L) == ParseAbbreviated(L, k)
  {
  }

  lemma ParseAbbreviatedOf(L: seq<string>, k: nat, hi: seq<string>, lo: seq<string>, h: seq<nat>, l: seq<nat>)
    requires AbbreviatedLayout(L, k, hi, lo)
    requires |hi| + |lo| < HextetCount && ParseHextets(hi) == Some(h) && ParseHextets(lo) == Some(l)
    ensures ParseAbbreviated(L, k) == Some(IPv6(h + Zeros(HextetCount - |h| - |l|) + l))
  {
    assert |h| == |hi| && |l| == |lo|;
    AbbreviatedHalves(L, k);
  }

  /** `ParseAbbreviated` in terms of the groups before and after the `::`. */
  lemma AbbreviatedHalves(L: seq<string>, k: nat)
    requires 1 <= k < |L| - 1 && (|L[0]| == 0 ==> k == 1) && (|L[|L| - 1]| == 0 ==> k == |L| - 2)
    ensures var hi := if |L[0]| == 0 then [] else L[..k];
      var lo := if |L[|L| - 1]| == 0 then [] else L[k + 1..];
      var h, l := ParseHextets(hi), ParseHextets(lo);
      |hi| + |lo| < HextetCount && h.Some? && l.Some? ==>
        ParseAbbreviated(L, k) == Some(IPv6(h.value + Zeros(HextetCount - |hi| - |lo|) + l.value))
  {
  }

  /** Section 4.3 of RFC 5952: the canonical text is in lower case. */
  lemma FormatIPv6Lower(a: IPv6)
    ensures NoUpper(FormatIPv6(a))
  {
    var L := CompressedParts(a.groups);
    NumeralParts(a.groups);
    JoinAll(L, ':', c => !IsUpper(c));
  }

  /** Every character of the canonical text is a hexadecimal digit or a
      colon. */
  lemma FormatIPv6Chars(a: IPv6)
    ensures forall i :: 0 <= i < |FormatIPv6(a)| ==> IsDigitOf(FormatIPv6(a)[i], 16) || FormatIPv6(a)[i] == ':'
  {
    var L := CompressedParts(a.groups);
    NumeralParts(a.groups);
    JoinAll(L, ':', c => IsDigitOf(c, 16) || c == ':');
  }

  /** Each part of the canonical text is empty or a lower-case hexadecimal
      numeral. */
  lemma NumeralParts(gs: seq<nat>)
    ensures var L := CompressedParts(gs);
      forall i, j :: 0 <= i < |L| && 0 <= j < |L[i]| ==> IsDigitOf(L[i][j], 16) && !IsUpper(L[i][j])
  {
    var texts := HexTexts(gs);
    var (st, ln) := BestRun(gs);
    if ln > 1 {
      AbbreviatedFrom(texts, st, ln);
    }
  }

  /** Every character of a dotted quad is a decimal digit or a dot. */
  lemma FormatIPv4Chars(a: IPv4)
    ensures forall i :: 0 <= i < |FormatIPv4(a)| ==> IsDigit(FormatIPv4(a)[i]) || FormatIPv4(a)[i] == '.'
  {
    var ts := DecimalTexts(a.octets);
    forall i, j | 0 <= i < |ts| && 0 <= j < |ts[i]| ensures IsDigit(ts[i][j]) {
      assert IsDigitOf(ts[i][j], 10);
    }
    JoinAll(ts, '.', c => IsDigit(c) || c == '.');
  }

  /** Only digits and dots are ever read as an IPv4 address. */
  lemma IPv4Chars(s: string)
    requires ParseIPv4(s).Some?
    ensures forall i :: 0 <= i < |s| ==> IsDigit(s[i]) || s[i] == '.'
  {
    IPv4TextIff(s, ParseIPv4(s).value);
    FormatIPv4Chars(ParseIPv4(s).value);
  }

  /** Text read as an IPv6 address starts with a colon or a hexadecimal
      digit, and holds at least two colons. */
  lemma IPv6Shape(s: string)
    requires ParseIPv6(s).Some?
    ensures |s| > 0 && (s[0] == ':' || IsDigitOf(s[0], 16))
    ensures 0 <= Find(s, ':') < FindLast(s, ':')
  {
    var parts := Split(s, ':');
    TwoSeparators(s, ':');
    var k0 := Find(s, ':');
    assert parts[0] == s[..k0];
    if k0 > 0 {
      var k := FirstEmpty(parts, 1);
      if k == |parts| - 1 {
        assert ParseHextets(parts).Some?;
      } else {
        assert ParseAbbreviated(parts, k).Some?;
        assert ParseHextets(parts[..k]).Some?;
        assert parts[..k][0] == parts[0];
      }
      assert ParseHextet(parts[0]).Some?;
      assert s[0] == parts[0][0];
    }
  }

  /** Every part of an accepted IPv6 text is empty or a run of
      hexadecimal digits. */
  lemma AcceptedParts(parts: seq<string>)
    requires ParseIPv6Parts(parts).Some?
    ensures forall i :: 0 <= i < |parts| ==> AllDigitsOf(parts[i], 16)
  {
    assert 3 <= |parts| <= HextetCount + 1;
    var k := FirstEmpty(parts, 1);
    if k == |parts| - 1 {
      assert ParseHextets(parts).Some? by { assert ParseFull(parts).Some?; }
      HextetsDigits(parts);
    } else {
      assert ParseAbbreviated(parts, k).Some? && |parts[k]| == 0;
      AbbreviatedDigits(parts, k);
    }
  }

  /** The parts of a list of groups are hexadecimal numerals. */
  lemma HextetsDigits(ps: seq<string>)
    requires ParseHextets(ps).Some?
    ensures forall i :: 0 <= i < |ps| ==> AllDigitsOf(ps[i], 16)
  {
    forall i | 0 <= i < |ps| ensures AllDigitsOf(ps[i], 16) {
      PartDigits(ps, i);
    }
  }

  lemma PartDigits(ps: seq<string>, i: nat)
    requires ParseHextets(ps).Some? && i < |ps|
    ensures AllDigitsOf(ps[i], 16)
  {
    assert ParseHextet(ps[i]).Some?;
  }

  /** What an accepted list with a `::` at `k` satisfies. */
  lemma AbbreviatedParsed(L: seq<string>, k: nat)
    requires 1 <= k < |L| - 1 && ParseAbbreviated(L, k).Some?
    ensures |L[0]| == 0 ==> k == 1
    ensures |L[|L| - 1]| == 0 ==> k == |L| - 2
    ensures ParseHextets(if |L[0]| == 0 then [] else L[..k]).Some?
    ensures ParseHextets(if |L[|L| - 1]| == 0 then [] else L[k + 1..]).Some?
  {
  }

  /** The parts of an accepted list with a `::` at `k` are hexadecimal
      numerals or empty. */
  lemma AbbreviatedDigits(parts: seq<string>, k: nat)
    requires 1 <= k < |parts| - 1 && |parts[k]| == 0 && ParseAbbreviated(parts, k).Some?
    ensures forall i :: 0 <= i < |parts| ==> AllDigitsOf(parts[i], 16)
  {
    var lead := |parts[0]| == 0;
    var trail := |parts[|parts| - 1]| == 0;
    var hi := if lead then [] else parts[..k];
    var lo := if trail then [] else parts[k + 1..];
    AbbreviatedParsed(parts, k);
    forall i | 0 <= i < |parts| ensures AllDigitsOf(parts[i], 16) {
      if i < k && !lead {
        PartDigits(hi, i);
        assert parts[i] == hi[i];
      } else if i > k && !trail {
        PartDigits(lo, i - k - 1);
        assert parts[i] == lo[i - k - 1];
      } else {
        assert i == k || (lead && i == 0) || (trail && i == |parts| - 1);
        assert |parts[i]| == 0;
      }
    }
  }

  /** Only hexadecimal digits and colons are ever read as an IPv6
      address. */
  lemma IPv6Chars(s: string)
    requires ParseIPv6(s).Some?
    ensures forall i :: 0 <= i < |s| ==> IsDigitOf(s[i], 16) || s[i] == ':'
  {
    var parts := Split(s, ':');
    AcceptedParts(parts);
    JoinSplit(s, ':');
    JoinAll(parts, ':', c => IsDigitOf(c, 16) || c == ':');
  }

  // ----------------------------------------------------------------------
  // The four address types
  // ----------------------------------------------------------------------

  /** `IPv4Address`, `IPv4Port`, `IPv6Address` and `IPv6Port`.  An
      `IPv6Port` may lack its port (the text `[::1]`). */
  datatype Address =
    | IPv4Address(v4: IPv4)
    | IPv4Port(v4: IPv4, port: nat)
    | IPv6Address(v6: IPv6)
    | IPv6Port(v6: IPv6, optionalPort: Option<nat>)

  predicate ValidAddress(a: Address)
  {
    match a
    case IPv4Address(v) => ValidIPv4(v)
    case IPv4Port(v, p) => ValidIPv4(v) && p <= MaxPort
    case IPv6Address(v) => ValidIPv6(v)
    case IPv6Port(v, p) => ValidIPv6(v) && (p.Some? ==> p.value <= MaxPort)
  }

  /** `IPv4Port(s)`: an IPv4 address and a port, split at the last colon. */
  function ParseIPv4Port(s: string): (r: Option<Address>)
    ensures r.Some? ==> r.value.IPv4Port? && ValidAddress(r.value)
  {
    var k := FindLast(s, ':');
    if k < 0 then None
    else
      var a, p := ParseIPv4(s[..k]), ParsePort(s[k + 1..]);
      if a.None? || p.None? then None else Some(IPv4Port(a.value, p.value))
  }

  /** `IPv6Port(s)`: `[address]` or `[address]:port`, or a bare IPv6
      address without a port. */
  function ParseIPv6Port(s: string): (r: Option<Address>)
    ensures r.Some? ==> r.value.IPv6Port? && ValidAddress(r.value)
  {
    if |s| > 0 && s[0] == '[' then
      var k := Find(s, ']');
      if k == |s| then None
      else
        var a := ParseIPv6(s[1..k]);
        var rest := s[k + 1..];
        if a.None? then None
        else if |rest| == 0 then Some(IPv6Port(a.value, None))
        else if rest[0] != ':' then None
        else
          var p := ParsePort(rest[1..]);
          if p.None? then None else Some(IPv6Port(a.value, Some(p.value)))
    else
      var a := ParseIPv6(s);
      if a.None? then None else Some(IPv6Port(a.value, None))
  }

  /** `address(s)`: the first of `IPv4Address`, `IPv4Port`, `IPv6Address`
      and `IPv6Port` that accepts the text; `None` (a `ValueError`) when
      none does. */
  function ParseAddress(s: string): (r: Option<Address>)
    ensures r.Some? ==> ValidAddress(r.value)
  {
    var a4 := ParseIPv4(s);
    if a4.Some? then Some(IPv4Address(a4.value))
    else
      var p4 := ParseIPv4Port(s);
      if p4.Some? then p4
      else
        var a6 := ParseIPv6(s);
        if a6.Some? then Some(IPv6Address(a6.value)) else ParseIPv6Port(s)
  }

  /** `str(address)`.  An IPv6 address is bracketed only when a port
      follows. */
  function Display(a: Address): string
  {
    match a
    case IPv4Address(v) => FormatIPv4(v)
    case IPv4Port(v, p) => FormatIPv4(v) + ":" + Numeral(p, 10)
    case IPv6Address(v) => FormatIPv6(v)
    case IPv6Port(v, None) => FormatIPv6(v)
    case IPv6Port(v, Some(p)) => "[" + FormatIPv6(v) + "]:" + Numeral(p, 10)
  }

  /** The address that the printed form of `a` denotes: a port-less
      `IPv6Port` prints as a bare IPv6 address. */
  function Plain(a: Address): Address
  {
    if a.IPv6Port? && a.optionalPort.None? then IPv6Address(a.v6) else a
  }

  /** Printing any valid address and reading the text back gives the same
      address, up to the port-less `IPv6Port`, which reads back as the
      `IPv6Address` it prints as. */
  lemma AddressRoundTrip(a: Address)
    requires ValidAddress(a)
    ensures ParseAddress(Display(a)) == Some(Plain(a))
  {
    match a
    case IPv4Address(v) =>
      IPv4RoundTrip(v);
    case IPv4Port(v, p) =>
      IPv4PortRoundTrip(v, p);
    case IPv6Address(v) =>
      IPv6AddressRoundTrip(v);
    case IPv6Port(v, None) =>
      IPv6AddressRoundTrip(v);
    case IPv6Port(v, Some(p)) =>
      IPv6PortRoundTrip(v, p);
  }

  /** Canonicalisation is idempotent: the printed form of any accepted
      text is accepted and prints as itself. */
  lemma CanonicalIdempotent(s: string)
    requires ParseAddress(s).Some?
    ensures var t := Display(ParseAddress(s).value);
      ParseAddress(t).Some? && Display(ParseAddress(t).value) == t
  {
    var a := ParseAddress(s).value;
    AddressRoundTrip(a);
    assert Display(Plain(a)) == Display(a);
  }

  lemma IPv4PortRoundTrip(v: IPv4, p: nat)
    requires ValidIPv4(v) && p <= MaxPort
    ensures ParseAddress(Display(IPv4Port(v, p))) == Some(IPv4Port(v, p))
  {
    var f, n := FormatIPv4(v), Numeral(p, 10);
    var s := f + ":" + n;
    assert s == f + [':'] + n;
    FormatIPv4Chars(v);
    NumeralExcludes(p, 10, ':');
    assert s[|f|] == ':';
    if ParseIPv4(s).Some? {
      IPv4Chars(s);
      assert false;
    }
    FindLastAppend(f, n, ':');
    assert s[..|f|] == f && s[|f| + 1..] == n;
    IPv4RoundTrip(v);
    PortOfNumeral(p);
  }

  lemma IPv6AddressRoundTrip(v: IPv6)
    requires ValidIPv6(v)
    ensures ParseAddress(FormatIPv6(v)) == Some(IPv6Address(v))
  {
    IPv6RoundTrip(v);
    BareIPv6(FormatIPv6(v));
  }

  /** Text that is an IPv6 address is read as an `IPv6Address`: neither
      IPv4 form accepts it. */
  lemma BareIPv6(s: string)
    requires ParseIPv6(s).Some?
    ensures ParseAddress(s) == Some(IPv6Address(ParseIPv6(s).value))
  {
    IPv6Shape(s);
    var k0, k := Find(s, ':'), FindLast(s, ':');
    if ParseIPv4(s).Some? {
      IPv4Chars(s);
      assert false;
    }
    assert s[..k][k0] == ':';
    if ParseIPv4(s[..k]).Some? {
      IPv4Chars(s[..k]);
      assert false;
    }
  }

  lemma IPv6PortRoundTrip(v: IPv6, p: nat)
    requires ValidIPv6(v) && p <= MaxPort
    ensures ParseAddress(Display(IPv6Port(v, Some(p)))) == Some(IPv6Port(v, Some(p)))
  {
    var f, n := FormatIPv6(v), Numeral(p, 10);
    var s := "[" + f + "]:" + n;
    assert Display(IPv6Port(v, Some(p))) == s;
    NoBracket(v);
    BracketedIsIPv6Port(s);
    BracketedPort(f, n);
    IPv6RoundTrip(v);
    PortOfNumeral(p);
    assert ParseIPv6Port(s) == Some(IPv6Port(v, Some(p)));
  }

  lemma NoBracket(v: IPv6)
    ensures ']' !in FormatIPv6(v)
  {
    FormatIPv6Chars(v);
  }

  /** `[f]:n` is cut into `f` and `n` when `f` holds no bracket. */
  lemma BracketedPort(f: string, n: string)
    requires ']' !in f
    ensures var s := "[" + f + "]:" + n;
      ParseIPv6Port(s) ==
        var a := ParseIPv6(f);
        if a.None? then None
        else var q := ParsePort(n); if q.None? then None else Some(IPv6Port(a.value, Some(q.value)))
  {
    var s := "[" + f + "]:" + n;
    var k := |f| + 1;
    assert Find(s, ']') == k && s[0] == '[' && s[k + 1] == ':' by {
      assert s == ("[" + f) + ("]:" + n);
      FindAppend("[" + f, "]:" + n, ']');
    }
    assert s[1..k] == f && s[k + 2..] == n;
    PortAfterBracket(s, k);
  }

  /** A bracketed address followed by a colon is read as the address in
      the brackets and the port after the colon. */
  lemma PortAfterBracket(s: string, k: nat)
    requires 0 < k == Find(s, ']') && k + 1 < |s| && s[0] == '[' && s[k + 1] == ':'
    ensures ParseIPv6Port(s) ==
      var a := ParseIPv6(s[1..k]);
      if a.None? then None
      else var q := ParsePort(s[k + 2..]); if q.None? then None else Some(IPv6Port(a.value, Some(q.value)))
  {
    var rest := s[k + 1..];
    assert rest[0] == ':' && rest[1..] == s[k + 2..];
  }

  /** `[f]` is read as the address `f` without a port. */
  lemma Bracketed(f: string)
    requires ']' !in f
    ensures ParseIPv6Port("[" + f + "]") ==
      var a := ParseIPv6(f); if a.None? then None else Some(IPv6Port(a.value, None))
  {
    var s := "[" + f + "]";
    FindAppend("[" + f, "]", ']');
    assert Find(s, ']') == |f| + 1;
    assert s[1..|f| + 1] == f;
  }

  /** Any text in brackets is read, if at all, as an `IPv6Port`. */
  lemma BracketedIsIPv6Port(s: string)
    requires |s| > 0 && s[0] == '['
    ensures ParseAddress(s) == ParseIPv6Port(s)
  {
    if ParseIPv4(s).Some? {
      IPv4Chars(s);
      assert false;
    }
    var k := FindLast(s, ':');
    if k >= 0 && ParseIPv4(s[..k]).Some? {
      IPv4Chars(s[..k]);
      assert false;
    }
    if ParseIPv6(s).Some? {
      IPv6Shape(s);
      assert false;
    }
  }

  // ----------------------------------------------------------------------
  // Examples (tests/test_datatypes.py, `test_address`)
  // ----------------------------------------------------------------------

  function Loopback4(): IPv4 { IPv4([127, 0, 0, 1]) }
  function Loopback6(): IPv6 { IPv6([0, 0, 0, 0, 0, 0, 0, 1]) }

  lemma Loopback4Text()
    ensures FormatIPv4(Loopback4()) == "127.0.0.1"
  {
    assert Numeral(12, 10) == "12";
    assert Numeral(127, 10) == "127";
    assert DecimalTexts(Loopback4().octets) == ["127", "0", "0", "1"];
  }

  lemma IPv4Example()
    ensures ParseAddress("127.0.0.1") == Some(IPv4Address(Loopback4()))
  {
    Loopback4Text();
    AddressRoundTrip(IPv4Address(Loopback4()));
  }

  lemma IPv4PortExample()
    ensures ParseAddress("127.0.0.1:80") == Some(IPv4Port(Loopback4(), 80))
  {
    var a := IPv4Port(Loopback4(), 80);
    Loopback4Text();
    assert Numeral(80, 10) == "80";
    assert Display(a) == "127.0.0.1:80";
    AddressRoundTrip(a);
  }

  lemma Loopback6Parse()
    ensures ParseIPv6("::1") == Some(Loopback6())
  {
    var gs := Loopback6().groups;
    CompressedRoundTrip(gs, 0, 7);
    assert Numeral(1, 16) == "1";
    var parts := ["", "", "1"];
    assert Abbreviated(HexTexts(gs), 0, 7) == parts;
    assert Join(parts, ':') == "::1";
    SplitJoin(parts, ':');
  }

  lemma SmallPort(t: string, p: nat)
    requires p <= MaxPort && t == Numeral(p, 10)
    ensures ParsePort(t) == Some(p)
  {
    PortOfNumeral(p);
  }

  lemma IPv6Example()
    ensures ParseAddress("::1") == Some(IPv6Address(Loopback6()))
  {
    Loopback6Parse();
    BareIPv6("::1");
  }

  lemma BracketedLoopbackExample()
    ensures ParseAddress("[::1]") == Some(IPv6Port(Loopback6(), None))
  {
    assert "[::1]" == "[" + "::1" + "]";
    Loopback6Parse();
    BracketedIsIPv6Port("[::1]");
    Bracketed("::1");
  }

  lemma BracketedLoopbackPortExample()
    ensures ParseAddress("[::1]:80") == Some(IPv6Port(Loopback6(), Some(80)))
  {
    SmallPort("80", 80);
    assert "[::1]:80" == "[" + "::1" + "]:" + "80";
    Loopback6Parse();
    BracketedIsIPv6Port("[::1]:80");
    BracketedPort("::1", "80");
  }

  function Documentation6(): IPv6
  {
    IPv6([0x2001, 0xdb8, 0x85a3, 0, 0, 0x8a2e, 0x370, 0x7334])
  }

  /** Eight groups with no `::` are read group by group. */
  lemma FullParse(parts: seq<string>, gs: seq<nat>)
    requires |parts| == HextetCount && |gs| == HextetCount && NonEmptyParts(parts)
    requires forall i :: 0 <= i < |parts| ==> ParseHextet(parts[i]) == Some(gs[i])
    ensures ParseIPv6Parts(parts) == Some(IPv6(gs))
  {
    assert FirstEmpty(parts, 1) == |parts| - 1;
    ParseHextetsOf(parts, gs);
  }

  /** A group written with leading zeros. */
  lemma PaddedHextet(z: string, n: nat)
    requires n <= MaxHextet && forall i :: 0 <= i < |z| ==> z[i] == '0'
    requires |z| + |Numeral(n, 16)| <= 4
    ensures ParseHextet(z + Numeral(n, 16)) == Some(n)
  {
    ValueOfZeroPrefix(z, Numeral(n, 16), 16);
    ValueOfNumeral(n, 16);
  }

  lemma HextetValues()
    ensures ParseHextet("2001") == Some(0x2001) && ParseHextet("0db8") == Some(0xdb8)
    ensures ParseHextet("85a3") == Some(0x85a3) && ParseHextet("0000") == Some(0)
    ensures ParseHextet("8a2e") == Some(0x8a2e) && ParseHextet("0370") == Some(0x370)
    ensures ParseHextet("7334") == Some(0x7334)
  {
    HextetsFull();
    HextetsPadded();
  }

  lemma HextetsFull()
    ensures ParseHextet("2001") == Some(0x2001) && ParseHextet("85a3") == Some(0x85a3)
    ensures ParseHextet("8a2e") == Some(0x8a2e) && ParseHextet("7334") == Some(0x7334)
  {
    HextetsFirst();
    HextetsLast();
  }

  lemma HextetsFirst()
    ensures ParseHextet("2001") == Some(0x2001) && ParseHextet("85a3") == Some(0x85a3)
  {
    Hextet2001();
    Hextet85a3();
  }

  lemma HextetsLast()
    ensures ParseHextet("8a2e") == Some(0x8a2e) && ParseHextet("7334") == Some(0x7334)
  {
    Hextet8a2e();
    Hextet7334();
  }

  lemma Hextet2001()
    ensures ParseHextet("2001") == Some(0x2001)
  {
    FourDigitHextet(0x2001);
  }

  lemma Hextet85a3()
    ensures ParseHextet("85a3") == Some(0x85a3)
  {
    FourDigitHextet(0x85a3);
  }

  lemma Hextet8a2e()
    ensures ParseHextet("8a2e") == Some(0x8a2e)
  {
    FourDigitHextet(0x8a2e);
  }

  lemma Hextet7334()
    ensures ParseHextet("7334") == Some(0x7334)
  {
    FourDigitHextet(0x7334);
  }

  lemma HextetsPadded()
    ensures ParseHextet("0db8") == Some(0xdb8) && ParseHextet("0370") == Some(0x370)
    ensures ParseHextet("0000") == Some(0)
  {
    PaddedThreeDigitHextet(0xdb8);
    PaddedThreeDigitHextet(0x370);
    assert Numeral(0, 16) == "0";
    assert "0000" == "000" + "0";
    PaddedHextet("000", 0);
  }

  lemma FourDigitHextet(n: nat)
    requires 0x1000 <= n <= MaxHextet
    ensures ParseHextet([DigitChar(n / 0x1000), DigitChar(n / 0x100 % 16), DigitChar(n / 16 % 16), DigitChar(n % 16)]) == Some(n)
  {
    HexNumeral4(n);
    HextetOfNumeral(n);
  }

  lemma PaddedThreeDigitHextet(n: nat)
    requires 0x100 <= n < 0x1000
    ensures ParseHextet(['0', DigitChar(n / 0x100), DigitChar(n / 16 % 16), DigitChar(n % 16)]) == Some(n)
  {
    HexNumeral3(n);
    assert ['0', DigitChar(n / 0x100), DigitChar(n / 16 % 16), DigitChar(n % 16)] == "0" + Numeral(n, 16);
    PaddedHextet("0", n);
  }

  function DocumentationFullParts(): seq<string>
  {
    ["2001", "0db8", "85a3", "0000", "0000", "8a2e", "0370", "7334"]
  }

  function DocumentationShortParts(): seq<string>
  {
    ["2001", "db8", "85a3", "", "8a2e", "370", "7334"]
  }

  /** `2001:0db8:85a3:0000:0000:8a2e:0370:7334`, written in full with
      leading zeros and no `::`. */
  lemma DocumentationFull()
    ensures ParseIPv6(Join(DocumentationFullParts(), ':')) == Some(Documentation6())
  {
    var full := DocumentationFullParts();
    assert Split(Join(full, ':'), ':') == full by { SplitJoin(full, ':'); }
    DocumentationFullParse();
  }

  lemma DocumentationFullParse()
    ensures ParseIPv6Parts(DocumentationFullParts()) == Some(Documentation6())
  {
    HextetValues();
    FullParse(DocumentationFullParts(), Documentation6().groups);
  }

  lemma DocumentationRun()
    ensures BestRun(Documentation6().groups) == (3, 2)
  {
    var gs := Documentation6().groups;
    assert ZeroRun(gs, 5) == 0 && ZeroRun(gs, 6) == 0 && ZeroRun(gs, 7) == 0;
    assert ZeroRun(gs, 4) == 1 + ZeroRun(gs, 5);
    assert ZeroRun(gs, 3) == 2;
    assert ZeroRun(gs, 0) == 0 && ZeroRun(gs, 1) == 0 && ZeroRun(gs, 2) == 0;
    assert BestRunFrom(gs, 5, 3, 2) == (3, 2) by {
      assert BestRunFrom(gs, 7, 3, 2) == BestRunFrom(gs, 8, 3, 2) == (3, 2);
      assert BestRunFrom(gs, 6, 3, 2) == BestRunFrom(gs, 7, 3, 2);
    }
    assert BestRunFrom(gs, 3, 0, 0) == BestRunFrom(gs, 5, 3, 2);
    assert BestRunFrom(gs, 1, 0, 0) == BestRunFrom(gs, 2, 0, 0) == BestRunFrom(gs, 3, 0, 0);
  }

  lemma DocumentationTexts()
    ensures HexTexts(Documentation6().groups) == ["2001", "db8", "85a3", "0", "0", "8a2e", "370", "7334"]
  {
    NumeralsOfGroups01();
    NumeralsOfGroups25();
    NumeralsOfGroups67();
  }

  lemma NumeralsOfGroups01()
    ensures Numeral(0x2001, 16) == "2001" && Numeral(0xdb8, 16) == "db8"
  {
    HexNumeral4(0x2001);
    HexNumeral3(0xdb8);
  }

  lemma NumeralsOfGroups25()
    ensures Numeral(0x85a3, 16) == "85a3" && Numeral(0x8a2e, 16) == "8a2e"
  {
    HexNumeral4(0x85a3);
    HexNumeral4(0x8a2e);
  }

  lemma NumeralsOfGroups67()
    ensures Numeral(0x370, 16) == "370" && Numeral(0x7334, 16) == "7334"
  {
    HexNumeral3(0x370);
    HexNumeral4(0x7334);
  }

  /** `2001:db8:85a3::8a2e:370:7334` is the canonical text of that same
      address. */
  lemma DocumentationShort()
    ensures FormatIPv6(Documentation6()) == Join(DocumentationShortParts(), ':')
  {
    DocumentationCompressed();
  }

  /** The canonical text reads back as the address. */
  lemma DocumentationShortParse()
    ensures ParseIPv6(Join(DocumentationShortParts(), ':')) == Some(Documentation6())
  {
    var t := Join(DocumentationShortParts(), ':');
    assert FormatIPv6(Documentation6()) == t by { DocumentationShort(); }
    assert ValidIPv6(Documentation6()) by { Documentation6Valid(); }
    ReadsBack(Documentation6(), t);
  }

  lemma Documentation6Valid()
    ensures ValidIPv6(Documentation6())
  {
    var gs := Documentation6().groups;
    assert forall i :: 0 <= i < |gs| ==> gs[i] <= MaxHextet;
  }

  /** The canonical text of an address reads back as it. */
  lemma ReadsBack(a: IPv6, t: string)
    requires ValidIPv6(a) && FormatIPv6(a) == t
    ensures ParseIPv6(t) == Some(a)
  {
    IPv6RoundTrip(a);
  }

  lemma DocumentationCompressed()
    ensures CompressedParts(Documentation6().groups) == DocumentationShortParts()
  {
    var gs := Documentation6().groups;
    var texts := HexTexts(gs);
    assert CompressedParts(gs) == Abbreviated(texts, 3, 2) by { DocumentationRun(); }
    assert texts == ["2001", "db8", "85a3", "0", "0", "8a2e", "370", "7334"] by { DocumentationTexts(); }
    DocumentationCut(texts);
  }

  lemma DocumentationCut(texts: seq<string>)
    requires texts == ["2001", "db8", "85a3", "0", "0", "8a2e", "370", "7334"]
    ensures Abbreviated(texts, 3, 2) == DocumentationShortParts()
  {
    assert Abbreviated(texts, 3, 2) == texts[..3] + [""] + texts[5..];
  }

  lemma BracketedDocumentationExample()
    ensures ParseAddress("[" + Join(DocumentationFullParts(), ':') + "]:" + "22") == Some(IPv6Port(Documentation6(), Some(22)))
  {
    SmallPort("22", 22);
    DocumentationFull();
    BracketedAddress(Join(DocumentationFullParts(), ':'), "22");
  }

  lemma BracketedBadPortExample()
    ensures ParseAddress("[::1]:100000").None?
  {
    assert "[::1]:100000" == "[" + "::1" + "]:" + "100000";
    BigPort();
    Loopback6Parse();
    BracketedAddress("::1", "100000");
  }

  lemma LinkLocalParse()
    ensures ParseIPv6("fe80::7334") == Some(IPv6([0xfe80, 0, 0, 0, 0, 0, 0, 0x7334]))
  {
    var parts := ["fe80", "", "7334"];
    assert Split("fe80::7334", ':') == parts by {
      assert Join(parts, ':') == "fe80::7334";
      SplitJoin(parts, ':');
    }
    LinkLocalParts();
  }

  lemma LinkLocalParts()
    ensures ParseIPv6Parts(["fe80", "", "7334"]) == Some(IPv6([0xfe80, 0, 0, 0, 0, 0, 0, 0x7334]))
  {
    var gs := [0xfe80, 0, 0, 0, 0, 0, 0, 0x7334];
    LinkLocalTexts();
    CompressedRoundTrip(gs, 1, 6);
  }

  lemma LinkLocalTexts()
    ensures Abbreviated(HexTexts([0xfe80, 0, 0, 0, 0, 0, 0, 0x7334]), 1, 6) == ["fe80", "", "7334"]
  {
    HexNumeral4(0xfe80);
    HexNumeral4(0x7334);
    var texts := HexTexts([0xfe80, 0, 0, 0, 0, 0, 0, 0x7334]);
    assert texts[0] == "fe80" && texts[7] == "7334";
    assert texts[..1] == ["fe80"] && texts[7..] == ["7334"];
  }

  lemma LinkLocalExample()
    ensures ParseAddress("[fe80::7334]:22") == Some(IPv6Port(IPv6([0xfe80, 0, 0, 0, 0, 0, 0, 0x7334]), Some(22)))
  {
    assert "[fe80::7334]:22" == "[" + "fe80::7334" + "]:" + "22";
    SmallPort("22", 22);
    LinkLocalParse();
    BracketedAddress("fe80::7334", "22");
  }

  /** `[f]:n` is read as the IPv6 address `f` and the port `n`. */
  lemma BracketedAddress(f: string, n: string)
    requires ParseIPv6(f).Some?
    ensures ParseAddress("[" + f + "]:" + n) ==
      var q := ParsePort(n); if q.None? then None else Some(IPv6Port(ParseIPv6(f).value, Some(q.value)))
  {
    var s := "[" + f + "]:" + n;
    assert ']' !in f by {
      IPv6Chars(f);
      assert !IsDigitOf(']', 16);
    }
    assert s[0] == '[';
    BracketedIsIPv6Port(s);
    BracketedPort(f, n);
  }

  /** Text without a colon that is not a dotted quad is no address. */
  lemma NoColonNoAddress(s: string)
    requires ':' !in s && ParseIPv4(s).None? && (|s| > 0 ==> s[0] != '[')
    ensures ParseAddress(s).None?
  {
    SplitNoSeparator(s, ':');
  }

  lemma NotFourFields(s: string)
    requires |Split(s, '.')| != OctetCount
    ensures ParseIPv4(s).None?
  {
  }

  lemma WordExample()
    ensures ParseAddress("abc").None?
  {
    SplitNoSeparator("abc", '.');
    NoColonNoAddress("abc");
  }

  lemma DomainNameExample()
    ensures ParseAddress("google.com").None?
  {
    assert ':' !in "google.com";
    var g := ["google", "com"];
    assert Join(g, '.') == "google.com";
    SplitJoin(g, '.');
    NotFourFields("google.com");
    NoColonNoAddress("google.com");
  }

  /** `172.224.24.300`: four fields, but the last is no octet. */
  lemma BadOctetExample()
    ensures ParseAddress("172.224.24.300").None?
  {
    var t := "172.224.24.300";
    assert ':' !in t;
    assert ParseIPv4(t).None? by {
      BadOctetFields();
      OctetTooLarge();
      BadFieldIPv4(t, 3);
    }
    NoColonNoAddress(t);
  }

  lemma BadOctetFields()
    ensures Split("172.224.24.300", '.') == ["172", "224", "24", "300"]
  {
    var parts := ["172", "224", "24", "300"];
    assert Join(parts, '.') == "172.224.24.300";
    SplitJoin(parts, '.');
  }

  /** `300` is no octet. */
  lemma OctetTooLarge()
    ensures ParseOctet("300").None?
  {
    assert Numeral(300, 10) == "300";
    ValueOfNumeral(300, 10);
  }

  /** A field that is no octet makes the text no IPv4 address. */
  lemma BadFieldIPv4(s: string, i: nat)
    requires i < |Split(s, '.')| && ParseOctet(Split(s, '.')[i]).None?
    ensures ParseIPv4(s).None?
  {
  }

  lemma FooBarAddressExample()
    ensures ParseAddress("foo.bar").None?
  {
    var t := "foo.bar";
    var g := ["foo", "bar"];
    assert Join(g, '.') == t;
    assert ':' !in t;
    SplitJoin(g, '.');
    NotFourFields(t);
    NoColonNoAddress(t);
  }

  /** `a:n` with a dotted quad `a` and a port `n` too large. */
  lemma IPv4BadPort(a: string, n: string)
    requires ParseIPv4(a).Some? && ParsePort(n).None? && ':' !in n
    ensures ParseAddress(a + ":" + n).None?
  {
    var t := a + ":" + n;
    IPv4Chars(a);
    NotDottedQuad(a, n);
    NotIPv4Port(a, n);
    OneColon(a, n);
    assert t[0] == a[0];
  }

  lemma NotDottedQuad(a: string, n: string)
    ensures ParseIPv4(a + ":" + n).None?
  {
    var t := a + ":" + n;
    assert t[|a|] == ':';
    if ParseIPv4(t).Some? {
      IPv4Chars(t);
      assert false;
    }
  }

  lemma NotIPv4Port(a: string, n: string)
    requires ParsePort(n).None? && ':' !in n
    ensures ParseIPv4Port(a + ":" + n).None?
  {
    var t := a + ":" + n;
    assert t == a + [':'] + n;
    FindLastAppend(a, n, ':');
    assert t[|a| + 1..] == n;
  }

  /** Text with a single colon is no IPv6 address. */
  lemma OneColon(a: string, n: string)
    requires ':' !in a && ':' !in n
    ensures ParseIPv6(a + ":" + n).None?
  {
    assert Join([a, n], ':') == a + ":" + n;
    SplitJoin([a, n], ':');
  }

  lemma BigPort()
    ensures ParsePort("100000").None?
  {
    assert Numeral(100000, 10) == "100000";
    ValueOfNumeral(100000, 10);
  }

  lemma IPv4BadPortExample()
    ensures ParseAddress("127.0.0.1:100000").None?
  {
    assert "127.0.0.1:100000" == "127.0.0.1" + ":" + "100000";
    BigPort();
    Loopback4Text();
    IPv4RoundTrip(Loopback4());
    IPv4BadPort("127.0.0.1", "100000");
  }
}
