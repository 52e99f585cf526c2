/** Names that their own delimiters cut: when a file name gives its licence back, and what it gives otherwise. */
module CutNames {
  import opened Wrappers
  import opened LicenceJson
  import opened LowerCase
  import opened Text
  import opened CustomServers
  import opened FileNames
  import opened NameParts
  import Base64Url
  import Utf8

  // ---- segments that hold nothing ----

  lemma TrimSymbols(s: string)
    requires s != "" && Base64Url.AllSymbols(s)
    ensures Trim(s) == s && '(' !in s
  {
    assert Base64Url.IsSymbol(s[0]) && Base64Url.IsSymbol(s[|s| - 1]);
    TrimDropsSpaces(s, "");
    assert s + "" == s;
  }

  lemma SymbolSegment(verify: Verify, s: string)
    requires s != "" && Base64Url.AllSymbols(s)
    ensures FromSegment(verify, s) == FromConfigString(verify, s)
  {
    TrimSymbols(s);
  }

  lemma OddSegment(verify: Verify, s: string)
    requires |s| % 4 == 1 && Base64Url.AllSymbols(s)
    ensures FromSegment(verify, s) == None
  {
    SymbolSegment(verify, s);
    Base64Url.ImpossibleLength(Base64Url.Values(Reverse(s)));
  }

  // ---- nothing to replace ----

  /** Every hyphen is followed by something other than the letter that a licence delimiter needs. */
  ghost predicate NoLicenceMark(s: string) {
    forall i | 0 <= i < |s| - 1 && s[i] == '-' :: s[i + 1] != 'l'
  }

  lemma ReplaceNothing(s: string, pattern: string)
    requires NoLicenceMark(s) && LICENSED <= pattern
    ensures Replace(s, pattern, "--") == s
  {
    assert pattern[0] == LICENSED[0] && pattern[1] == LICENSED[1];
    forall i: nat | i < |s|
      ensures !MatchAt(s, i, pattern)
    {
      Mismatch(s, i, pattern, if s[i] != '-' then 0 else 1);
    }
    assert s + "" == s;
    ReplaceSkips(s, "", pattern, "--");
  }

  lemma NormaliseNothing(s: string)
    requires NoLicenceMark(s)
    ensures Normalise(s) == s
  {
    ReplaceNothing(s, "-licensed---");
    ReplaceNothing(s, "-licensed--");
    ReplaceNothing(s, LICENSED);
  }

  lemma SegmentAlone(verify: Verify, segment: string)
    ensures FromSegments(verify, [segment]) == FromSegment(verify, segment)
  {
  }

  // ---- what the replacements and the cut leave of a name ----

  /** Replacing a delimiter shortens the text, or there is none. */
  lemma {:induction false} ReplaceShortens(s: string, pattern: string)
    requires |pattern| >= 3 && '-' == pattern[0]
    ensures var r := Replace(s, pattern, "--");
            && |r| <= |s|
            && (|r| == |s| ==> r == s && !Contains(s, pattern))
            && (s != "" && s[0] != '-' ==> r != "" && r[0] == s[0])
            && (Base64Url.AllSymbols(s) ==> Base64Url.AllSymbols(r))
    decreases |s|
  {
    if s == "" {
    } else if pattern <= s {
      ReplaceShortens(s[|pattern|..], pattern);
      assert s[0] == pattern[0];
      assert Base64Url.IsSymbol('-');
    } else {
      ReplaceShortens(s[1..], pattern);
      NoMatchFromFirst(s, pattern);
      assert s == [s[0]] + s[1..];
    }
  }

  /** Without an occurrence at the front, occurrences are those in the rest. */
  lemma NoMatchFromFirst(s: string, pattern: string)
    requires s != "" && !(pattern <= s)
    ensures Contains(s, pattern) == Contains(s[1..], pattern)
  {
    if Contains(s, pattern) {
      var i: nat :| i <= |s| && MatchAt(s, i, pattern);
      if i > 0 {
        ShiftMatch(s, i - 1, pattern);
        assert i - 1 <= |s[1..]| && MatchAt(s[1..], i - 1, pattern);
      }
    }
    if Contains(s[1..], pattern) {
      var i: nat :| i <= |s[1..]| && MatchAt(s[1..], i, pattern);
      ShiftMatch(s, i, pattern);
      assert i + 1 <= |s| && MatchAt(s, i + 1, pattern);
    }
  }

  /** Up to a double hyphen, the replaced text begins like the text. */
  lemma {:induction false} PrefixOfReplaced(s: string, pattern: string, u: string)
    requires IsDelimiterPattern(pattern) && u <= Replace(s, pattern, "--") && !Contains(u, "--")
    ensures u <= s
    decreases |s|
  {
    if s == "" || u == "" {
    } else if pattern <= s {
      var rest := Replace(s[|pattern|..], pattern, "--");
      PairAtMostOnce(u, rest);
      assert u[0] == ("--" + rest)[0] == s[0];
    } else {
      var rest := Replace(s[1..], pattern, "--");
      assert u[1..] <= rest by {
        assert ([s[0]] + rest)[1..] == rest;
      }
      RestHasNone(u);
      PrefixOfReplaced(s[1..], pattern, u[1..]);
      assert u == [s[0]] + u[1..] && s == [s[0]] + s[1..];
    }
  }

  lemma PairMatches(u: string, rest: string)
    requires u <= "--" + rest
    ensures |u| >= 2 ==> MatchAt(u, 0, "--")
  {
    assert |u| >= 2 ==> u[0..2] == ("--" + rest)[0..2] == "--";
  }

  lemma PairAtMostOnce(u: string, rest: string)
    requires u <= "--" + rest && !Contains(u, "--")
    ensures |u| <= 1
  {
    PairMatches(u, rest);
  }

  lemma RestHasNone(u: string)
    requires u != "" && !Contains(u, "--")
    ensures !Contains(u[1..], "--")
  {
    forall i: nat | i <= |u[1..]|
      ensures !MatchAt(u[1..], i, "--")
    {
      ShiftMatch(u, i, "--");
      assert !MatchAt(u, i + 1, "--");
    }
  }

  /** A licence delimiter, which begins and ends with a hyphen. */
  predicate IsDelimiterPattern(pattern: string) {
    |pattern| >= 3 && pattern[0] == '-' && pattern[|pattern| - 1] == '-'
  }

  /** Without a double hyphen in it, a stretch of the replaced text is a stretch of the text. */
  lemma {:induction false} StretchOfReplaced(s: string, pattern: string, u: string, i: nat) returns (j: nat)
    requires IsDelimiterPattern(pattern) && MatchAt(Replace(s, pattern, "--"), i, u) && !Contains(u, "--")
    ensures MatchAt(s, j, u)
    decreases |s|
  {
    var r := Replace(s, pattern, "--");
    if i == 0 || u == "" {
      PrefixAt(r, u);
      PrefixOfReplaced(s, pattern, u);
      PrefixMatches(s, u);
      j := 0;
    } else if pattern <= s {
      j := BehindReplaced(s, pattern, u, i);
    } else {
      ShiftMatch(r, i - 1, u);
      assert r[1..] == Replace(s[1..], pattern, "--");
      var k := StretchOfReplaced(s[1..], pattern, u, i - 1);
      ShiftMatch(s, k, u);
      j := k + 1;
    }
  }

  lemma PrefixAt(s: string, u: string)
    requires MatchAt(s, 0, u) || u == ""
    ensures u <= s
  {
    if u != "" {
      assert s[0..|u|] == s[..|u|];
    }
  }

  lemma PrefixMatches(s: string, u: string)
    requires u <= s
    ensures MatchAt(s, 0, u)
  {
    assert s[0..|u|] == u;
  }

  lemma {:induction false} BehindReplaced(s: string, pattern: string, u: string, i: nat) returns (j: nat)
    requires IsDelimiterPattern(pattern) && pattern <= s && i > 0 && u != ""
    requires MatchAt(Replace(s, pattern, "--"), i, u) && !Contains(u, "--")
    ensures MatchAt(s, j, u)
    decreases |s|, 0
  {
    var rest := s[|pattern|..];
    var r := Replace(rest, pattern, "--");
    var whole := "--" + r;
    assert whole == Replace(s, pattern, "--");
    if i == 1 {
      // The inserted hyphen in front is the last one of the delimiter.
      assert whole[1..1 + |u|] == u;
      var v := u[1..];
      assert u[0] == '-' && v <= r by {
        assert u[0] == whole[1];
        assert v == whole[2..1 + |u|] == r[..|u| - 1];
      }
      RestHasNone(u);
      PrefixOfReplaced(rest, pattern, v);
      j := |pattern| - 1;
      assert s[j..] == ['-'] + rest by {
        assert s[j] == pattern[j];
      }
      assert u == ['-'] + v && u <= s[j..];
      assert s[j..j + |u|] == s[j..][..|u|];
    } else {
      assert whole[i..i + |u|] == r[i - 2..i - 2 + |u|];
      var k := StretchOfReplaced(rest, pattern, u, i - 2);
      j := k + |pattern|;
      assert s[j..j + |u|] == rest[k..k + |u|];
    }
  }

  lemma PartOfReplaced(s: string, pattern: string, u: string)
    requires IsDelimiterPattern(pattern) && Contains(Replace(s, pattern, "--"), u) && !Contains(u, "--")
    ensures Contains(s, u)
  {
    var i: nat :| i <= |Replace(s, pattern, "--")| && MatchAt(Replace(s, pattern, "--"), i, u);
    var j := StretchOfReplaced(s, pattern, u, i);
    assert j <= |s|;
  }

  /** A part of a text that is cut at double hyphens: a stretch of it without one, no longer than the bound. */
  ghost predicate IsSegment(s: string, part: string, bound: int) {
    Contains(s, part) && !Contains(part, "--") && |part| <= bound
  }

  lemma ContainsFurther(s: string, k: nat, part: string)
    requires k <= |s| && Contains(s[k..], part)
    ensures Contains(s, part)
  {
    var i: nat :| i <= |s[k..]| && MatchAt(s[k..], i, part);
    assert s[k..][i..i + |part|] == s[k + i..k + i + |part|];
    assert k + i <= |s| && MatchAt(s, k + i, part);
  }

  /** What stands in front of the first double hyphen. */
  lemma {:induction false} FirstPart(s: string)
    ensures Split(s, "--")[0] <= s && !Contains(Split(s, "--")[0], "--")
    decreases |s|
  {
    if s == "" || "--" <= s {
      EmptyHasNone();
    } else {
      var first := Split(s[1..], "--")[0];
      FirstPart(s[1..]);
      assert [s[0]] + first <= s by {
        assert s == [s[0]] + s[1..];
      }
      forall i: nat | i <= 1 + |first|
        ensures !MatchAt([s[0]] + first, i, "--")
      {
        if i == 0 {
          NotInFront(s, [s[0]] + first);
        } else {
          ShiftMatch([s[0]] + first, i - 1, "--");
          assert ([s[0]] + first)[1..] == first;
          assert !MatchAt(first, i - 1, "--");
        }
      }
    }
  }

  lemma EmptyHasNone()
    ensures !Contains("", "--")
  {
  }

  lemma NotInFront(s: string, u: string)
    requires u <= s && !("--" <= s)
    ensures !MatchAt(u, 0, "--")
  {
    assert |u| >= 2 ==> u[0..2] == s[..2];
  }

  lemma PrefixIsContained(s: string, u: string)
    requires u <= s
    ensures Contains(s, u)
  {
    PrefixMatches(s, u);
  }

  /** Every part is a stretch of the text, and shorter by a separator when the text is cut at all. */
  lemma {:induction false} PartsAreSegments(s: string)
    ensures forall part | part in Split(s, "--") ::
              IsSegment(s, part, if Contains(s, "--") then |s| - 2 else |s|)
    decreases |s|
  {
    FirstPart(s);
    var parts := Split(s, "--");
    PrefixIsContained(s, parts[0]);
    if s == "" {
    } else if "--" <= s {
      PartsAreSegments(s[2..]);
      PrefixMatches(s, "--");
      forall part | part in Split(s[2..], "--")
        ensures Contains(s, part)
      {
        ContainsFurther(s, 2, part);
      }
      assert parts == [""] + Split(s[2..], "--");
    } else {
      PartsAreSegments(s[1..]);
      NoMatchFromFirst(s, "--");
      var rest := Split(s[1..], "--");
      assert rest[0] in rest;
      forall part | part in rest[1..]
        ensures Contains(s, part) && part in rest
      {
        assert part in rest;
        ContainsFurther(s, 1, part);
      }
    }
  }

  lemma ReplaceFront(app: string, d: string, rest: string, pattern: string)
    requires '-' !in app && IsDelimiter(d) && rest != "" && rest[0] in {'9', 'Q', '0'}
    requires pattern in ["-licensed---", "-licensed--", LICENSED] && (d == pattern || |d| < |pattern|)
    ensures Replace(app + d + rest, pattern, "--")
         == app + (if d == pattern then "--" else d) + Replace(rest, pattern, "--")
  {
    if d == pattern {
      ReplaceDelimiter(app, d, rest);
    } else {
      FrontIsQuiet(app, d, rest, pattern);
      ReplaceSkips(app + d, rest, pattern, "--");
    }
  }

  /** The front becomes the short delimiter, whatever the name behind it. */
  lemma NormaliseFront(app: string, d: string, name: string)
    requires '-' !in app && IsDelimiter(d) && NameEnds(name)
    ensures Normalise(app + d + name) == app + "--" + Normalise(name)
  {
    var r1 := Replace(name, "-licensed---", "--");
    var r2 := Replace(r1, "-licensed--", "--");
    ReplaceShortens(name, "-licensed---");
    ReplaceShortens(r1, "-licensed--");
    ReplaceFront(app, d, name, "-licensed---");
    var d1 := if d == "-licensed---" then "--" else d;
    ReplaceFront(app, d1, r1, "-licensed--");
    var d2 := if d1 == "-licensed--" then "--" else d1;
    ReplaceFront(app, d2, r2, LICENSED);
  }

  ghost predicate IsProperPart(name: string, part: string) {
    Contains(name, part) && |part| < |name|
  }

  /** Of a name that is cut, every segment is a shorter stretch of it. */
  lemma SegmentsAreParts(name: string)
    requires NameEnds(name) && !Uncut(name)
    ensures forall part | part in Split(Normalise(name), "--") :: IsProperPart(name, part)
  {
    var r1 := Replace(name, "-licensed---", "--");
    var r2 := Replace(r1, "-licensed--", "--");
    var r3 := Replace(r2, LICENSED, "--");
    ReplaceShortens(name, "-licensed---");
    ReplaceShortens(r1, "-licensed--");
    ReplaceShortens(r2, LICENSED);
    PartsAreSegments(r3);
    forall part | part in Split(r3, "--")
      ensures IsProperPart(name, part)
    {
      PartOfReplaced(r2, LICENSED, part);
      PartOfReplaced(r1, "-licensed--", part);
      PartOfReplaced(name, "-licensed---", part);
      if |r3| == |name| {
        assert r3 == name;
      }
    }
  }

  // ---- reading the segments ----

  lemma PartSymbols(name: string, part: string)
    requires Base64Url.AllSymbols(name) && Contains(name, part)
    ensures Base64Url.AllSymbols(part)
  {
    var i: nat :| i <= |name| && MatchAt(name, i, part);
    assert forall k | 0 <= k < |part| :: part[k] == name[i..i + |part|][k] == name[i + k];
  }

  lemma SegmentFails(verify: Verify, part: string, lic: CustomServer)
    requires IsSigned(verify) && IsProperPart(GenName(lic), part)
    ensures FromSegment(verify, part) != Some(lic)
  {
    NoProperPart(verify, lic, part);
    GenNameEnds(lic);
    PartSymbols(GenName(lic), part);
    if part == "" {
      assert Trim("") == "";
    } else {
      SymbolSegment(verify, part);
    }
  }

  lemma {:induction false} NoSegmentHolds(verify: Verify, segments: seq<string>, lic: CustomServer)
    requires forall part | part in segments :: FromSegment(verify, part) != Some(lic)
    ensures FromSegments(verify, segments) != Some(lic)
  {
    if segments != [] {
      assert segments[0] in segments;
      assert forall part | part in segments[1..] :: part in segments;
      NoSegmentHolds(verify, segments[1..], lic);
    }
  }

  lemma SegmentsFail(verify: Verify, app: string, parts: seq<string>, lic: CustomServer)
    requires IsSigned(verify) && PlainApp(verify, app)
    requires forall part | part in parts :: IsProperPart(GenName(lic), part)
    ensures FromSegments(verify, [app] + parts) != Some(lic)
  {
    forall part | part in parts
      ensures FromSegment(verify, part) != Some(lic)
    {
      SegmentFails(verify, part, lic);
    }
    NoSegmentHolds(verify, parts, lic);
    assert ([app] + parts)[1..] == parts;
  }

  lemma CutNameIsLost(verify: Verify, app: string, d: string, lic: CustomServer)
    requires IsSigned(verify) && PlainApp(verify, app) && IsDelimiter(d) && !Uncut(GenName(lic))
    ensures FromSegments(verify, Split(Normalise(app + d + GenName(lic)), "--")) != Some(lic)
  {
    var name := GenName(lic);
    GenNameEnds(lic);
    NormaliseFront(app, d, name);
    AppSegment(app, Normalise(name));
    SegmentsAreParts(name);
    SegmentsFail(verify, app, Split(Normalise(name), "--"), lic);
  }

  lemma StripsToName(app: string, d: string, name: string, exe: string)
    requires '=' !in app && IsDelimiter(d) && NameEnds(name) && Lower(exe) == ".exe"
    ensures StripExe(app + d + name + exe) == app + d + name && Untagged(app + d + name)
  {
    StripsExe(app + d + name, exe);
    NameIsNotExe(app + d, name, "");
    StrippedUntagged(app, d, name, "");
    assert name + "" == name;
  }

  lemma NamedSegments(verify: Verify, fold: Folding, app: string, d: string, name: string, exe: string)
    requires PlainApp(verify, app) && IsDelimiter(d) && Lower(exe) == ".exe" && NameEnds(name)
    ensures FromString(verify, fold, app + d + name + exe)
         == Returned(FromSegments(verify, Split(Normalise(app + d + name), "--")))
  {
    StrippedIs(fold, app + d + name + exe);
    StripsToName(app, d, name, exe);
    WithoutTag(verify, fold, app + d + name);
  }

  /** The file name gives the licence back exactly when the licence's own name is not cut. */
  lemma ReadBackExactly(verify: Verify, fold: Folding, app: string, d: string, exe: string, lic: CustomServer)
    requires IsSigned(verify) && PlainApp(verify, app) && IsDelimiter(d) && Lower(exe) == ".exe"
    ensures FromString(verify, fold, app + d + GenName(lic) + exe) == Returned(Some(lic)) <==> Uncut(GenName(lic))
  {
    if Uncut(GenName(lic)) {
      FileNameRoundTrip(verify, fold, app, d, "", exe, lic);
      assert GenName(lic) + "" == GenName(lic);
    } else {
      GenNameEnds(lic);
      NamedSegments(verify, fold, app, d, GenName(lic), exe);
      CutNameIsLost(verify, app, d, lic);
    }
  }

  // ---- two licences whose names are cut ----

  /** Seven-bit characters whose code does not end in the bits of sextet 62. */
  ghost predicate IsFlat(s: string) {
    forall i | 0 <= i < |s| :: s[i] as int < 128 && s[i] as int % 64 != 62
  }

  lemma FlatMember(name: string, value: string, rest: string)
    requires NeedsNoEscape(name) && IsFlat(name) && value == "" && IsFlat(rest)
    ensures IsFlat(Member(name, value) + rest) && |Member(name, value) + rest| == |name| + 5 + |rest|
  {
    MemberText(name, value);
    var text := PlainMember(name, value);
    assert |text| == |name| + 5 && IsFlat(text);
  }

  lemma FlatNext(name: string, value: string, rest: string)
    requires NeedsNoEscape(name) && IsFlat(name) && value == "" && IsFlat(rest)
    ensures IsFlat(Member(name, value) + ([','] + rest))
    ensures |Member(name, value) + ([','] + rest)| == |name| + 6 + |rest|
  {
    FlatMember(name, value, [','] + rest);
  }

  lemma FlatRelay(lic: CustomServer)
    requires lic.relay == ""
    ensures IsFlat(FromRelay(lic)) && |FromRelay(lic)| == 11
  {
    FlatMember("relay", lic.relay, ['}']);
  }

  lemma FlatApi(lic: CustomServer)
    requires lic.api == lic.relay == ""
    ensures IsFlat(FromApi(lic)) && |FromApi(lic)| == 20
  {
    FlatRelay(lic);
    FlatNext("api", lic.api, FromRelay(lic));
  }

  lemma FlatHostMember(value: string, rest: string)
    requires value == "" && IsFlat(rest)
    ensures IsFlat(Member("host", value) + ([','] + rest))
    ensures |Member("host", value) + ([','] + rest)| == 10 + |rest|
  {
    FlatNext("host", value, rest);
  }

  lemma FlatHost(lic: CustomServer)
    requires lic.host == lic.api == lic.relay == ""
    ensures IsFlat(FromHost(lic)) && |FromHost(lic)| == 30
  {
    FlatApi(lic);
    FlatHostMember(lic.host, FromApi(lic));
  }

  function WideHead(name: string): string {
    ['{'] + (Quote(name) + [':', '\"', 'a'])
  }

  lemma Regrouped(q: string, e: string, host: string)
    ensures ['{'] + ((q + ([':'] + (['\"'] + ((['a'] + e) + ['\"'])))) + ([','] + host))
         == (['{'] + (q + [':', '\"', 'a'])) + ((e + ['\"', ',']) + host)
  {
  }

  /** The text in three parts: seven-bit, the end of the key, seven-bit. */
  lemma WideText(lic: CustomServer, e: string)
    requires lic.key == ['a'] + e && NeedsNoEscape(e)
    ensures Print(lic) == WideHead("key") + ((e + ['\"', ',']) + FromHost(lic))
  {
    EscapeNothing(lic.key);
    Regrouped(Quote("key"), e, FromHost(lic));
  }

  lemma WideHeadIsFlat(name: string)
    requires NeedsNoEscape(name) && IsFlat(name)
    ensures IsFlat(WideHead(name)) && |WideHead(name)| == |name| + 6
  {
    EscapeNothing(name);
  }

  lemma WideKeyHeadIsFlat()
    ensures IsFlat(WideHead("key")) && |WideHead("key")| == 9
  {
    WideHeadIsFlat("key");
  }

  ghost predicate FlatBytes(data: Bytes) {
    forall k | 0 <= k < |data| :: data[k] < 128 && data[k] % 64 != 62
  }

  lemma FlatEncodes(s: string)
    requires IsFlat(s)
    ensures |Utf8.Encode(s)| == |s| && FlatBytes(Utf8.Encode(s))
  {
    Utf8.EncodeAscii(s);
  }

  lemma FlatBits(a: Byte, b: Byte, c: Byte)
    requires a < 128 && b < 128 && c < 128 && c % 64 != 62
    ensures Base64Url.Sextet0(a) != 62 && Base64Url.Sextet1(a, b) != 62
    ensures Base64Url.Sextet2(b, c) != 62 && Base64Url.Sextet3(c) != 62
  {
    Base64Url.AsciiBits(a, b, c);
  }

  lemma {:induction false} NoSextet62(data: Bytes)
    requires FlatBytes(data)
    ensures 62 !in Base64Url.ToSextets(data)
  {
    if |data| >= 3 {
      FlatBits(data[0], data[1], data[2]);
      NoSextet62(data[3..]);
      assert 62 !in Base64Url.Split3(data);
    } else if |data| == 2 {
      FlatBits(data[0], data[1], 0);
    } else if |data| == 1 {
      FlatBits(data[0], 0, 0);
    }
  }

  lemma FlatSextets(s: string, n: nat)
    requires IsFlat(s) && |s| == 3 * n
    ensures |Utf8.Encode(s)| == 3 * n
    ensures |Base64Url.ToSextets(Utf8.Encode(s))| == 4 * n && 62 !in Base64Url.ToSextets(Utf8.Encode(s))
  {
    FlatEncodes(s);
    NoSextet62(Utf8.Encode(s));
    Base64Url.WholeGroups(Utf8.Encode(s), n);
  }

  lemma ThreeParts(front: string, middle: string, back: string, octets: Bytes)
    requires |Utf8.Encode(front)| % 3 == 0 && Utf8.Encode(middle) == octets && |octets| % 3 == 0
    ensures Base64Url.ToSextets(Utf8.Encode(front + (middle + back)))
         == Base64Url.ToSextets(Utf8.Encode(front))
            + (Base64Url.ToSextets(octets) + Base64Url.ToSextets(Utf8.Encode(back)))
  {
    Utf8.EncodeConcat(front, middle + back);
    Utf8.EncodeConcat(middle, back);
    Base64Url.ToSextetsConcat(Utf8.Encode(front), octets + Utf8.Encode(back));
    Base64Url.ToSextetsConcat(octets, Utf8.Encode(back));
  }

  /** The sextets of the text: those of the end of the key between others that give no hyphen. */
  lemma TextSextets(lic: CustomServer, e: string, octets: Bytes)
    returns (front: seq<Base64Url.Sextet>, back: seq<Base64Url.Sextet>)
    requires lic.key == ['a'] + e && NeedsNoEscape(e) && lic.host == lic.api == lic.relay == ""
    requires Utf8.Encode(e + ['\"', ',']) == octets && |octets| % 3 == 0
    ensures Base64Url.ToSextets(Utf8.Encode(Print(lic))) == front + (Base64Url.ToSextets(octets) + back)
    ensures |front| == 12 && 62 !in front && |back| == 40 && 62 !in back
  {
    var head, host := WideHead("key"), FromHost(lic);
    WideText(lic, e);
    WideKeyHeadIsFlat();
    FlatHost(lic);
    FlatSextets(head, 3);
    FlatSextets(host, 10);
    ThreeParts(head, e + ['\"', ','], host, octets);
    front, back := Base64Url.ToSextets(Utf8.Encode(head)), Base64Url.ToSextets(Utf8.Encode(host));
  }

  lemma ReversedSymbols(a: seq<Base64Url.Sextet>, b: seq<Base64Url.Sextet>)
    ensures Reverse(Base64Url.Symbols(a + b)) == Reverse(Base64Url.Symbols(b)) + Reverse(Base64Url.Symbols(a))
  {
  }

  lemma NoHyphen(xs: seq<Base64Url.Sextet>)
    requires 62 !in xs
    ensures '-' !in Reverse(Base64Url.Symbols(xs)) && Base64Url.AllSymbols(Reverse(Base64Url.Symbols(xs)))
  {
    Base64Url.ValuesOfSymbols(xs);
    forall i | 0 <= i < |xs|
      ensures Base64Url.Symbol(xs[i]) != '-'
    {
      assert xs[i] in xs;
      Base64Url.DashIs62(xs[i]);
    }
  }

  /** Of the name, only what the end of the key gives can hold hyphens. */
  lemma NameAround(lic: CustomServer, e: string, octets: Bytes) returns (left: string, right: string)
    requires lic.key == ['a'] + e && NeedsNoEscape(e) && lic.host == lic.api == lic.relay == ""
    requires Utf8.Encode(e + ['\"', ',']) == octets && |octets| % 3 == 0
    ensures GenName(lic) == left + (Reverse(Base64Url.Encode(octets)) + right)
    ensures |left| == 40 && '-' !in left && Base64Url.AllSymbols(left)
    ensures |right| == 12 && '-' !in right && Base64Url.AllSymbols(right)
  {
    var front, back := TextSextets(lic, e, octets);
    var middle := Base64Url.ToSextets(octets);
    left, right := Reverse(Base64Url.Symbols(back)), Reverse(Base64Url.Symbols(front));
    ReversedSymbols(front, middle + back);
    ReversedSymbols(middle, back);
    NoHyphen(front);
    NoHyphen(back);
    assert (left + Reverse(Base64Url.Symbols(middle))) + right == left + (Reverse(Base64Url.Symbols(middle)) + right);
  }

  /** More text in front of a segment boundary starts no licence delimiter. */
  lemma StillUnmarked(a: string, s: string)
    requires '-' !in a && NoLicenceMark(s) && s != "" && s[0] != 'l'
    ensures NoLicenceMark(a + "--" + s)
  {
    var t := a + "--" + s;
    forall i | 0 <= i < |t| - 1
      ensures t[i] == '-' ==> t[i + 1] != 'l'
    {
      if i < |a| {
        assert t[i] == a[i] && a[i] in a;
      } else if i >= |a| + 2 {
        assert t[i] == s[i - |a| - 2] && t[i + 1] == s[i - |a| - 1];
      }
    }
  }

  lemma LastUnmarked(right: string)
    requires '-' !in right
    ensures NoLicenceMark(right) && Split(right, "--") == [right]
  {
    QuietWithout(right, "", "--");
    assert right + "" == right;
    SplitNever(right, "--");
  }

  /** Behind a plain application name the segments of an unmarked rest decide. */
  lemma BehindApp(verify: Verify, fold: Folding, app: string, rest: string, exe: string)
    requires PlainApp(verify, app) && Lower(exe) == ".exe" && NameEnds(rest) && NoLicenceMark(rest)
    ensures FromString(verify, fold, app + "--" + rest + exe) == Returned(FromSegments(verify, Split(rest, "--")))
  {
    StrippedIs(fold, app + "--" + rest + exe);
    StripsToName(app, "--", rest, exe);
    WithoutTag(verify, fold, app + "--" + rest);
    StillUnmarked(app, rest);
    NormaliseNothing(app + "--" + rest);
    AppSegment(app, rest);
    assert ([app] + Split(rest, "--"))[1..] == Split(rest, "--");
  }

  lemma SegmentsPassed(verify: Verify, left: string, rest: string)
    requires '-' !in left && |left| % 4 == 1 && Base64Url.AllSymbols(left)
    ensures FromSegments(verify, Split(left + "--" + rest, "--")) == FromSegments(verify, Split(rest, "--"))
  {
    AppSegment(left, rest);
    OddSegment(verify, left);
    assert ([left] + Split(rest, "--"))[1..] == Split(rest, "--");
  }

  // The first one: a full-width character puts sextet 62 at two adjacent places, once.
  const WIDE_END: string := ['c', '\U{FF01}']
  const WIDE := CustomServer(['a'] + WIDE_END, "", "", "")

  lemma CharBytes(c: char)
    ensures c as int == 0xFF01 ==> Utf8.EncodeChar(c) == [239, 188, 129]
    ensures c as int == 0xF09E ==> Utf8.EncodeChar(c) == [239, 130, 158]
    ensures c as int == 0x9F ==> Utf8.EncodeChar(c) == [194, 159]
    ensures c as int == 0xF000 ==> Utf8.EncodeChar(c) == [239, 128, 128]
  {
    assert Utf8.Rest(0xFF01) == 1020 && Utf8.Rest(1020) == 15;
    assert Utf8.Rest(0xF09E) == 962 && Utf8.Rest(962) == 15;
    assert Utf8.Rest(0xF000) == 960 && Utf8.Rest(960) == 15;
    assert Utf8.Rest(0x9F) == 2;
  }

  lemma EncodeNext(c: char, s: string)
    ensures Utf8.Encode([c] + s) == Utf8.EncodeChar(c) + Utf8.Encode(s)
  {
    assert ([c] + s)[1..] == s;
  }

  lemma EndBytes()
    ensures Utf8.Encode(['\"', ',']) == [34, 44]
  {
    Utf8.EncodeAscii(['\"', ',']);
  }

  lemma WideBytes(e: string, octets: Bytes)
    requires e == WIDE_END && octets == [99, 239, 188, 129, 34, 44]
    ensures Utf8.Encode(e + ['\"', ',']) == octets
  {
    var q: string := ['\"', ','];
    assert e + q == ['c'] + ([e[1]] + q);
    EncodeNext('c', [e[1]] + q);
    EncodeNext(e[1], q);
    CharBytes(e[1]);
    EndBytes();
  }

  lemma WideCode(octets: Bytes)
    requires octets == [99, 239, 188, 129, 34, 44]
    ensures Reverse(Base64Url.Encode(octets)) == "sISg8--Y"
  {
    assert octets[3..] == [129, 34, 44] && octets[3..][3..] == [];
    assert Base64Url.ToSextets(octets[3..]) == [32, 18, 8, 44];
    assert Base64Url.ToSextets(octets) == [24, 62, 62, 60, 32, 18, 8, 44];
  }

  lemma CleanJoin(a: string, b: string)
    requires '-' !in a && '-' !in b && Base64Url.AllSymbols(a) && Base64Url.AllSymbols(b)
    ensures '-' !in a + b && Base64Url.AllSymbols(a + b)
  {
  }

  lemma CutOnce(l: string, a: string, b: string, r: string)
    ensures l + ((a + ("--" + b)) + r) == (l + a) + "--" + (b + r)
  {
  }

  /** The two parts of a name that is cut once. */
  lemma OnceName(lic: CustomServer, e: string, octets: Bytes, a: string, b: string)
    returns (left: string, right: string)
    requires lic.key == ['a'] + e && NeedsNoEscape(e) && lic.host == lic.api == lic.relay == ""
    requires Utf8.Encode(e + ['\"', ',']) == octets && |octets| % 3 == 0
    requires Reverse(Base64Url.Encode(octets)) == a + ("--" + b)
    requires '-' !in a && '-' !in b && Base64Url.AllSymbols(a) && Base64Url.AllSymbols(b) && b != ""
    ensures GenName(lic) == left + "--" + right
    ensures |left| == 40 + |a| && '-' !in left && Base64Url.AllSymbols(left)
    ensures |right| == |b| + 12 && '-' !in right && Base64Url.AllSymbols(right) && right[0] == b[0]
  {
    var l, r := NameAround(lic, e, octets);
    left, right := l + a, b + r;
    CutOnce(l, a, b, r);
    CleanJoin(l, a);
    CleanJoin(b, r);
  }

  lemma WideName() returns (left: string, right: string)
    ensures GenName(WIDE) == left + "--" + right
    ensures |left| == 45 && '-' !in left && Base64Url.AllSymbols(left)
    ensures |right| == 13 && '-' !in right && Base64Url.AllSymbols(right) && right[0] == 'Y'
  {
    var octets := WideOctets();
    left, right := OnceName(WIDE, WIDE_END, octets, "sISg8", "Y");
  }

  lemma WideOctets() returns (octets: Bytes)
    ensures |octets| == 6 && Utf8.Encode(WIDE_END + ['\"', ',']) == octets
    ensures Reverse(Base64Url.Encode(octets)) == "sISg8" + ("--" + "Y")
  {
    octets := [99, 239, 188, 129, 34, 44];
    WideBytes(WIDE_END, octets);
    WideCode(octets);
  }

  lemma CutOnceIsRefused(verify: Verify, fold: Folding, app: string, name: string, left: string, right: string,
                         exe: string)
    requires PlainApp(verify, app) && Lower(exe) == ".exe" && NameEnds(name) && name == left + "--" + right
    requires |left| % 4 == 1 && '-' !in left && Base64Url.AllSymbols(left)
    requires |right| % 4 == 1 && '-' !in right && Base64Url.AllSymbols(right) && right[0] != 'l'
    ensures !Uncut(name) && FromString(verify, fold, app + "--" + name + exe) == Returned(None)
  {
    LastUnmarked(right);
    StillUnmarked(left, right);
    BehindApp(verify, fold, app, name, exe);
    SegmentsPassed(verify, left, right);
    OddSegment(verify, right);
    SegmentAlone(verify, right);
    assert MatchAt(name, |left|, "--");
  }

  /** The seven-bit condition of the round trip cannot be dropped: this licence's file name holds nothing. */
  lemma WideNameIsRefused(verify: Verify, fold: Folding)
    requires NeedsSignature(verify)
    ensures !Uncut(GenName(WIDE))
    ensures FromString(verify, fold, "rustdesk" + "--" + GenName(WIDE) + ".exe") == Returned(None)
  {
    var left, right := WideName();
    GenNameEnds(WIDE);
    RustdeskIsPlain(verify);
    LowerExe();
    CutOnceIsRefused(verify, fold, "rustdesk", GenName(WIDE), left, right, ".exe");
  }

  // The second one is cut twice, and what stands between the cuts is a licence of its own.
  const TWICE_END: string := ['c', '\U{F09E}', '\U{009F}', 'C', '\U{F000}']
  const TWICE := CustomServer(['a'] + TWICE_END, "", "", "")

  lemma TwiceBytes(e: string, octets: Bytes)
    requires e == TWICE_END && octets == [99, 239, 130, 158, 194, 159, 67, 239, 128, 128, 34, 44]
    ensures Utf8.Encode(e + ['\"', ',']) == octets
  {
    var q: string := ['\"', ','];
    assert e + q == ['c'] + ([e[1]] + ([e[2]] + (['C'] + ([e[4]] + q))));
    EncodeNext('c', [e[1]] + ([e[2]] + (['C'] + ([e[4]] + q))));
    EncodeNext(e[1], [e[2]] + (['C'] + ([e[4]] + q)));
    EncodeNext(e[2], ['C'] + ([e[4]] + q));
    EncodeNext('C', [e[4]] + q);
    EncodeNext(e[4], q);
    CharBytes(e[1]);
    CharBytes(e[2]);
    CharBytes(e[4]);
    EndBytes();
  }

  lemma FourGroups(a: Bytes, b: Bytes, c: Bytes, d: Bytes)
    requires |a| == |b| == |c| == |d| == 3
    ensures Base64Url.ToSextets(a + (b + (c + d)))
         == Base64Url.Split3(a) + (Base64Url.Split3(b) + (Base64Url.Split3(c) + Base64Url.Split3(d)))
  {
    Base64Url.ToSextetsConcat(a, b + (c + d));
    Base64Url.ToSextetsConcat(b, c + d);
    Base64Url.ToSextetsConcat(c, d);
    OneGroup(a);
    OneGroup(b);
    OneGroup(c);
    OneGroup(d);
  }

  lemma OneGroup(a: Bytes)
    requires |a| == 3
    ensures Base64Url.ToSextets(a) == Base64Url.Split3(a)
  {
    assert a[3..] == [];
    assert Base64Url.ToSextets(a) == Base64Url.Split3(a) + [];
  }

  lemma TwiceCode(octets: Bytes)
    requires octets == [99, 239, 130, 158, 194, 159, 67, 239, 128, 128, 34, 44]
    ensures Base64Url.ToSextets(octets) == [24, 62, 62, 2, 39, 44, 10, 31, 16, 62, 62, 0, 32, 2, 8, 44]
  {
    var a, b, c, d: Bytes := [99, 239, 130], [158, 194, 159], [67, 239, 128], [128, 34, 44];
    assert octets == a + (b + (c + d));
    FourGroups(a, b, c, d);
  }

  lemma TwiceSymbols(xs: seq<Base64Url.Sextet>, middle: string)
    requires xs == [24, 62, 62, 2, 39, 44, 10, 31, 16, 62, 62, 0, 32, 2, 8, 44] && middle == "QfKsnC"
    ensures Reverse(Base64Url.Symbols(xs)) == "sICgA" + ("--" + (middle + ("--" + "Y")))
  {
  }

  lemma CutTwice(l: string, a: string, b: string, c: string, r: string)
    ensures l + ((a + ("--" + (b + ("--" + c)))) + r) == (l + a) + "--" + (b + "--" + (c + r))
  {
  }

  /** The three parts of a name that is cut twice. */
  lemma TwiceCutName(lic: CustomServer, e: string, octets: Bytes, a: string, b: string, c: string)
    returns (left: string, right: string)
    requires lic.key == ['a'] + e && NeedsNoEscape(e) && lic.host == lic.api == lic.relay == ""
    requires Utf8.Encode(e + ['\"', ',']) == octets && |octets| % 3 == 0
    requires Reverse(Base64Url.Encode(octets)) == a + ("--" + (b + ("--" + c)))
    requires '-' !in a && '-' !in c && Base64Url.AllSymbols(a) && Base64Url.AllSymbols(c) && c != ""
    ensures GenName(lic) == left + "--" + (b + "--" + right)
    ensures |left| == 40 + |a| && '-' !in left && Base64Url.AllSymbols(left)
    ensures '-' !in right && right != "" && right[0] == c[0]
  {
    var l, r := NameAround(lic, e, octets);
    left, right := l + a, c + r;
    CutTwice(l, a, b, c, r);
    CleanJoin(l, a);
    CleanJoin(c, r);
  }

  lemma TwiceName(middle: string) returns (left: string, right: string)
    requires middle == "QfKsnC"
    ensures GenName(TWICE) == left + "--" + (middle + "--" + right)
    ensures |left| == 45 && '-' !in left && Base64Url.AllSymbols(left)
    ensures '-' !in right && right != "" && right[0] == 'Y'
  {
    var octets := TwiceOctets(middle);
    left, right := TwiceCutName(TWICE, TWICE_END, octets, "sICgA", middle, "Y");
  }

  lemma TwiceOctets(middle: string) returns (octets: Bytes)
    requires middle == "QfKsnC"
    ensures |octets| == 12 && Utf8.Encode(TWICE_END + ['\"', ',']) == octets
    ensures Reverse(Base64Url.Encode(octets)) == "sICgA" + ("--" + (middle + ("--" + "Y")))
  {
    octets := [99, 239, 130, 158, 194, 159, 67, 239, 128, 128, 34, 44];
    TwiceBytes(TWICE_END, octets);
    TwiceCode(octets);
    TwiceSymbols(Base64Url.ToSextets(octets), middle);
  }

  lemma BracesCode()
    ensures Base64Url.Decode("CnsKfQ") == Some([10, 123, 10, 125])
  {
    var xs: seq<Base64Url.Sextet> := [2, 39, 44, 10, 31, 16];
    assert Base64Url.Values("CnsKfQ") == xs;
    assert xs[4..] == [31, 16];
    assert Base64Url.ToOctets(xs[4..]) == Some([125]);
    assert Base64Url.Join4(xs) == [10, 123, 10];
    assert Base64Url.ToOctets(xs) == Some([10, 123, 10] + [125]);
    assert [10, 123, 10] + [125] == [10, 123, 10, 125];
  }

  lemma BracesText(text: string)
    requires text == ['\n', '{', '\n', '}']
    ensures Utf8.Decode([10, 123, 10, 125]) == Some(text)
  {
    Utf8.EncodeAscii(text);
    assert Utf8.Encode(text) == [10, 123, 10, 125];
    Utf8.DecodeEncode(text);
  }

  lemma BracesParse(text: string)
    requires text == ['\n', '{', '\n', '}']
    ensures Parse(text) == Some(CustomServer("", "", "", ""))
  {
    var body := text[2..];
    assert SkipSpace(text) == text[1..] && text[1..][1..] == body;
    assert SkipSpace(body) == body[1..];
    assert body[1..][1..] == "";
  }

  lemma EmptyLicence(verify: Verify, s: string)
    requires s == "QfKsnC"
    ensures FromSegment(verify, s) == Some(CustomServer("", "", "", ""))
  {
    SymbolSegment(verify, s);
    assert Reverse(s) == "CnsKfQ";
    var text: string := ['\n', '{', '\n', '}'];
    BracesCode();
    BracesText(text);
    BracesParse(text);
  }

  lemma CutTwiceIsTaken(verify: Verify, fold: Folding, app: string, name: string, left: string, middle: string,
                        right: string, exe: string)
    requires PlainApp(verify, app) && Lower(exe) == ".exe" && NameEnds(name)
    requires name == left + "--" + (middle + "--" + right)
    requires |left| % 4 == 1 && '-' !in left && Base64Url.AllSymbols(left)
    requires '-' !in middle && middle != "" && middle[0] != 'l' && FromSegment(verify, middle).Some?
    requires '-' !in right && right != "" && right[0] != 'l'
    ensures FromString(verify, fold, app + "--" + name + exe) == Returned(FromSegment(verify, middle))
  {
    LastUnmarked(right);
    StillUnmarked(middle, right);
    StillUnmarked(left, middle + "--" + right);
    BehindApp(verify, fold, app, name, exe);
    SegmentsPassed(verify, left, middle + "--" + right);
    AppSegment(middle, right);
  }

  /** A name that is cut can be taken for another licence: here for the one with four empty fields. */
  lemma CutNameIsTaken(verify: Verify, fold: Folding)
    requires NeedsSignature(verify)
    ensures FromString(verify, fold, "rustdesk" + "--" + GenName(TWICE) + ".exe")
         == Returned(Some(CustomServer("", "", "", "")))
  {
    RustdeskIsPlain(verify);
    LowerExe();
    TwiceIsTaken(verify, fold, "rustdesk", "QfKsnC", ".exe");
  }

  lemma TwiceIsTaken(verify: Verify, fold: Folding, app: string, middle: string, exe: string)
    requires PlainApp(verify, app) && Lower(exe) == ".exe" && middle == "QfKsnC"
    ensures FromString(verify, fold, app + "--" + GenName(TWICE) + exe) == Returned(Some(CustomServer("", "", "", "")))
  {
    var left, right := TwiceName(middle);
    GenNameEnds(TWICE);
    EmptyLicence(verify, middle);
    CutTwiceIsTaken(verify, fold, app, GenName(TWICE), left, middle, right, exe);
  }
}
