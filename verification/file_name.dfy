/** A licence survives being the name of a downloaded executable. */
module FileNames {
  import opened Wrappers
  import opened LicenceJson
  import opened LowerCase
  import opened Text
  import opened CustomServers
  import Base64Url
  import Utf8

  /** A name that its own delimiters cannot cut. */
  ghost predicate Uncut(name: string) {
    !Contains(name, "--") && !Contains(name, LICENSED)
  }

  /** Nor together with the delimiter that follows it, if one does. */
  ghost predicate UncutBefore(name: string, tail: string) {
    Uncut(name) && ("-" <= tail ==> Uncut(name + "-"))
  }

  /** The symbols and the beginning of every name whose octets end in a closing brace. */
  ghost predicate NameEnds(name: string) {
    && |name| >= 4
    && Base64Url.AllSymbols(name)
    && name[0] in {'9', 'Q', '0'}
  }

  // ---- shape of generated names ----

  lemma {:induction false} LastSextet(data: Bytes)
    requires data != [] && data[|data| - 1] == '}' as int
    ensures var xs := Base64Url.ToSextets(data); xs != [] && xs[|xs| - 1] in {61, 16, 52}
  {
    if |data| > 3 {
      LastSextet(data[3..]);
    } else if |data| == 3 {
      assert Base64Url.ToSextets(data) == Base64Url.Split3(data) + [];
    }
  }

  lemma LastByte(s: string, c: char)
    requires s != "" && s[|s| - 1] == c && c as int < 128
    ensures var data := Utf8.Encode(s); |data| >= |s| && data[|data| - 1] == c as int
  {
    var n := |s| - 1;
    assert s == s[..n] + [c];
    Utf8.EncodeConcat(s[..n], [c]);
    EncodeOne(c);
    EncodedLength(s[..n]);
  }

  lemma EncodeOne(c: char)
    requires c as int < 128
    ensures Utf8.Encode([c]) == [c as int]
  {
    Utf8.EncodeAscii([c]);
  }

  lemma {:induction false} EncodedLength(s: string)
    ensures |Utf8.Encode(s)| >= |s|
  {
    if s != "" {
      EncodedLength(s[1..]);
    }
  }

  lemma TextBytes(lic: CustomServer)
    ensures var data := Utf8.Encode(Print(lic));
            |data| >= 3 && data[0] == '{' as int && data[|data| - 1] == '}' as int
  {
    var s := Print(lic);
    PrintEnds(lic);
    LastByte(s, '}');
    assert Utf8.EncodeChar(s[0]) == [123];
  }

  lemma ReversedEnds(code: string)
    requires |code| >= 4 && Base64Url.AllSymbols(code) && code[|code| - 1] in {'9', 'Q', '0'}
    ensures NameEnds(Reverse(code)) && Reverse(code)[|code| - 1] == code[0]
  {
  }

  lemma LastSymbol(data: Bytes)
    requires |data| >= 3 && data[|data| - 1] == '}' as int
    ensures var code := Base64Url.Encode(data); |code| >= 4 && code[|code| - 1] in {'9', 'Q', '0'}
  {
    Base64Url.EncodeLength(data);
    LastSextet(data);
  }

  /** Every name of octets that end in a closing brace, signed or not. */
  lemma CodeNameEnds(data: Bytes)
    requires |data| >= 3 && data[|data| - 1] == '}' as int
    ensures NameEnds(CodeName(data))
    ensures data[0] == '{' as int ==> CodeName(data)[|CodeName(data)| - 1] == 'e'
  {
    LastSymbol(data);
    Base64Url.EncodeSymbols(data);
    ReversedEnds(Base64Url.Encode(data));
    if data[0] == '{' as int {
      assert Base64Url.ToSextets(data)[0] == 30;
    }
  }

  lemma GenNameEnds(lic: CustomServer)
    ensures NameEnds(GenName(lic)) && GenName(lic)[|GenName(lic)| - 1] == 'e'
  {
    TextBytes(lic);
    CodeNameEnds(Utf8.Encode(Print(lic)));
  }

  /** A name that ends in e is not cut by what follows it either. */
  lemma UncutBeforeAll(name: string, tail: string)
    requires Uncut(name) && name != "" && name[|name| - 1] == 'e'
    ensures UncutBefore(name, tail)
  {
    forall i: nat
      ensures !MatchAt(name + "-", i, "--") && !MatchAt(name + "-", i, LICENSED)
    {
      NoMatchBehind(name, i, "--");
      NoMatchBehind(name, i, LICENSED);
    }
  }

  lemma NoMatchBehind(name: string, i: nat, pattern: string)
    requires !Contains(name, pattern) && name != "" && name[|name| - 1] == 'e'
    requires |pattern| >= 2 && pattern[|pattern| - 2] != 'e' && pattern[0] != 'e'
    ensures !MatchAt(name + "-", i, pattern)
  {
    var s, n := name + "-", |pattern|;
    if i + n <= |name| {
      assert s[i..i + n] == name[i..i + n];
      assert !MatchAt(name, i, pattern);
    } else if i + n == |s| {
      Mismatch(s, i, pattern, n - 2);
    } else {
      Mismatch(s, i, pattern, n - 1);
    }
  }

  /** Hyphens stand only where four symbols of the code are complete. */
  ghost predicate SpacedDashes(name: string) {
    forall i | 0 <= i < |name| && name[i] == '-' :: (|name| - 1 - i) % 4 == 3
  }

  lemma ReversedDashes(data: Bytes)
    requires Base64Url.SevenBit(data)
    ensures SpacedDashes(Reverse(Base64Url.Encode(data)))
  {
    var code := Base64Url.Encode(data);
    forall i | 0 <= i < |code| && Reverse(code)[i] == '-'
      ensures (|code| - 1 - i) % 4 == 3
    {
      Base64Url.AsciiDashes(data, |code| - 1 - i);
    }
  }

  lemma NameDashes(lic: CustomServer)
    requires AsciiFields(lic)
    ensures SpacedDashes(GenName(lic))
  {
    PrintAscii(lic);
    AsciiOctets(Print(lic));
    ReversedDashes(Utf8.Encode(Print(lic)));
  }

  lemma AsciiOctets(s: string)
    requires IsAscii(s)
    ensures Base64Url.SevenBit(Utf8.Encode(s))
  {
    Utf8.EncodeAscii(s);
  }

  lemma NoPairOfDashes(name: string, i: nat, pattern: string)
    requires SpacedDashes(name)
    requires 2 <= |pattern| && |pattern| % 4 != 1
    requires pattern[0] == '-' && pattern[|pattern| - 1] == '-'
    ensures !MatchAt(name, i, pattern)
  {
    var n := |pattern| - 1;
    if i + n < |name| {
      assert (|name| - 1 - i) - (|name| - 1 - (i + n)) == n;
      Mismatch(name, i, pattern, if name[i] != '-' then 0 else n);
    }
  }

  /** With seven-bit fields no two hyphens are adjacent, nor nine apart. */
  lemma AsciiUncut(lic: CustomServer)
    requires AsciiFields(lic)
    ensures Uncut(GenName(lic))
  {
    NameDashes(lic);
    var name := GenName(lic);
    forall i: nat
      ensures !MatchAt(name, i, "--") && !MatchAt(name, i, LICENSED)
    {
      NoPairOfDashes(name, i, "--");
      NoPairOfDashes(name, i, LICENSED);
    }
  }

  // ---- what may stand around the name ----

  /** An application name in front: no hyphen, equals sign or parenthesis, and not itself a licence. */
  ghost predicate PlainApp(verify: Verify, app: string) {
    && '-' !in app && '=' !in app && '(' !in app
    && FromConfigString(verify, Trim(app)) == None
  }

  /** A mark that a file manager adds to a copy: white space, then a parenthesis. */
  predicate IsCopyMark(tail: string) {
    var t := TrimStart(tail);
    t != "" && t[0] == '('
  }

  /** What may follow the name: nothing, another delimiter, or a copy mark. Anything may follow those. */
  predicate IsTail(tail: string) {
    tail == "" || "--" <= tail || IsCopyMark(tail)
  }

  /** The name is not read as a list of tagged fields. */
  predicate Untagged(s: string) {
    !Contains(Lower(s), "host=")
  }

  predicate IsDelimiter(d: string) {
    d in ["--", "-licensed-", "-licensed--", "-licensed---"]
  }

  lemma {:induction false} TrimStartSplits(s: string) returns (spaces: string)
    ensures s == spaces + TrimStart(s)
    ensures forall i | 0 <= i < |spaces| :: IsSpace(spaces[i])
  {
    if s != "" && IsSpace(s[0]) {
      var rest := TrimStartSplits(s[1..]);
      spaces := [s[0]] + rest;
    } else {
      spaces := "";
    }
  }

  lemma CopyMarkSplits(tail: string) returns (spaces: string, rest: string)
    requires IsCopyMark(tail)
    ensures tail == spaces + ("(" + rest)
    ensures forall i | 0 <= i < |spaces| :: IsSpace(spaces[i])
  {
    spaces := TrimStartSplits(tail);
    rest := TrimStart(tail)[1..];
    assert TrimStart(tail) == "(" + rest;
  }

  lemma CopyMarkOf(spaces: string, rest: string)
    requires forall i | 0 <= i < |spaces| :: IsSpace(spaces[i])
    ensures IsCopyMark(spaces + ("(" + rest))
  {
    TrimStartDropsSpaces(spaces, "(" + rest);
  }

  lemma TailStart(tail: string)
    requires IsTail(tail) && tail != ""
    ensures tail[0] == '-' || tail[0] == '(' || IsSpace(tail[0])
  {
  }

  // ---- the three replacements ----

  lemma ReplaceKeepsMark(tail: string, pattern: string)
    requires IsCopyMark(tail) && LICENSED <= pattern
    ensures IsCopyMark(Replace(tail, pattern, "--"))
  {
    assert pattern[0] == LICENSED[0];
    var spaces, rest := CopyMarkSplits(tail);
    var head := spaces + "(";
    assert tail == head + rest;
    QuietWithout(head, rest, pattern);
    ReplaceSkips(head, rest, pattern, "--");
    CopyMarkOf(spaces, Replace(rest, pattern, "--"));
    assert head + Replace(rest, pattern, "--") == spaces + ("(" + Replace(rest, pattern, "--"));
  }

  lemma MarkStart(tail: string)
    requires IsCopyMark(tail)
    ensures tail != "" && tail[0] != '-'
  {
  }

  lemma ReplaceKeepsTail(tail: string, pattern: string)
    requires IsTail(tail)
    requires LICENSED <= pattern
    ensures IsTail(Replace(tail, pattern, "--"))
    ensures "-" <= tail <==> "-" <= Replace(tail, pattern, "--")
  {
    assert pattern[0] == LICENSED[0] && pattern[1] == LICENSED[1];
    if tail == "" {
    } else if "--" <= tail {
      assert tail[1] == "--"[1];
      assert Replace(tail[1..], pattern, "--")[0] == '-';
    } else {
      ReplaceKeepsMark(tail, pattern);
      MarkStart(tail);
      MarkStart(Replace(tail, pattern, "--"));
    }
  }

  lemma NameIsQuiet(name: string, tail: string, pattern: string)
    requires UncutBefore(name, tail) && IsTail(tail) && LICENSED <= pattern
    ensures QuietFor(name + tail, |name|, pattern)
  {
    var s := name + tail;
    forall i: nat | i < |name|
      ensures !MatchAt(s, i, pattern)
    {
      if i + 10 <= |name| {
        assert s[i..i + 10] == name[i..i + 10];
        assert !MatchAt(name, i, LICENSED);
      } else if "-" <= tail && i + 9 == |name| {
        assert s[i..i + 10] == (name + "-")[i..i + 10];
        assert !MatchAt(name + "-", i, LICENSED);
      } else {
        if tail != "" {
          TailStart(tail);
          assert s[|name|] == tail[0];
        }
        Mismatch(s, i, LICENSED, |name| - i);
      }
      NoLongerMatch(s, i, LICENSED, pattern);
    }
  }

  lemma FrontIsQuiet(app: string, d: string, rest: string, pattern: string)
    requires '-' !in app && IsDelimiter(d) && rest != "" && rest[0] in {'9', 'Q', '0'}
    requires pattern in ["-licensed---", "-licensed--", LICENSED]
    requires |d| < |pattern|
    ensures QuietFor(app + d + rest, |app + d|, pattern)
  {
    var s := app + d + rest;
    forall i: nat | i < |app + d|
      ensures !MatchAt(s, i, pattern)
    {
      if i < |app| {
        assert s[i] == app[i];
        Mismatch(s, i, pattern, 0);
      } else if i + 1 == |app + d| {
        assert s[i + 1] == rest[0];
        Mismatch(s, i, pattern, 1);
      } else if i == |app| && d != "--" {
        assert s[i + |d|] == rest[0];
        Mismatch(s, i, pattern, |d|);
      } else {
        assert s[i] == d[i - |app|] && s[i + 1] == d[i - |app| + 1];
        Mismatch(s, i, pattern, if s[i] != '-' then 0 else 1);
      }
    }
  }

  lemma ReplaceDelimiter(app: string, d: string, rest: string)
    requires '-' !in app && LICENSED <= d
    ensures Replace(app + d + rest, d, "--") == app + "--" + Replace(rest, d, "--")
  {
    assert d[0] == LICENSED[0];
    assert app + d + rest == app + (d + rest);
    QuietWithout(app, d + rest, d);
    ReplaceSkips(app, d + rest, d, "--");
    ReplaceMatch(rest, d, "--");
    assert app + ("--" + Replace(rest, d, "--")) == app + "--" + Replace(rest, d, "--");
  }

  lemma ReplaceStage(app: string, d: string, name: string, tail: string, pattern: string)
    requires '-' !in app && IsDelimiter(d) && NameEnds(name) && UncutBefore(name, tail) && IsTail(tail)
    requires pattern in ["-licensed---", "-licensed--", LICENSED]
    requires d == pattern || |d| < |pattern|
    ensures Replace(app + d + (name + tail), pattern, "--")
         == app + (if d == pattern then "--" else d) + (name + Replace(tail, pattern, "--"))
  {
    assert LICENSED <= pattern;
    NameIsQuiet(name, tail, pattern);
    ReplaceSkips(name, tail, pattern, "--");
    if d == pattern {
      ReplaceDelimiter(app, d, name + tail);
    } else {
      FrontIsQuiet(app, d, name + tail, pattern);
      ReplaceSkips(app + d, name + tail, pattern, "--");
    }
  }

  lemma NormaliseName(app: string, d: string, name: string, tail: string) returns (tail': string)
    requires '-' !in app && IsDelimiter(d) && NameEnds(name) && UncutBefore(name, tail) && IsTail(tail)
    ensures IsTail(tail') && UncutBefore(name, tail')
    ensures Normalise(app + d + (name + tail)) == app + "--" + (name + tail')
  {
    var t1 := Replace(tail, "-licensed---", "--");
    var t2 := Replace(t1, "-licensed--", "--");
    ReplaceKeepsTail(tail, "-licensed---");
    ReplaceKeepsTail(t1, "-licensed--");
    ReplaceKeepsTail(t2, LICENSED);
    ReplaceStage(app, d, name, tail, "-licensed---");
    var d1 := if d == "-licensed---" then "--" else d;
    ReplaceStage(app, d1, name, t1, "-licensed--");
    var d2 := if d1 == "-licensed--" then "--" else d1;
    ReplaceStage(app, d2, name, t2, LICENSED);
    tail' := Replace(t2, LICENSED, "--");
  }

  // ---- the cut at double hyphens ----

  /** The first segment of a tail is empty or a copy mark. */
  lemma FirstSegmentOfTail(tail: string)
    requires IsTail(tail)
    ensures var y := Split(tail, "--")[0]; y == "" || IsCopyMark(y)
  {
    if tail == "" {
    } else if "--" <= tail {
    } else {
      var spaces, rest := CopyMarkSplits(tail);
      FirstSegmentOfMark(spaces, rest);
    }
  }

  lemma SpacesHaveNoHyphen(spaces: string)
    requires forall i | 0 <= i < |spaces| :: IsSpace(spaces[i])
    ensures '-' !in spaces
  {
  }

  lemma SegmentOfHead(head: string, rest: string)
    requires '-' !in head
    ensures Split(head + rest, "--")[0] == head + Split(rest, "--")[0]
  {
    QuietWithout(head, rest, "--");
    SplitSkips(head, rest, "--");
  }

  lemma FirstSegmentOfMark(spaces: string, rest: string)
    requires forall i | 0 <= i < |spaces| :: IsSpace(spaces[i])
    ensures IsCopyMark(Split(spaces + ("(" + rest), "--")[0])
  {
    var y := Split(rest, "--")[0];
    SpacesHaveNoHyphen(spaces);
    SegmentOfHead(spaces + "(", rest);
    Associates(spaces, "(", rest);
    Associates(spaces, "(", y);
    CopyMarkOf(spaces, y);
  }

  lemma NameSegment(name: string, tail: string)
    requires UncutBefore(name, tail)
    ensures Split(name + tail, "--")[0] == name + Split(tail, "--")[0]
  {
    var s := name + tail;
    forall i: nat | i < |name|
      ensures !MatchAt(s, i, "--")
    {
      if i + 1 == |name| && "-" <= tail {
        assert s[i..i + 2] == (name + "-")[i..i + 2];
        assert !MatchAt(name + "-", i, "--");
      } else if i + 1 == |name| {
        Mismatch(s, i, "--", 1);
      } else {
        assert s[i..i + 2] == name[i..i + 2];
        assert !MatchAt(name, i, "--");
      }
    }
    SplitSkips(name, tail, "--");
  }

  lemma AppSegment(app: string, rest: string)
    requires '-' !in app
    ensures Split(app + "--" + rest, "--") == [app] + Split(rest, "--")
  {
    QuietWithout(app, "--" + rest, "--");
    assert app + "--" + rest == app + ("--" + rest);
    SplitOnce(app, rest, "--");
  }

  // ---- reading the segment ----

  lemma SymbolsAreNotSpaces(name: string)
    requires NameEnds(name)
    ensures forall i | 0 <= i < |name| :: !IsSpace(name[i]) && name[i] != '(' && name[i] != '='
  {
  }

  lemma TrimName(name: string, spaces: string)
    requires NameEnds(name)
    requires forall i | 0 <= i < |spaces| :: IsSpace(spaces[i])
    ensures Trim(name + spaces) == name
  {
    SymbolsAreNotSpaces(name);
    TrimDropsSpaces(name, spaces);
  }

  lemma ParenthesisFails(verify: Verify, s: string)
    requires '(' in s
    ensures FromConfigString(verify, s) == None
  {
    var k :| 0 <= k < |s| && s[k] == '(';
    assert Reverse(s)[|s| - 1 - k] == '(';
    assert !Base64Url.IsSymbol('(');
  }

  lemma FirstPieceHolds(verify: Verify, piece: string, rest: string, lic: CustomServer)
    requires '(' !in piece && FromConfigString(verify, Trim(piece)) == Some(lic)
    ensures FromPieces(verify, Split(piece + "(" + rest, "(")) == Some(lic)
  {
    QuietWithout(piece, "(" + rest, "(");
    Associates(piece, "(", rest);
    SplitOnce(piece, rest, "(");
    PieceInFront(verify, piece, Split(rest, "("), lic);
  }

  lemma PieceInFront(verify: Verify, piece: string, others: seq<string>, lic: CustomServer)
    requires FromConfigString(verify, Trim(piece)) == Some(lic)
    ensures FromPieces(verify, [piece] + others) == Some(lic)
  {
  }

  lemma MarkedSegmentHolds(verify: Verify, piece: string, rest: string, lic: CustomServer)
    requires '(' !in piece && FromConfigString(verify, Trim(piece)) == Some(lic)
    ensures FromSegment(verify, piece + "(" + rest) == Some(lic)
  {
    var segment := piece + "(" + rest;
    assert segment[|piece|] == '(';
    TrimKeeps(segment, '(');
    ParenthesisFails(verify, Trim(segment));
    FirstPieceHolds(verify, piece, rest, lic);
  }

  lemma Regroup(a: string, b: string, c: string, d: string)
    ensures a + (b + (c + d)) == a + b + c + d
  {
  }

  lemma BareSegmentHolds(verify: Verify, name: string, lic: CustomServer)
    requires NameEnds(name) && FromConfigString(verify, name) == Some(lic)
    ensures FromSegment(verify, name) == Some(lic)
  {
    TrimName(name, "");
    assert name + "" == name;
  }

  /** White space around a name in its segment does no harm. */
  lemma PaddedSegmentHolds(verify: Verify, front: string, name: string, back: string, lic: CustomServer)
    requires NameEnds(name) && FromConfigString(verify, name) == Some(lic)
    requires forall i | 0 <= i < |front| :: IsSpace(front[i])
    requires forall i | 0 <= i < |back| :: IsSpace(back[i])
    ensures FromSegment(verify, front + (name + back)) == Some(lic)
  {
    SymbolsAreNotSpaces(name);
    TrimBoth(front, name, back);
  }

  lemma SpacedSegmentHolds(verify: Verify, name: string, spaces: string, rest: string, lic: CustomServer)
    requires NameEnds(name) && FromConfigString(verify, name) == Some(lic)
    requires forall i | 0 <= i < |spaces| :: IsSpace(spaces[i])
    ensures FromSegment(verify, name + spaces + "(" + rest) == Some(lic)
  {
    TrimName(name, spaces);
    SymbolsAreNotSpaces(name);
    assert '(' !in name + spaces;
    MarkedSegmentHolds(verify, name + spaces, rest, lic);
  }

  lemma SegmentHolds(verify: Verify, name: string, mark: string, lic: CustomServer)
    requires NameEnds(name) && FromConfigString(verify, name) == Some(lic)
    requires mark == "" || IsCopyMark(mark)
    ensures FromSegment(verify, name + mark) == Some(lic)
  {
    if mark == "" {
      assert name + mark == name;
      BareSegmentHolds(verify, name, lic);
    } else {
      var spaces, rest := CopyMarkSplits(mark);
      Regroup(name, spaces, "(", rest);
      SpacedSegmentHolds(verify, name, spaces, rest, lic);
    }
  }

  // ---- the host= grammar is not taken ----

  lemma NoTagAcross(front: string, tail: string, i: nat)
    requires IsTail(tail) && i < |front| <= i + 4
    ensures !MatchAt(Lower(front + tail), i, "host=")
  {
    if tail != "" {
      TailStart(tail);
      assert Lower(front + tail)[|front|] == LowerChar(tail[0]);
    }
    Mismatch(Lower(front + tail), i, "host=", |front| - i);
  }

  lemma NoHostTag(front: string, tail: string)
    requires '=' !in front
    requires IsTail(tail) && Untagged(tail)
    ensures Untagged(front + tail)
  {
    var s, t := Lower(front + tail), Lower(tail);
    forall i: nat | i <= |s|
      ensures !MatchAt(s, i, "host=")
    {
      if i + 4 < |front| {
        assert front[i + 4] in front;
        Mismatch(s, i, "host=", 4);
      } else if i < |front| {
        NoTagAcross(front, tail, i);
      } else {
        var j := i - |front|;
        assert !MatchAt(t, j, "host=");
        if j + 5 <= |t| {
          assert t[j..j + 5] == s[i..i + 5];
        }
      }
    }
  }

  /** A name that holds a licence, with delimiters in it and behind it that do not cut it. */
  ghost predicate Holds(verify: Verify, name: string, tail: string, lic: CustomServer) {
    NameEnds(name) && UncutBefore(name, tail) && FromConfigString(verify, name) == Some(lic)
  }

  lemma StrippedUntagged(app: string, d: string, name: string, tail: string)
    requires '=' !in app && IsDelimiter(d) && NameEnds(name)
    requires IsTail(tail) && Untagged(tail)
    ensures Untagged(app + d + (name + tail))
  {
    SymbolsAreNotSpaces(name);
    assert app + d + (name + tail) == (app + d + name) + tail;
    assert '=' !in d;
    NoHostTag(app + d + name, tail);
  }

  /** The name survives whatever delimiter is in front of it and whatever copy marks or segments follow. */
  lemma StrippedRoundTrip(verify: Verify, fold: Folding, app: string, d: string, name: string, tail: string,
                          lic: CustomServer)
    requires PlainApp(verify, app) && IsDelimiter(d) && Holds(verify, name, tail, lic)
    requires IsTail(tail) && Untagged(tail)
    ensures FromStripped(verify, fold, app + d + (name + tail)) == Returned(Some(lic))
  {
    StrippedUntagged(app, d, name, tail);
    WithoutTag(verify, fold, app + d + (name + tail));
    var tail' := NormaliseName(app, d, name, tail);
    AppSegment(app, name + tail');
    NameSegment(name, tail');
    FirstSegmentOfTail(tail');
    SegmentHolds(verify, name, Split(tail', "--")[0], lic);
    SecondSegment(verify, app, Split(name + tail', "--"), lic);
  }

  lemma SecondSegment(verify: Verify, app: string, rest: seq<string>, lic: CustomServer)
    requires PlainApp(verify, app)
    requires rest != [] && FromSegment(verify, rest[0]) == Some(lic)
    ensures FromSegments(verify, [app] + rest) == Some(lic)
  {
    assert ([app] + rest)[1..] == rest;
  }

  // ---- the extension ----

  lemma ExeChars(s: string, k: nat)
    requires EndsWith(s, ".exe") && k < 4
    ensures |s| >= 4 && s[|s| - 4 + k] == ".exe"[k]
  {
    assert s[|s| - 4..][k] == ".exe"[k];
  }

  lemma ExeEnd(s: string)
    requires EndsWith(s, ".exe")
    ensures s != "" && s[|s| - 1] == 'e'
  {
    ExeChars(s, 3);
  }

  lemma TwoExtensions(t: string)
    ensures EndsWith(t + ".exe", ".exe.exe") == EndsWith(t, ".exe")
  {
    var s := t + ".exe";
    assert ".exe.exe" == ".exe" + ".exe";
    if |t| >= 4 {
      assert s[|s| - 8..] == t[|t| - 4..] + ".exe";
      assert s[|s| - 8..][..4] == t[|t| - 4..];
      assert ".exe.exe"[..4] == ".exe";
    }
  }

  /** One extension goes; a second one goes with it. */
  lemma StripsExe(t: string, exe: string)
    requires Lower(exe) == ".exe"
    ensures StripExe(t + exe) == if EndsWith(Lower(t), ".exe") then t[..|t| - 4] else t
  {
    var s := t + exe;
    assert Lower(s) == Lower(t) + ".exe";
    TwoExtensions(Lower(t));
    assert Lower(s)[|s| - 4..] == ".exe";
    assert s[..|s| - 4] == t;
    assert |t| >= 4 ==> s[..|s| - 8] == t[..|t| - 4];
  }

  lemma NameIsNotExe(front: string, name: string, tail: string)
    requires NameEnds(name) && |tail| < 4
    ensures !EndsWith(Lower(front + (name + tail)), ".exe")
  {
    var s := Lower(front + (name + tail));
    assert s[|s| - 4] == LowerChar(name[|name| + |tail| - 4]) != ".exe"[0];
    assert s[|s| - 4..][0] == s[|s| - 4];
  }

  lemma ExeOnlyInTail(front: string, name: string, tail: string)
    requires NameEnds(name) && EndsWith(Lower(front + (name + tail)), ".exe")
    ensures |tail| >= 4 && EndsWith(Lower(tail), ".exe")
  {
    var s := Lower(front + (name + tail));
    if |tail| < 4 {
      NameIsNotExe(front, name, tail);
    } else {
      assert s[|s| - 4..] == Lower(tail)[|tail| - 4..];
    }
  }

  lemma NotInExe(tail: string, p: nat)
    requires EndsWith(Lower(tail), ".exe") && p < |tail| && tail[p] in {'-', '('}
    ensures p < |tail| - 4
  {
    if p >= |tail| - 4 {
      ExeChars(Lower(tail), p - (|tail| - 4));
    }
  }

  lemma TailWithoutExe(tail: string)
    requires IsTail(tail) && EndsWith(Lower(tail), ".exe")
    ensures IsTail(tail[..|tail| - 4])
  {
    if "--" <= tail {
      assert tail[1] == "--"[1];
      NotInExe(tail, 1);
      assert tail[..|tail| - 4][..2] == tail[..2];
    } else {
      var spaces, rest := CopyMarkSplits(tail);
      NotInExe(tail, |spaces|);
      assert tail[..|tail| - 4] == spaces + ("(" + rest[..|rest| - 4]);
      CopyMarkOf(spaces, rest[..|rest| - 4]);
    }
  }

  lemma ShorterTextHasNoTag(tail: string, n: nat)
    requires n <= |tail| && Untagged(tail)
    ensures Untagged(tail[..n])
  {
    forall i: nat
      ensures !MatchAt(Lower(tail[..n]), i, "host=")
    {
      if i + 5 <= n {
        assert Lower(tail)[i..i + 5] == Lower(tail[..n])[i..i + 5];
        assert !MatchAt(Lower(tail), i, "host=");
      }
    }
  }

  lemma StripsTail(front: string, name: string, tail: string, exe: string) returns (tail': string)
    requires NameEnds(name) && IsTail(tail) && Untagged(tail) && Lower(exe) == ".exe"
    ensures IsTail(tail') && Untagged(tail') && ("-" <= tail' ==> "-" <= tail)
    ensures StripExe(front + (name + tail) + exe) == front + (name + tail')
  {
    var t := front + (name + tail);
    StripsExe(t, exe);
    if EndsWith(Lower(t), ".exe") {
      ExeOnlyInTail(front, name, tail);
      TailWithoutExe(tail);
      tail' := tail[..|tail| - 4];
      ShorterTextHasNoTag(tail, |tail'|);
      assert t[..|t| - 4] == front + (name + tail');
    } else {
      tail' := tail;
    }
  }

  lemma NamedExecutable(verify: Verify, fold: Folding, app: string, d: string, name: string, tail: string,
                        exe: string, lic: CustomServer)
    requires PlainApp(verify, app) && IsDelimiter(d) && Holds(verify, name, tail, lic)
    requires IsTail(tail) && Untagged(tail)
    requires Lower(exe) == ".exe"
    ensures FromString(verify, fold, app + d + (name + tail) + exe) == Returned(Some(lic))
  {
    var tail' := StripsTail(app + d, name, tail, exe);
    StrippedIs(fold, app + d + (name + tail) + exe);
    StrippedRoundTrip(verify, fold, app, d, name, tail', lic);
  }

  /** The executable's name gives the licence back whenever the licence's own name is not cut. */
  lemma FileNameRoundTrip(verify: Verify, fold: Folding, app: string, d: string, tail: string, exe: string,
                          lic: CustomServer)
    requires PlainApp(verify, app) && IsDelimiter(d)
    requires Uncut(GenName(lic))
    requires IsTail(tail) && Untagged(tail)
    requires Lower(exe) == ".exe"
    ensures FromString(verify, fold, app + d + (GenName(lic) + tail) + exe) == Returned(Some(lic))
  {
    GenNameEnds(lic);
    UncutBeforeAll(GenName(lic), tail);
    ConfigStringRoundTrip(verify, lic);
    NamedExecutable(verify, fold, app, d, GenName(lic), tail, exe, lic);
  }

  // ---- signed names ----

  lemma SignedEnds(signature: Bytes, payload: Bytes)
    requires |payload| >= 3 && payload[|payload| - 1] == '}' as int
    ensures NameEnds(CodeName(signature + payload))
  {
    CodeNameEnds(signature + payload);
  }

  /**
    * A signed licence in a file name, behind any delimiter and before any tail, is read whenever the signature holds
    * and delimiters do not cut the name.
    */
  lemma SignedFileName(verify: Verify, fold: Folding, app: string, d: string, signature: Bytes, tail: string,
                       exe: string, lic: CustomServer)
    requires PlainApp(verify, app) && IsDelimiter(d) && IsTail(tail) && Untagged(tail) && Lower(exe) == ".exe"
    requires var payload := Utf8.Encode(Print(lic));
             && verify(signature + payload) == Some(payload)
             && (forall other :: !IsTextOf(signature + payload, other))
             && UncutBefore(CodeName(signature + payload), tail)
    ensures FromString(verify, fold, app + d + (CodeName(signature + Utf8.Encode(Print(lic))) + tail) + exe) ==
            Returned(Some(lic))
  {
    var payload := Utf8.Encode(Print(lic));
    TextBytes(lic);
    SignedEnds(signature, payload);
    SignedRoundTrip(verify, signature + payload, lic);
    NamedExecutable(verify, fold, app, d, CodeName(signature + payload), tail, exe, lic);
  }

  // ---- the names that are handed out ----

  lemma RustdeskCode()
    ensures Base64Url.Decode("ksedtsur").Some?
    ensures var data := Base64Url.Decode("ksedtsur").value; |data| == 6 && data[0] == 146
  {
    var xs: seq<Base64Url.Sextet> := [36, 44, 30, 29, 45, 44, 46, 43];
    assert Base64Url.Values("ksedtsur") == xs;
    assert xs[4..] == [45, 44, 46, 43];
    assert Base64Url.ToOctets(xs[4..]).Some?;
  }

  lemma RustdeskIsNoLicence(verify: Verify)
    requires NeedsSignature(verify)
    ensures FromConfigString(verify, "rustdesk") == None
  {
    assert Reverse("rustdesk") == "ksedtsur";
    RustdeskCode();
    var data := Base64Url.Decode("ksedtsur").value;
    assert Utf8.Decode(data) == None;
  }

  lemma RustdeskIsPlain(verify: Verify)
    requires NeedsSignature(verify)
    ensures PlainApp(verify, "rustdesk")
  {
    RustdeskIsNoLicence(verify);
    TrimDropsSpaces("rustdesk", "");
    assert "rustdesk" + "" == "rustdesk";
  }

  /** The marks of repeated downloads, such as " (1) (2)". */
  function CopyMarks(copies: seq<nat>): string {
    if copies == [] then "" else " " + ("(" + (Decimal(copies[0]) + (")" + CopyMarks(copies[1..]))))
  }

  function Decimal(n: nat): string {
    if n < 10 then [(48 + n) as char] else Decimal(n / 10) + [(48 + n % 10) as char]
  }

  lemma {:induction false} DecimalHasNoTag(n: nat)
    ensures '=' !in Decimal(n)
  {
    if n >= 10 {
      DecimalHasNoTag(n / 10);
    }
  }

  lemma {:induction false} MarksHaveNoTag(copies: seq<nat>)
    ensures '=' !in CopyMarks(copies)
  {
    if copies != [] {
      DecimalHasNoTag(copies[0]);
      MarksHaveNoTag(copies[1..]);
    }
  }

  lemma NoEqualsNoTag(s: string)
    requires '=' !in s
    ensures Untagged(s)
  {
    forall i: nat
      ensures !MatchAt(Lower(s), i, "host=")
    {
      if i + 5 <= |s| {
        assert s[i + 4] in s;
      }
      Mismatch(Lower(s), i, "host=", 4);
    }
  }

  lemma MarksAreATail(copies: seq<nat>)
    ensures IsTail(CopyMarks(copies))
  {
    if copies != [] {
      CopyMarkOf(" ", Decimal(copies[0]) + (")" + CopyMarks(copies[1..])));
    }
  }

  lemma LowerExe()
    ensures Lower(".exe") == ".exe"
  {
  }

  lemma Downloads(verify: Verify, fold: Folding, app: string, d: string, copies: seq<nat>, exe: string,
                  lic: CustomServer)
    requires PlainApp(verify, app) && IsDelimiter(d) && Lower(exe) == ".exe"
    requires AsciiFields(lic)
    ensures FromString(verify, fold, app + d + (GenName(lic) + CopyMarks(copies)) + exe) == Returned(Some(lic))
  {
    AsciiUncut(lic);
    MarksAreATail(copies);
    MarksHaveNoTag(copies);
    NoEqualsNoTag(CopyMarks(copies));
    FileNameRoundTrip(verify, fold, app, d, CopyMarks(copies), exe, lic);
  }

  /** A licence with seven-bit fields survives any number of repeated downloads, under any of the delimiters. */
  lemma DuplicateDownloads(verify: Verify, fold: Folding, d: string, copies: seq<nat>, lic: CustomServer)
    requires NeedsSignature(verify) && IsDelimiter(d) && AsciiFields(lic)
    ensures FromString(verify, fold, "rustdesk" + d + (GenName(lic) + CopyMarks(copies)) + ".exe")
         == Returned(Some(lic))
  {
    RustdeskIsPlain(verify);
    LowerExe();
    Downloads(verify, fold, "rustdesk", d, copies, ".exe", lic);
  }
}
