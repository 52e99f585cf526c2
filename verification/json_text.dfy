/** What every JSON text of a licence has in common: how it starts, what it cannot hold, and that none goes on. */
module JsonTexts {
  import opened Wrappers
  import opened LicenceJson
  import Utf8

  // ---- no text is the beginning of another ----

  lemma SkipFurther(s: string, more: string)
    requires SkipSpace(s) != ""
    ensures SkipSpace(s + more) == SkipSpace(s) + more
  {
    if s[0] in " \n\t\r" {
      assert (s + more)[1..] == s[1..] + more;
      SkipFurther(s[1..], more);
    }
  }

  lemma UnicodeFurther(s: string, more: string)
    requires ParseUnicode(s).Some?
    ensures var p := ParseUnicode(s).value; ParseUnicode(s + more) == Some(Parsed(p.value, p.rest + more))
  {
    var t := s + more;
    assert Hex4(t) == Hex4(s);
    assert t[4..] == s[4..] + more;
    if |s| >= 10 {
      assert t[4..6] == s[4..6] && t[6..] == s[6..] + more && t[10..] == s[10..] + more;
      assert Hex4(t[6..]) == Hex4(s[6..]);
    }
  }

  lemma EscapeFurther(s: string, more: string)
    requires ParseEscape(s).Some?
    ensures var p := ParseEscape(s).value; ParseEscape(s + more) == Some(Parsed(p.value, p.rest + more))
  {
    assert (s + more)[1..] == s[1..] + more;
    if s[0] == 'u' {
      UnicodeFurther(s[1..], more);
    }
  }

  lemma {:induction false} TextFurther(s: string, more: string)
    requires ParseText(s).Some?
    ensures var p := ParseText(s).value; ParseText(s + more) == Some(Parsed(p.value, p.rest + more))
    decreases |s|
  {
    assert (s + more)[1..] == s[1..] + more;
    if s[0] == '\"' {
    } else if s[0] == '\\' {
      EscapeFurther(s[1..], more);
      TextFurther(ParseEscape(s[1..]).value.rest, more);
    } else {
      TextFurther(s[1..], more);
    }
  }

  lemma QuotedFurther(s: string, more: string)
    requires ParseQuoted(s).Some?
    ensures var p := ParseQuoted(s).value; ParseQuoted(s + more) == Some(Parsed(p.value, p.rest + more))
  {
    assert (s + more)[1..] == s[1..] + more;
    TextFurther(s[1..], more);
  }

  lemma ValueFurther(name: string, s: string, d: Draft, more: string)
    requires ParseValue(name, s, d).Some?
    ensures var p := ParseValue(name, s, d).value;
            ParseValue(name, s + more, d) == Some(Parsed(p.value, p.rest + more))
  {
    var colon := SkipSpace(s);
    SkipFurther(s, more);
    assert (colon + more)[1..] == colon[1..] + more;
    SkipFurther(colon[1..], more);
    QuotedFurther(SkipSpace(colon[1..]), more);
    SkipFurther(ParseQuoted(SkipSpace(colon[1..])).value.rest, more);
  }

  lemma MemberFurther(s: string, d: Draft, more: string)
    requires ParseMember(s, d).Some?
    ensures var p := ParseMember(s, d).value; ParseMember(s + more, d) == Some(Parsed(p.value, p.rest + more))
  {
    QuotedFurther(s, more);
    ValueFurther(ParseQuoted(s).value.value, ParseQuoted(s).value.rest, d, more);
  }

  lemma {:induction false} MembersFurther(s: string, d: Draft, more: string)
    requires ParseMembers(s, d).Some?
    ensures var p := ParseMembers(s, d).value; ParseMembers(s + more, d) == Some(Parsed(p.value, p.rest + more))
    decreases |s|
  {
    var p := ParseMember(s, d).value;
    MemberFurther(s, d, more);
    assert (p.rest + more)[1..] == p.rest[1..] + more;
    if p.rest[0] == ',' {
      NotAllSpace(p.rest[1..], p.value);
      SkipFurther(p.rest[1..], more);
      MembersFurther(SkipSpace(p.rest[1..]), p.value, more);
    }
  }

  lemma NotAllSpace(s: string, d: Draft)
    requires ParseMembers(SkipSpace(s), d).Some?
    ensures SkipSpace(s) != ""
  {
  }

  lemma BodyFurther(body: string, more: string)
    requires ParseBody(body).Some?
    ensures var p := ParseBody(body).value; ParseBody(body + more) == Some(Parsed(p.value, p.rest + more))
  {
    if body != "" && body[0] == '}' {
      assert (body + more)[1..] == body[1..] + more;
    } else {
      MembersFurther(body, BLANK, more);
    }
  }

  /** Where a longer text is read to its end, a shorter one is not read at all. */
  lemma ShorterIsNoText(text: string, more: string, body: string)
    requires text + more == ['{'] + body && body != "" && body[0] == '\"'
    requires ParseBody(body).Some? && ParseBody(body).value.rest == "" && Parse(text).Some?
    ensures more == ""
  {
    var s := SkipSpace(text);
    SkipFurther(text, more);
    BracedBody(body);
    assert (s + more)[1..] == s[1..] + more;
    SkipFurther(s[1..], more);
    BodyFurther(SkipSpace(s[1..]), more);
  }

  lemma BracedBody(body: string)
    requires body != "" && body[0] == '\"'
    ensures SkipSpace(['{'] + body) == ['{'] + body && (['{'] + body)[1..] == body && SkipSpace(body) == body
  {
  }

  /** The text of a licence does not go on after another text. */
  lemma NoTextGoesOn(text: string, lic: CustomServer)
    requires text <= Print(lic) && Parse(text).Some?
    ensures text == Print(lic)
  {
    KeyStarts(lic);
    MembersParse(lic);
    BodyOfMembers(FromKey(lic));
    assert text + Print(lic)[|text|..] == Print(lic);
    ShorterIsNoText(text, Print(lic)[|text|..], FromKey(lic));
  }

  lemma KeyStarts(lic: CustomServer)
    ensures FromKey(lic) != "" && FromKey(lic)[0] == '\"'
  {
  }

  lemma BodyOfMembers(body: string)
    requires body != "" && body[0] == '\"'
    ensures ParseBody(body) == ParseMembers(body, BLANK)
  {
  }

  // ---- no control characters but white space ----

  /** White space nowhere, and not allowed inside a string. */
  const BACKSPACE: char := 8 as char

  lemma SpaceIsClean(s: string)
    ensures BACKSPACE in s ==> BACKSPACE in SkipSpace(s)
  {
  }

  lemma UnicodeIsClean(s: string)
    requires ParseUnicode(s).Some? && BACKSPACE in s
    ensures BACKSPACE in ParseUnicode(s).value.rest
  {
    var i :| 0 <= i < |s| && s[i] == BACKSPACE;
    var rest := ParseUnicode(s).value.rest;
    assert |rest| == |s| - 4 || |rest| == |s| - 10;
    if |rest| == |s| - 4 {
      assert i >= 4 && rest[i - 4] == BACKSPACE;
    } else {
      assert s[4] == s[4..6][0] && s[5] == s[4..6][1];
      assert s[6..][0] == s[6] && s[6..][1] == s[7] && s[6..][2] == s[8] && s[6..][3] == s[9];
      assert i >= 10 && rest[i - 10] == BACKSPACE;
    }
  }

  lemma EscapeIsClean(s: string)
    requires ParseEscape(s).Some? && BACKSPACE in s
    ensures BACKSPACE in ParseEscape(s).value.rest
  {
    assert s == [s[0]] + s[1..];
    if s[0] == 'u' {
      UnicodeIsClean(s[1..]);
    }
  }

  lemma {:induction false} TextIsClean(s: string)
    requires ParseText(s).Some? && BACKSPACE in s
    ensures BACKSPACE in ParseText(s).value.rest
    decreases |s|
  {
    assert s == [s[0]] + s[1..];
    if s[0] == '\"' {
    } else if s[0] == '\\' {
      EscapeIsClean(s[1..]);
      TextIsClean(ParseEscape(s[1..]).value.rest);
    } else {
      TextIsClean(s[1..]);
    }
  }

  lemma QuotedIsClean(s: string)
    requires ParseQuoted(s).Some? && BACKSPACE in s
    ensures BACKSPACE in ParseQuoted(s).value.rest
  {
    assert s == [s[0]] + s[1..];
    TextIsClean(s[1..]);
  }

  lemma ValueIsClean(name: string, s: string, d: Draft)
    requires ParseValue(name, s, d).Some? && BACKSPACE in s
    ensures BACKSPACE in ParseValue(name, s, d).value.rest
  {
    var colon := SkipSpace(s);
    SpaceIsClean(s);
    assert colon == [colon[0]] + colon[1..];
    SpaceIsClean(colon[1..]);
    QuotedIsClean(SkipSpace(colon[1..]));
    SpaceIsClean(ParseQuoted(SkipSpace(colon[1..])).value.rest);
  }

  lemma MemberIsClean(s: string, d: Draft)
    requires ParseMember(s, d).Some? && BACKSPACE in s
    ensures BACKSPACE in ParseMember(s, d).value.rest
  {
    QuotedIsClean(s);
    ValueIsClean(ParseQuoted(s).value.value, ParseQuoted(s).value.rest, d);
  }

  lemma {:induction false} MembersAreClean(s: string, d: Draft)
    requires ParseMembers(s, d).Some? && BACKSPACE in s
    ensures BACKSPACE in ParseMembers(s, d).value.rest
    decreases |s|
  {
    var p := ParseMember(s, d).value;
    MemberIsClean(s, d);
    assert p.rest == [p.rest[0]] + p.rest[1..];
    if p.rest[0] == ',' {
      SpaceIsClean(p.rest[1..]);
      MembersAreClean(SkipSpace(p.rest[1..]), p.value);
    }
  }

  lemma BodyIsClean(body: string)
    requires ParseBody(body).Some? && BACKSPACE in body
    ensures BACKSPACE in ParseBody(body).value.rest
  {
    if body[0] == '}' {
      assert body == [body[0]] + body[1..];
    } else {
      MembersAreClean(body, BLANK);
    }
  }

  lemma TextsAreClean(text: string)
    requires Parse(text).Some?
    ensures BACKSPACE !in text
  {
    if BACKSPACE in text {
      var s := SkipSpace(text);
      SpaceIsClean(text);
      assert s == [s[0]] + s[1..];
      SpaceIsClean(s[1..]);
      BodyIsClean(SkipSpace(s[1..]));
      SpaceIsClean(ParseBody(SkipSpace(s[1..])).value.rest);
    }
  }

  // ---- the last character ----

  ghost predicate IsSuffix(s: string, r: string) {
    |r| <= |s| && s[|s| - |r|..] == r
  }

  lemma SuffixOfSuffix(s: string, r: string, q: string)
    requires IsSuffix(s, r) && IsSuffix(r, q)
    ensures IsSuffix(s, q)
  {
    assert s[|s| - |q|..] == r[|r| - |q|..];
  }

  lemma Tail(s: string, k: nat)
    requires k <= |s|
    ensures IsSuffix(s, s[k..])
  {
  }

  lemma {:induction false} SpaceLeaves(s: string)
    ensures IsSuffix(s, SkipSpace(s))
  {
    if s != "" && s[0] in " \n\t\r" {
      SpaceLeaves(s[1..]);
      Tail(s, 1);
      SuffixOfSuffix(s, s[1..], SkipSpace(s));
    } else {
      Tail(s, 0);
    }
  }

  lemma EscapeLeaves(s: string)
    requires ParseEscape(s).Some?
    ensures IsSuffix(s, ParseEscape(s).value.rest)
  {
    Tail(s, 1);
    if s[0] == 'u' {
      var r := s[1..];
      var rest := ParseUnicode(r).value.rest;
      Tail(r, |r| - |rest|);
      assert rest == r[4..] || rest == r[10..];
      SuffixOfSuffix(s, r, rest);
    }
  }

  lemma {:induction false} TextLeaves(s: string)
    requires ParseText(s).Some?
    ensures IsSuffix(s, ParseText(s).value.rest)
    decreases |s|
  {
    var rest := ParseText(s).value.rest;
    Tail(s, 1);
    if s[0] == '\"' {
    } else if s[0] == '\\' {
      var r := ParseEscape(s[1..]).value.rest;
      EscapeLeaves(s[1..]);
      TextLeaves(r);
      SuffixOfSuffix(s, s[1..], r);
      SuffixOfSuffix(s, r, rest);
    } else {
      TextLeaves(s[1..]);
      SuffixOfSuffix(s, s[1..], rest);
    }
  }

  lemma QuotedLeaves(s: string)
    requires ParseQuoted(s).Some?
    ensures IsSuffix(s, ParseQuoted(s).value.rest)
  {
    Tail(s, 1);
    TextLeaves(s[1..]);
    SuffixOfSuffix(s, s[1..], ParseQuoted(s).value.rest);
  }

  lemma ValueLeaves(name: string, s: string, d: Draft)
    requires ParseValue(name, s, d).Some?
    ensures IsSuffix(s, ParseValue(name, s, d).value.rest)
  {
    var colon := SkipSpace(s);
    var quoted := SkipSpace(colon[1..]);
    var rest := ParseQuoted(quoted).value.rest;
    SpaceLeaves(s);
    Tail(colon, 1);
    SpaceLeaves(colon[1..]);
    QuotedLeaves(quoted);
    SpaceLeaves(rest);
    SuffixOfSuffix(s, colon, colon[1..]);
    SuffixOfSuffix(s, colon[1..], quoted);
    SuffixOfSuffix(s, quoted, rest);
    SuffixOfSuffix(s, rest, SkipSpace(rest));
  }

  lemma MemberLeaves(s: string, d: Draft)
    requires ParseMember(s, d).Some?
    ensures IsSuffix(s, ParseMember(s, d).value.rest)
  {
    var p := ParseQuoted(s).value;
    QuotedLeaves(s);
    ValueLeaves(p.value, p.rest, d);
    SuffixOfSuffix(s, p.rest, ParseMember(s, d).value.rest);
  }

  /** What is left of s stands behind a closing brace. */
  ghost predicate ClosedBefore(s: string, rest: string) {
    |rest| < |s| && IsSuffix(s, rest) && s[|s| - |rest| - 1] == '}'
  }

  lemma ClosedFurther(s: string, r: string, rest: string)
    requires IsSuffix(s, r) && ClosedBefore(r, rest)
    ensures ClosedBefore(s, rest)
  {
    SuffixOfSuffix(s, r, rest);
    assert s[|s| - |r|..][|r| - |rest| - 1] == r[|r| - |rest| - 1];
  }

  lemma ClosedHere(s: string)
    requires s != "" && s[0] == '}'
    ensures ClosedBefore(s, s[1..])
  {
  }

  lemma {:induction false} MembersClose(s: string, d: Draft)
    requires ParseMembers(s, d).Some?
    ensures ClosedBefore(s, ParseMembers(s, d).value.rest)
    decreases |s|
  {
    var p := ParseMember(s, d).value;
    var rest := ParseMembers(s, d).value.rest;
    MemberLeaves(s, d);
    if p.rest[0] == '}' {
      ClosedHere(p.rest);
    } else {
      var next := SkipSpace(p.rest[1..]);
      Tail(p.rest, 1);
      SpaceLeaves(p.rest[1..]);
      SuffixOfSuffix(p.rest, p.rest[1..], next);
      MembersClose(next, p.value);
      ClosedFurther(p.rest, next, rest);
    }
    ClosedFurther(s, p.rest, rest);
  }

  lemma {:induction false} AllSpace(s: string)
    requires SkipSpace(s) == "" && s != ""
    ensures s[|s| - 1] in " \n\t\r"
  {
    if |s| > 1 {
      AllSpace(s[1..]);
    }
  }

  lemma BodyCloses(body: string)
    requires ParseBody(body).Some?
    ensures ClosedBefore(body, ParseBody(body).value.rest)
  {
    if body != "" && body[0] == '}' {
      ClosedHere(body);
    } else {
      MembersClose(body, BLANK);
    }
  }

  lemma BodyLeft(text: string, s: string, body: string)
    requires s == SkipSpace(text) && s != "" && body == SkipSpace(s[1..])
    ensures IsSuffix(text, body)
  {
    SpaceLeaves(text);
    Tail(s, 1);
    SpaceLeaves(s[1..]);
    SuffixOfSuffix(text, s, s[1..]);
    SuffixOfSuffix(text, s[1..], body);
  }

  lemma LastOf(text: string, rest: string)
    requires ClosedBefore(text, rest) && SkipSpace(rest) == ""
    ensures text[|text| - 1] == '}' || text[|text| - 1] in " \n\t\r"
  {
    if rest != "" {
      AllSpace(rest);
      assert text[|text| - 1] == text[|text| - |rest|..][|rest| - 1];
    }
  }

  /** A text ends with the closing brace or white space. */
  lemma LastCharacter(text: string)
    requires Parse(text).Some?
    ensures text != "" && (text[|text| - 1] == '}' || text[|text| - 1] in " \n\t\r")
  {
    var s := SkipSpace(text);
    var body := SkipSpace(s[1..]);
    BodyLeft(text, s, body);
    BodyCloses(body);
    ClosedFurther(text, body, ParseBody(body).value.rest);
    LastOf(text, ParseBody(body).value.rest);
  }

  // ---- the first characters ----

  /** After the opening brace: an empty object, or a name and a colon. */
  lemma FirstCharacters(text: string)
    requires Parse(text).Some?
    ensures var s := SkipSpace(text);
            && s != "" && s[0] == '{'
            && var body := SkipSpace(s[1..]);
               body != "" &&
               if body[0] == '}' then Parse(text) == Some(CustomServer("", "", "", ""))
               else body[0] == '\"' && ParseText(body[1..]).Some?
                    && var colon := SkipSpace(ParseText(body[1..]).value.rest); colon != "" && colon[0] == ':'
  {
  }
}
