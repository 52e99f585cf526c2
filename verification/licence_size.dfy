/** How short a text of a licence can be. */
module LicenceSizes {
  import opened Wrappers
  import opened LicenceJson
  import Utf8

  function Size(s: string): nat {
    |Utf8.Encode(s)|
  }

  lemma SizeOfConcat(a: string, b: string)
    ensures Size(a + b) == Size(a) + Size(b)
  {
    Utf8.EncodeConcat(a, b);
  }

  lemma SizeOfOne(c: char)
    ensures Size([c]) == |Utf8.EncodeChar(c)|
    ensures c as int < 128 ==> Size([c]) == 1
  {
    assert [c][1..] == "" && Utf8.Encode("") == [];
  }

  lemma SizeOfFirst(s: string)
    requires s != ""
    ensures Size(s) == Size([s[0]]) + Size(s[1..]) && Size([s[0]]) >= 1
  {
    SizeOfOne(s[0]);
  }

  /** Every character takes an octet at least. */
  lemma {:induction false} SizeOfRest(s: string, k: nat)
    requires k <= |s|
    ensures Size(s) >= k + Size(s[k..])
  {
    if k > 0 {
      SizeOfFirst(s);
      SizeOfRest(s[1..], k - 1);
      assert s[1..][k - 1..] == s[k..];
    } else {
      assert s[0..] == s;
    }
  }

  // ---- texts of one string ----

  lemma {:induction false} SizeOfAscii(s: string)
    requires IsAscii(s)
    ensures Size(s) == |s|
  {
    Utf8.EncodeAscii(s);
  }

  lemma EscapeSize(c: char)
    ensures Size(EscapeChar(c)) <= 6
    ensures c in "\"\\\n\r\t" || c as int == 8 || c as int == 12 ==> Size(EscapeChar(c)) == 2
    ensures c as int >= 32 && c != '\"' && c != '\\' ==> Size(EscapeChar(c)) == Size([c])
  {
    SizeOfOne(c);
    if IsAscii(EscapeChar(c)) {
      SizeOfAscii(EscapeChar(c));
    }
  }

  lemma ParsedUnicode(s: string)
    requires ParseUnicode(s).Some?
    ensures Size(s) >= 4 + Size(ParseUnicode(s).value.rest)
  {
    SizeOfRest(s, 4);
    if |s| >= 10 {
      SizeOfRest(s, 10);
    }
  }

  lemma ParsedEscape(s: string)
    requires ParseEscape(s).Some?
    ensures var p := ParseEscape(s).value; 1 + Size(s) >= Size(EscapeChar(p.value)) + Size(p.rest)
  {
    var p := ParseEscape(s).value;
    SizeOfFirst(s);
    EscapeSize(p.value);
    if s[0] == 'u' {
      ParsedUnicode(s[1..]);
      SizeOfOne('u');
    } else {
      SizeOfOne(s[0]);
    }
  }

  lemma SizeOfEscape(c: char, v: string)
    ensures Size(Escape([c] + v)) == Size(EscapeChar(c)) + Size(Escape(v))
  {
    assert ([c] + v)[1..] == v;
    SizeOfConcat(EscapeChar(c), Escape(v));
  }

  lemma {:induction false} ParsedText(s: string)
    requires ParseText(s).Some?
    ensures var p := ParseText(s).value; Size(s) >= Size(Escape(p.value)) + 1 + Size(p.rest)
    decreases |s|
  {
    SizeOfFirst(s);
    SizeOfOne(s[0]);
    if s[0] == '\"' {
      assert Escape("") == "";
    } else if s[0] == '\\' {
      var p := ParseEscape(s[1..]).value;
      ParsedEscape(s[1..]);
      ParsedText(p.rest);
      SizeOfEscape(p.value, ParseText(p.rest).value.value);
    } else {
      EscapeSize(s[0]);
      ParsedText(s[1..]);
      SizeOfEscape(s[0], ParseText(s[1..]).value.value);
    }
  }

  lemma SizeOfQuote(v: string)
    ensures Size(Quote(v)) == Size(Escape(v)) + 2
  {
    SizeOfConcat(['\"'], Escape(v) + ['\"']);
    SizeOfConcat(Escape(v), ['\"']);
    SizeOfOne('\"');
  }

  lemma ParsedQuoted(s: string)
    requires ParseQuoted(s).Some?
    ensures var p := ParseQuoted(s).value; Size(s) >= Size(Quote(p.value)) + Size(p.rest)
  {
    SizeOfFirst(s);
    ParsedText(s[1..]);
    SizeOfQuote(ParseQuoted(s).value.value);
  }

  lemma {:induction false} SizeOfSkipped(s: string)
    ensures Size(SkipSpace(s)) <= Size(s)
  {
    if s != "" && s[0] in " \n\t\r" {
      SizeOfFirst(s);
      SizeOfSkipped(s[1..]);
    }
  }

  // ---- texts of an object ----

  lemma SizeOfMember(name: string, value: string)
    ensures Size(Member(name, value)) == Size(Quote(name)) + 1 + Size(Quote(value))
  {
    SizeOfConcat(Quote(name), [':'] + Quote(value));
    SizeOfConcat([':'], Quote(value));
    SizeOfOne(':');
  }

  lemma ParsedValue(name: string, s: string, d: Draft) returns (value: string)
    requires ParseValue(name, s, d).Some?
    ensures SetField(d, name, value) == Some(ParseValue(name, s, d).value.value)
    ensures Size(s) >= 1 + Size(Quote(value)) + Size(ParseValue(name, s, d).value.rest)
  {
    var colon := SkipSpace(s);
    SizeOfSkipped(s);
    SizeOfFirst(colon);
    var quoted := SkipSpace(colon[1..]);
    SizeOfSkipped(colon[1..]);
    ParsedQuoted(quoted);
    var p := ParseQuoted(quoted).value;
    SizeOfSkipped(p.rest);
    value := p.value;
  }

  lemma ParsedMember(s: string, d: Draft) returns (name: string, value: string)
    requires ParseMember(s, d).Some?
    ensures SetField(d, name, value) == Some(ParseMember(s, d).value.value)
    ensures Size(s) >= Size(Member(name, value)) + Size(ParseMember(s, d).value.rest)
  {
    var p := ParseQuoted(s).value;
    ParsedQuoted(s);
    name := p.value;
    value := ParsedValue(name, p.rest, d);
    SizeOfMember(name, value);
  }

  /** A field that has been read takes its member and the character after it. */
  function FieldSize(name: string, value: Option<string>): nat {
    if value.None? then 0 else Size(Member(name, value.value)) + 1
  }

  function DraftSize(d: Draft): nat {
    FieldSize("key", d.key) + FieldSize("host", d.host) + FieldSize("api", d.api) + FieldSize("relay", d.relay)
  }

  lemma SizeOfSet(d: Draft, name: string, value: string)
    requires SetField(d, name, value).Some?
    ensures DraftSize(SetField(d, name, value).value) <= DraftSize(d) + Size(Member(name, value)) + 1
  {
  }

  lemma {:induction false} ParsedMembers(s: string, d: Draft)
    requires ParseMembers(s, d).Some?
    ensures var p := ParseMembers(s, d).value; Size(s) + DraftSize(d) >= DraftSize(p.value) + Size(p.rest)
    decreases |s|
  {
    var p := ParseMember(s, d).value;
    var name, value := ParsedMember(s, d);
    SizeOfSet(d, name, value);
    SizeOfFirst(p.rest);
    if p.rest[0] != '}' {
      var next := SkipSpace(p.rest[1..]);
      SizeOfSkipped(p.rest[1..]);
      ParsedMembers(next, p.value);
    }
  }

  /** A text from which a licence is read takes the opening brace and every field that it gives. */
  lemma ParsedObject(text: string) returns (d: Draft)
    requires Parse(text).Some?
    ensures Parse(text) == Some(Finish(d))
    ensures Size(text) >= 1 + DraftSize(d)
  {
    var s := SkipSpace(text);
    SizeOfSkipped(text);
    SizeOfFirst(s);
    var body := SkipSpace(s[1..]);
    SizeOfSkipped(s[1..]);
    d := ParseBody(body).value.value;
    if body[0] != '}' {
      ParsedMembers(body, BLANK);
    }
  }

  // ---- the least and the printed size ----

  function FieldOf(value: string): Option<string> {
    if value == "" then None else Some(value)
  }

  /** The fields that a text has to give. */
  function Needed(lic: CustomServer): Draft {
    Draft(FieldOf(lic.key), FieldOf(lic.host), FieldOf(lic.api), FieldOf(lic.relay))
  }

  function LeastSize(lic: CustomServer): nat {
    1 + DraftSize(Needed(lic))
  }

  /** No JSON text of a licence is shorter than one of its non-empty fields alone. */
  lemma TextIsLong(text: string, lic: CustomServer)
    requires Parse(text) == Some(lic)
    ensures Size(text) >= LeastSize(lic)
  {
    var d := ParsedObject(text);
  }

  function Printed(lic: CustomServer): Draft {
    Draft(Some(lic.key), Some(lic.host), Some(lic.api), Some(lic.relay))
  }

  lemma SizeOfNext(member: string, c: char, rest: string)
    requires c as int < 128
    ensures Size(member + ([c] + rest)) == Size(member) + 1 + Size(rest)
  {
    SizeOfConcat(member, [c] + rest);
    SizeOfConcat([c], rest);
    SizeOfOne(c);
  }

  lemma SizeOfPrint(lic: CustomServer)
    ensures Size(Print(lic)) == 1 + DraftSize(Printed(lic))
  {
    SizeOfNext(Member("relay", lic.relay), '}', "");
    assert ['}'] + "" == ['}'];
    SizeOfNext(Member("api", lic.api), ',', FromRelay(lic));
    SizeOfNext(Member("host", lic.host), ',', FromApi(lic));
    SizeOfNext(Member("key", lic.key), ',', FromHost(lic));
    SizeOfNext("", '{', FromKey(lic));
    assert "" + (['{'] + FromKey(lic)) == ['{'] + FromKey(lic);
  }

  ghost predicate IsName(name: string) {
    NeedsNoEscape(name) && IsAscii(name) && 3 <= |name| <= 5
  }

  lemma Names()
    ensures IsName("key") && IsName("host") && IsName("api") && IsName("relay")
  {
  }

  lemma SizeOfField(name: string, value: string)
    requires IsName(name)
    ensures FieldSize(name, Some(value)) == |name| + 6 + Size(Escape(value))
  {
    SizeOfMember(name, value);
    SizeOfQuote(name);
    SizeOfQuote(value);
    EscapeNothing(name);
    SizeOfAscii(name);
  }

  lemma FieldCost(name: string, value: string)
    requires IsName(name)
    ensures FieldSize(name, Some(value)) <= FieldSize(name, FieldOf(value)) + 11
    ensures value != "" ==> FieldSize(name, FieldOf(value)) >= 9 + Size(Escape(value))
  {
    SizeOfField(name, value);
  }

  lemma FieldCosts(lic: CustomServer)
    ensures DraftSize(Printed(lic)) <= DraftSize(Needed(lic)) + 44
    ensures lic.key != "" ==> LeastSize(lic) >= 10 + Size(Escape(lic.key))
    ensures lic.host != "" ==> LeastSize(lic) >= 10 + Size(Escape(lic.host))
    ensures lic.api != "" ==> LeastSize(lic) >= 10 + Size(Escape(lic.api))
    ensures lic.relay != "" ==> LeastSize(lic) >= 10 + Size(Escape(lic.relay))
  {
    Names();
    FieldCost("key", lic.key);
    FieldCost("host", lic.host);
    FieldCost("api", lic.api);
    FieldCost("relay", lic.relay);
  }

  /** How much longer the printed text is than the shortest: less than a signature. */
  lemma PrintIsShort(lic: CustomServer)
    ensures Size(Print(lic)) <= LeastSize(lic) + 44
  {
    SizeOfPrint(lic);
    FieldCosts(lic);
  }

  // ---- octets that are text ----

  lemma ScalarSize(b: Bytes, n: nat)
    requires 1 <= n <= 4 && b != [] && n == Utf8.Announced(b[0]) && Utf8.Scalar(b, n).Some?
    ensures |Utf8.EncodeChar(Utf8.Scalar(b, n).value)| <= n
  {
    assert forall k | 1 <= k < n :: Utf8.IsTail(b[k]);
    var v := Utf8.Code(b, n);
    assert Utf8.Scalar(b, n).value as int == v;
    if n == 2 {
      assert Utf8.IsTail(b[1]);
    } else if n == 3 {
      assert Utf8.IsTail(b[1]) && Utf8.IsTail(b[2]);
    }
  }

  /** Encoding again what has been decoded takes no more octets. */
  lemma {:induction false} DecodedSize(b: Bytes)
    requires Utf8.Decode(b).Some?
    ensures Size(Utf8.Decode(b).value) <= |b|
  {
    if b != [] {
      var n := Utf8.Announced(b[0]);
      ScalarSize(b, n);
      DecodedSize(b[n..]);
      var c, rest := Utf8.Scalar(b, n).value, Utf8.Decode(b[n..]).value;
      SizeOfConcat([c], rest);
      SizeOfOne(c);
    }
  }
}
