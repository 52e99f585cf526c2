/** The licence record, and the JSON text (RFC 8259) that it is written to and read from. */
module LicenceJson {
  import opened Wrappers

  datatype CustomServer = CustomServer(key: string, host: string, api: string, relay: string)

  // ---- printer ----

  function HexDigit(n: nat): char
    requires n < 16
  {
    if n < 10 then (48 + n) as char else (87 + n) as char
  }

  /** Two-character escapes where RFC 8259 has them, a four-digit escape for the other control characters. */
  function EscapeChar(c: char): string {
    match c
    case '\"' => "\\\""
    case '\\' => "\\\\"
    case '\n' => "\\n"
    case '\r' => "\\r"
    case '\t' => "\\t"
    case _ =>
      if c as int == 8 then "\\b"
      else if c as int == 12 then "\\f"
      else if c as int < 32 then ['\\', 'u', '0', '0', HexDigit(c as int / 16), HexDigit(c as int % 16)]
      else [c]
  }

  function Escape(s: string): string {
    if s == "" then "" else EscapeChar(s[0]) + Escape(s[1..])
  }

  function Quote(s: string): string {
    ['\"'] + (Escape(s) + ['\"'])
  }

  function Member(name: string, value: string): string {
    Quote(name) + ([':'] + Quote(value))
  }

  // The object text from each field on: declaration order, no white space.
  function FromRelay(lic: CustomServer): string { Member("relay", lic.relay) + ['}'] }
  function FromApi(lic: CustomServer): string { Member("api", lic.api) + ([','] + FromRelay(lic)) }
  function FromHost(lic: CustomServer): string { Member("host", lic.host) + ([','] + FromApi(lic)) }
  function FromKey(lic: CustomServer): string { Member("key", lic.key) + ([','] + FromHost(lic)) }

  function Print(lic: CustomServer): string { ['{'] + FromKey(lic) }

  // ---- parser ----

  /** A parsed value and the text after it. */
  datatype Parsed<+T> = Parsed(value: T, rest: string)

  function HexValue(c: char): Option<nat> {
    if '0' <= c <= '9' then Some(c as int - 48)
    else if 'a' <= c <= 'f' then Some(c as int - 87)
    else if 'A' <= c <= 'F' then Some(c as int - 55)
    else None
  }

  function Hex4(s: string): (v: Option<nat>)
    ensures v.Some? ==> |s| >= 4 && v.value < 0x1_0000
  {
    if |s| < 4 then None
    else
      match (HexValue(s[0]), HexValue(s[1]), HexValue(s[2]), HexValue(s[3]))
      case (Some(a), Some(b), Some(c), Some(d)) => Some(((a * 16 + b) * 16 + c) * 16 + d)
      case _ => None
  }

  /** After "\u": one scalar value, or a surrogate pair written as two escapes. */
  function ParseUnicode(s: string): (r: Option<Parsed<char>>)
    ensures r.Some? ==> |r.value.rest| < |s|
  {
    match Hex4(s)
    case None => None
    case Some(v) =>
      if 0xDC00 <= v < 0xE000 then None
      else if 0xD800 <= v < 0xDC00 then
        if |s| < 6 || s[4..6] != "\\u" then None
        else (
          match Hex4(s[6..])
          case None => None
          case Some(w) =>
            if 0xDC00 <= w < 0xE000
            then Some(Parsed((0x1_0000 + (v - 0xD800) * 0x400 + (w - 0xDC00)) as char, s[10..]))
            else None
        )
      else Some(Parsed(v as char, s[4..]))
  }

  /** After a backslash. */
  function ParseEscape(s: string): (r: Option<Parsed<char>>)
    ensures r.Some? ==> |r.value.rest| < |s|
  {
    if s == "" then None
    else
      match s[0]
      case '\"' => Some(Parsed('\"', s[1..]))
      case '\\' => Some(Parsed('\\', s[1..]))
      case '/' => Some(Parsed('/', s[1..]))
      case 'b' => Some(Parsed(8 as char, s[1..]))
      case 'f' => Some(Parsed(12 as char, s[1..]))
      case 'n' => Some(Parsed('\n', s[1..]))
      case 'r' => Some(Parsed('\r', s[1..]))
      case 't' => Some(Parsed('\t', s[1..]))
      case 'u' => ParseUnicode(s[1..])
      case _ => None
  }

  function Prepend(c: char, r: Option<Parsed<string>>): Option<Parsed<string>> {
    match r
    case None => None
    case Some(p) => Some(Parsed([c] + p.value, p.rest))
  }

  /** After an opening quote. */
  function ParseText(s: string): (r: Option<Parsed<string>>)
    ensures r.Some? ==> |r.value.rest| < |s|
    decreases |s|
  {
    if s == "" then None
    else if s[0] == '\"' then Some(Parsed("", s[1..]))
    else if s[0] == '\\' then (
      match ParseEscape(s[1..])
      case None => None
      case Some(p) => Prepend(p.value, ParseText(p.rest))
    )
    else if s[0] as int < 32 then None
    else Prepend(s[0], ParseText(s[1..]))
  }

  function SkipSpace(s: string): (r: string)
    ensures |r| <= |s|
  {
    if s != "" && s[0] in " \n\t\r" then SkipSpace(s[1..]) else s
  }

  function ParseQuoted(s: string): (r: Option<Parsed<string>>)
    ensures r.Some? ==> |r.value.rest| < |s|
  {
    if s == "" || s[0] != '\"' then None else ParseText(s[1..])
  }

  /** What has been read so far; a field read twice is an error, and a missing one is empty. */
  datatype Draft = Draft(key: Option<string>, host: Option<string>, api: Option<string>, relay: Option<string>)

  const BLANK := Draft(None, None, None, None)

  function SetField(d: Draft, name: string, value: string): Option<Draft> {
    if name == "key" then if d.key.None? then Some(d.(key := Some(value))) else None
    else if name == "host" then if d.host.None? then Some(d.(host := Some(value))) else None
    else if name == "api" then if d.api.None? then Some(d.(api := Some(value))) else None
    else if name == "relay" then if d.relay.None? then Some(d.(relay := Some(value))) else None
    else Some(d)
  }

  function OrEmpty(o: Option<string>): string {
    if o.Some? then o.value else ""
  }

  function Finish(d: Draft): CustomServer {
    CustomServer(OrEmpty(d.key), OrEmpty(d.host), OrEmpty(d.api), OrEmpty(d.relay))
  }

  /** After a field name: a colon, the value, and the character that follows it. */
  function ParseValue(name: string, s: string, d: Draft): (r: Option<Parsed<Draft>>)
    ensures r.Some? ==> 0 < |r.value.rest| < |s|
  {
    var colon := SkipSpace(s);
    if colon == "" || colon[0] != ':' then None
    else
      match ParseQuoted(SkipSpace(colon[1..]))
      case None => None
      case Some(value) =>
        var next := SkipSpace(value.rest);
        match SetField(d, name, value.value)
        case None => None
        case Some(d') => if next == "" then None else Some(Parsed(d', next))
  }

  function ParseMember(s: string, d: Draft): (r: Option<Parsed<Draft>>)
    ensures r.Some? ==> 0 < |r.value.rest| < |s|
  {
    match ParseQuoted(s)
    case None => None
    case Some(name) => ParseValue(name.value, name.rest, d)
  }

  function ParseMembers(s: string, d: Draft): Option<Parsed<Draft>>
    decreases |s|
  {
    match ParseMember(s, d)
    case None => None
    case Some(p) =>
      if p.rest[0] == '}' then Some(Parsed(p.value, p.rest[1..]))
      else if p.rest[0] == ',' then ParseMembers(SkipSpace(p.rest[1..]), p.value)
      else None
  }

  /** Nothing but white space may follow the object. */
  function Close(members: Option<Parsed<Draft>>): Option<CustomServer> {
    match members
    case None => None
    case Some(p) => if SkipSpace(p.rest) == "" then Some(Finish(p.value)) else None
  }

  /** After the opening brace and white space. */
  function ParseBody(body: string): Option<Parsed<Draft>> {
    if body != "" && body[0] == '}' then Some(Parsed(BLANK, body[1..])) else ParseMembers(body, BLANK)
  }

  function Parse(text: string): Option<CustomServer> {
    var s := SkipSpace(text);
    if s == "" || s[0] != '{' then None else Close(ParseBody(SkipSpace(s[1..])))
  }

  // ---- printing and parsing back ----

  lemma HexDigitValue(n: nat)
    requires n < 16
    ensures HexValue(HexDigit(n)) == Some(n)
  {
  }

  lemma UnicodeParses(v: nat, x: string)
    requires v < 32
    ensures ParseUnicode(['0', '0', HexDigit(v / 16), HexDigit(v % 16)] + x) == Some(Parsed(v as char, x))
  {
    var s := ['0', '0', HexDigit(v / 16), HexDigit(v % 16)] + x;
    HexDigitValue(0);
    HexDigitValue(v / 16);
    HexDigitValue(v % 16);
    assert Hex4(s) == Some(v);
    assert s[4..] == x;
  }

  lemma ControlParses(c: char, x: string)
    requires c as int < 32 && |EscapeChar(c)| == 6
    ensures ParseText(EscapeChar(c) + x) == Prepend(c, ParseText(x))
  {
    var v := c as int;
    var digits: string := ['0', '0', HexDigit(v / 16), HexDigit(v % 16)];
    UnicodeParses(v, x);
    assert EscapeChar(c) + x == ['\\'] + (['u'] + (digits + x));
    assert (['\\'] + (['u'] + (digits + x)))[1..] == ['u'] + (digits + x);
    assert (['u'] + (digits + x))[1..] == digits + x;
  }

  lemma PairParses(c: char, x: string)
    requires |EscapeChar(c)| == 2
    ensures ParseEscape([EscapeChar(c)[1]] + x) == Some(Parsed(c, x)) && EscapeChar(c)[0] == '\\'
  {
    assert ([EscapeChar(c)[1]] + x)[1..] == x;
  }

  lemma EscapeParses(c: char, x: string)
    ensures ParseText(EscapeChar(c) + x) == Prepend(c, ParseText(x))
  {
    var e := EscapeChar(c);
    if |e| == 6 {
      ControlParses(c, x);
    } else if |e| == 2 {
      PairParses(c, x);
      assert e + x == ['\\'] + ([e[1]] + x);
      assert (['\\'] + ([e[1]] + x))[1..] == [e[1]] + x;
    } else {
      assert ([c] + x)[1..] == x;
    }
  }

  lemma {:induction false} TextParses(s: string, rest: string)
    ensures ParseText(Escape(s) + (['\"'] + rest)) == Some(Parsed(s, rest))
  {
    if s == "" {
      assert Escape(s) + (['\"'] + rest) == ['\"'] + rest;
      assert (['\"'] + rest)[1..] == rest;
    } else {
      var x := Escape(s[1..]) + (['\"'] + rest);
      assert Escape(s) + (['\"'] + rest) == EscapeChar(s[0]) + x;
      EscapeParses(s[0], x);
      TextParses(s[1..], rest);
      assert [s[0]] + s[1..] == s;
    }
  }

  lemma QuotedParses(s: string, rest: string)
    ensures ParseQuoted(Quote(s) + rest) == Some(Parsed(s, rest))
  {
    assert (Quote(s) + rest)[1..] == Escape(s) + (['\"'] + rest);
    TextParses(s, rest);
  }

  lemma ValueParses(name: string, value: string, rest: string, d: Draft, d': Draft)
    requires SetField(d, name, value) == Some(d')
    requires rest != "" && rest[0] !in " \n\t\r"
    ensures ParseValue(name, [':'] + (Quote(value) + rest), d) == Some(Parsed(d', rest))
  {
    assert ([':'] + (Quote(value) + rest))[1..] == Quote(value) + rest;
    QuotedParses(value, rest);
  }

  lemma MemberSplits(name: string, value: string, rest: string)
    ensures Member(name, value) + rest == Quote(name) + ([':'] + (Quote(value) + rest))
  {
    var n, v := Quote(name), Quote(value);
    assert (n + ([':'] + v)) + rest == n + ([':'] + (v + rest));
  }

  lemma MemberParses(name: string, value: string, rest: string, d: Draft, d': Draft)
    requires SetField(d, name, value) == Some(d')
    requires rest != "" && rest[0] !in " \n\t\r"
    ensures ParseMember(Member(name, value) + rest, d) == Some(Parsed(d', rest))
  {
    MemberSplits(name, value, rest);
    QuotedParses(name, [':'] + (Quote(value) + rest));
    ValueParses(name, value, rest, d, d');
  }

  lemma NextMember(name: string, value: string, rest: string, d: Draft, d': Draft)
    requires SetField(d, name, value) == Some(d')
    requires rest != "" && rest[0] == '\"'
    ensures ParseMembers(Member(name, value) + ([','] + rest), d) == ParseMembers(rest, d')
  {
    MemberParses(name, value, [','] + rest, d, d');
    assert ([','] + rest)[1..] == rest;
  }

  lemma RelayParses(lic: CustomServer, d: Draft)
    requires d.relay.None?
    ensures ParseMembers(FromRelay(lic), d) == Some(Parsed(d.(relay := Some(lic.relay)), ""))
  {
    var d' := d.(relay := Some(lic.relay));
    assert SetField(d, "relay", lic.relay) == Some(d');
    MemberParses("relay", lic.relay, ['}'], d, d');
    assert ['}'][1..] == "";
  }

  lemma ApiParses(lic: CustomServer, d: Draft)
    requires d.api.None?
    ensures ParseMembers(FromApi(lic), d) == ParseMembers(FromRelay(lic), d.(api := Some(lic.api)))
  {
    NextMember("api", lic.api, FromRelay(lic), d, d.(api := Some(lic.api)));
  }

  lemma HostParses(lic: CustomServer, d: Draft)
    requires d.host.None?
    ensures ParseMembers(FromHost(lic), d) == ParseMembers(FromApi(lic), d.(host := Some(lic.host)))
  {
    NextMember("host", lic.host, FromApi(lic), d, d.(host := Some(lic.host)));
  }

  lemma KeyParses(lic: CustomServer, d: Draft)
    requires d.key.None?
    ensures ParseMembers(FromKey(lic), d) == ParseMembers(FromHost(lic), d.(key := Some(lic.key)))
  {
    NextMember("key", lic.key, FromHost(lic), d, d.(key := Some(lic.key)));
  }

  lemma MembersParse(lic: CustomServer)
    ensures ParseMembers(FromKey(lic), BLANK)
         == Some(Parsed(Draft(Some(lic.key), Some(lic.host), Some(lic.api), Some(lic.relay)), ""))
  {
    KeyParses(lic, BLANK);
    var d := Draft(Some(lic.key), None, None, None);
    HostParses(lic, d);
    d := d.(host := Some(lic.host));
    ApiParses(lic, d);
    RelayParses(lic, d.(api := Some(lic.api)));
  }

  lemma ObjectParses(body: string, lic: CustomServer)
    requires body != "" && body[0] == '\"'
    requires Close(ParseBody(body)) == Some(lic)
    ensures Parse(['{'] + body) == Some(lic)
  {
    assert (['{'] + body)[1..] == body;
  }

  /** Every record of four Unicode strings is read back from its own text. */
  lemma ParsePrint(lic: CustomServer)
    ensures Parse(Print(lic)) == Some(lic)
  {
    MembersParse(lic);
    ObjectParses(FromKey(lic), lic);
  }

  // ---- shape of the text ----

  /** Characters that are printed as they are. */
  predicate NeedsNoEscape(s: string) {
    forall i | 0 <= i < |s| :: s[i] as int >= 32 && s[i] != '\"' && s[i] != '\\'
  }

  lemma {:induction false} EscapeNothing(s: string)
    requires NeedsNoEscape(s)
    ensures Escape(s) == s
  {
    if s != "" {
      EscapeNothing(s[1..]);
    }
  }

  function PlainMember(name: string, value: string): string {
    "\"" + name + "\":\"" + value + "\""
  }

  lemma MemberText(name: string, value: string)
    requires NeedsNoEscape(name) && NeedsNoEscape(value)
    ensures Member(name, value) == PlainMember(name, value)
  {
    EscapeNothing(name);
    EscapeNothing(value);
  }

  /** The text of a record without special characters, spelled out. */
  lemma PlainText(lic: CustomServer)
    requires NeedsNoEscape(lic.key) && NeedsNoEscape(lic.host)
    requires NeedsNoEscape(lic.api) && NeedsNoEscape(lic.relay)
    ensures Print(lic) ==
            ['{'] + (PlainMember("key", lic.key) + ([','] + (PlainMember("host", lic.host) + ([','] +
            (PlainMember("api", lic.api) + ([','] + (PlainMember("relay", lic.relay) + ['}'])))))))
  {
    MemberText("key", lic.key);
    MemberText("host", lic.host);
    MemberText("api", lic.api);
    MemberText("relay", lic.relay);
  }

  lemma EscapeStep(c: char, rest: string)
    ensures Escape([c] + rest) == EscapeChar(c) + Escape(rest)
  {
    assert ([c] + rest)[1..] == rest;
  }

  /** The short escapes of characters that can be typed. */
  lemma KnownEscapes()
    ensures Escape("\"\\") == "\\\"\\\\" && Escape("\n\r\t") == "\\n\\r\\t"
  {
    EscapeStep('\"', "\\");
    EscapeStep('\n', "\r\t");
    EscapeStep('\r', "\t");
  }

  /** The other two, and a control character that has none. */
  lemma ControlEscapes()
    ensures Escape([8 as char, 12 as char]) == "\\b\\f" && Escape([31 as char]) == "\\u001f"
  {
    EscapeStep(8 as char, [12 as char]);
    EscapeStep(31 as char, "");
  }

  lemma {:induction false} EscapeAscii(s: string)
    requires IsAscii(s)
    ensures IsAscii(Escape(s))
  {
    if s != "" {
      EscapeAscii(s[1..]);
    }
  }

  ghost predicate IsAscii(s: string) {
    forall i | 0 <= i < |s| :: s[i] as int < 128
  }

  ghost predicate AsciiFields(lic: CustomServer) {
    IsAscii(lic.key) && IsAscii(lic.host) && IsAscii(lic.api) && IsAscii(lic.relay)
  }

  lemma MemberAscii(name: string, value: string, c: char, rest: string)
    requires IsAscii(name) && IsAscii(value) && IsAscii(rest) && c as int < 128
    ensures IsAscii(Member(name, value) + ([c] + rest))
  {
    EscapeAscii(name);
    EscapeAscii(value);
    assert IsAscii(Quote(name)) && IsAscii(Quote(value));
  }

  lemma PrintAscii(lic: CustomServer)
    requires AsciiFields(lic)
    ensures IsAscii(Print(lic))
  {
    MemberAscii("relay", lic.relay, '}', "");
    assert ['}'] + "" == ['}'];
    MemberAscii("api", lic.api, ',', FromRelay(lic));
    MemberAscii("host", lic.host, ',', FromApi(lic));
    MemberAscii("key", lic.key, ',', FromHost(lic));
    BracedAscii(FromKey(lic));
  }

  lemma BracedAscii(body: string)
    requires IsAscii(body)
    ensures IsAscii(['{'] + body)
  {
  }

  lemma PrintEnds(lic: CustomServer)
    ensures |Print(lic)| >= 3 && Print(lic)[0] == '{'
    ensures Print(lic)[|Print(lic)| - 2] == '\"' && Print(lic)[|Print(lic)| - 1] == '}'
  {
    var m := Member("relay", lic.relay);
    assert m[|m| - 1] == '\"' by {
      var q := Quote(lic.relay);
      assert q[|q| - 1] == '\"';
    }
    assert FromRelay(lic)[|m| - 1] == '\"' && FromRelay(lic)[|m|] == '}';
  }
}
