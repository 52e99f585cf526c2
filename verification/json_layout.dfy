/** A licence's JSON text in any layout: members in any order, white space anywhere, unknown members, none missing. */
module JsonLayouts {
  import opened Wrappers
  import opened LicenceJson

  /** A member with the white space before it, around its colon and behind it. */
  datatype Entry = Entry(before: string, name: string, left: string, right: string, value: string, after: string)

  predicate IsBlank(s: string) {
    forall i | 0 <= i < |s| :: s[i] in " \n\t\r"
  }

  ghost predicate WellSpaced(e: Entry) {
    IsBlank(e.before) && IsBlank(e.left) && IsBlank(e.right) && IsBlank(e.after)
  }

  /** The member from its name on, and what follows it. */
  function Spelled(e: Entry, rest: string): string {
    Quote(e.name) + (e.left + ([':'] + (e.right + (Quote(e.value) + (e.after + rest)))))
  }

  /** The members between commas, the closing brace and what follows it. */
  function Listed(entries: seq<Entry>, rest: string): string
    requires entries != []
  {
    entries[0].before
    + Spelled(entries[0], if |entries| == 1 then ['}'] + rest else [','] + Listed(entries[1..], rest))
  }

  // ---- texts with every character escaped ----

  /** Hexadecimal digits may be of either case. */
  function Digit(n: nat, upper: bool): (c: char)
    requires n < 16
    ensures HexValue(c) == Some(n)
  {
    if upper && n >= 10 then (55 + n) as char else HexDigit(n)
  }

  function Digits(v: nat, upper: bool): string
    requires v < 0x1_0000
  {
    [Digit(v / 0x1000, upper), Digit(v / 0x100 % 16, upper), Digit(v / 16 % 16, upper), Digit(v % 16, upper)]
  }

  lemma FourDigits(v: nat)
    ensures ((v / 0x1000 * 16 + v / 0x100 % 16) * 16 + v / 16 % 16) * 16 + v % 16 == v
  {
    assert v / 0x100 == v / 16 / 16 && v / 0x1000 == v / 0x100 / 16;
  }

  lemma DigitsRead(v: nat, upper: bool, rest: string)
    requires v < 0x1_0000
    ensures Hex4(Digits(v, upper) + rest) == Some(v)
  {
    var s := Digits(v, upper) + rest;
    FourDigits(v);
    assert s[0] == Digit(v / 0x1000, upper) && s[1] == Digit(v / 0x100 % 16, upper);
    assert s[2] == Digit(v / 16 % 16, upper) && s[3] == Digit(v % 16, upper);
  }

  /** The first half of the surrogate pair of a character beyond the basic plane, and the second. */
  function High(c: char): nat
    requires c as int >= 0x1_0000
  {
    0xD800 + (c as int - 0x1_0000) / 0x400
  }

  function Low(c: char): nat
    requires c as int >= 0x1_0000
  {
    0xDC00 + (c as int - 0x1_0000) % 0x400
  }

  function EscapedChar(c: char, upper: bool): string {
    if c as int < 0x1_0000 then ['\\'] + (['u'] + Digits(c as int, upper))
    else ['\\'] + (['u'] + (Digits(High(c), upper) + (['\\'] + (['u'] + Digits(Low(c), upper)))))
  }

  function EscapedText(s: string, upper: bool): string {
    if s == "" then "" else EscapedChar(s[0], upper) + EscapedText(s[1..], upper)
  }

  lemma BasicReads(v: nat, upper: bool, rest: string)
    requires v < 0xD800 || 0xE000 <= v < 0x1_0000
    ensures ParseUnicode(Digits(v, upper) + rest) == Some(Parsed(v as char, rest))
  {
    DigitsRead(v, upper, rest);
    assert (Digits(v, upper) + rest)[4..] == rest;
  }

  lemma PairReads(c: char, upper: bool, rest: string)
    requires c as int >= 0x1_0000
    ensures ParseUnicode(Digits(High(c), upper) + (['\\'] + (['u'] + (Digits(Low(c), upper) + rest)))) ==
            Some(Parsed(c, rest))
  {
    var low := Digits(Low(c), upper) + rest;
    var s := Digits(High(c), upper) + (['\\'] + (['u'] + low));
    DigitsRead(High(c), upper, ['\\'] + (['u'] + low));
    DigitsRead(Low(c), upper, rest);
    assert s[4] == '\\' && s[5] == 'u' && s[4..6] == "\\u";
    assert s[6..] == low && s[10..] == rest;
  }

  /** Half a surrogate pair is no character. */
  lemma LoneSurrogate(v: nat, upper: bool, rest: string)
    requires 0xD800 <= v < 0xE000 && (rest == "" || rest[0] != '\\')
    ensures ParseUnicode(Digits(v, upper) + rest) == None
  {
    DigitsRead(v, upper, rest);
    var s := Digits(v, upper) + rest;
    assert |s| >= 6 ==> s[4..6][0] == rest[0];
  }

  lemma EscapeReads(digits: string, p: Parsed<char>)
    requires ParseUnicode(digits) == Some(p)
    ensures ParseText(['\\'] + (['u'] + digits)) == Prepend(p.value, ParseText(p.rest))
  {
    var s := ['\\'] + (['u'] + digits);
    assert s[1..] == ['u'] + digits && s[1..][1..] == digits;
  }

  lemma BasicCharReads(c: char, upper: bool, rest: string)
    requires c as int < 0x1_0000
    ensures ParseText(EscapedChar(c, upper) + rest) == Prepend(c, ParseText(rest))
  {
    var digits := Digits(c as int, upper) + rest;
    assert EscapedChar(c, upper) + rest == ['\\'] + (['u'] + digits);
    BasicReads(c as int, upper, rest);
    EscapeReads(digits, Parsed(c, rest));
  }

  lemma PairCharReads(c: char, upper: bool, rest: string)
    requires c as int >= 0x1_0000
    ensures ParseText(EscapedChar(c, upper) + rest) == Prepend(c, ParseText(rest))
  {
    var high, low := Digits(High(c), upper), Digits(Low(c), upper);
    var digits := high + (['\\'] + (['u'] + (low + rest)));
    assert EscapedChar(c, upper) + rest == ['\\'] + (['u'] + digits);
    PairReads(c, upper, rest);
    EscapeReads(digits, Parsed(c, rest));
  }

  /** Every text is read back with all of its characters escaped, in digits of either case. */
  lemma {:induction false} AllEscaped(s: string, upper: bool, rest: string)
    ensures ParseText(EscapedText(s, upper) + (['\"'] + rest)) == Some(Parsed(s, rest))
  {
    if s == "" {
      assert EscapedText(s, upper) + (['\"'] + rest) == ['\"'] + rest;
      assert (['\"'] + rest)[1..] == rest;
    } else {
      var x := EscapedText(s[1..], upper) + (['\"'] + rest);
      assert EscapedText(s, upper) + (['\"'] + rest) == EscapedChar(s[0], upper) + x;
      if s[0] as int < 0x1_0000 {
        BasicCharReads(s[0], upper, x);
      } else {
        PairCharReads(s[0], upper, x);
      }
      AllEscaped(s[1..], upper, rest);
      assert [s[0]] + s[1..] == s;
    }
  }

  // ---- reading one member ----

  lemma {:induction false} SkipBlank(blank: string, rest: string)
    requires IsBlank(blank) && rest != "" && rest[0] !in " \n\t\r"
    ensures SkipSpace(blank + rest) == rest
  {
    if blank == "" {
      assert blank + rest == rest;
    } else {
      assert (blank + rest)[1..] == blank[1..] + rest;
      SkipBlank(blank[1..], rest);
    }
  }

  lemma {:induction false} OnlyBlank(blank: string)
    requires IsBlank(blank)
    ensures SkipSpace(blank) == ""
  {
    if blank != "" {
      OnlyBlank(blank[1..]);
    }
  }

  lemma SpelledStart(e: Entry, rest: string)
    ensures Spelled(e, rest) != "" && Spelled(e, rest)[0] == '\"'
  {
  }

  lemma AfterColon(e: Entry, rest: string, d: Draft)
    requires WellSpaced(e) && rest != "" && rest[0] !in " \n\t\r"
    ensures var s := [':'] + (e.right + (Quote(e.value) + (e.after + rest)));
            ParseValue(e.name, s, d) ==
            match SetField(d, e.name, e.value)
            case None => None
            case Some(d') => Some(Parsed(d', rest))
  {
    var value := Quote(e.value) + (e.after + rest);
    var s := [':'] + (e.right + value);
    assert SkipSpace(s) == s && s[1..] == e.right + value;
    SkipBlank(e.right, value);
    QuotedParses(e.value, e.after + rest);
    SkipBlank(e.after, rest);
  }

  lemma ColonAfterBlank(name: string, blank: string, s: string, d: Draft)
    requires IsBlank(blank) && s != "" && s[0] == ':'
    ensures ParseValue(name, blank + s, d) == ParseValue(name, s, d)
  {
    SkipBlank(blank, s);
    assert SkipSpace(s) == s;
  }

  lemma SpelledParses(e: Entry, rest: string, d: Draft)
    requires WellSpaced(e) && rest != "" && rest[0] !in " \n\t\r"
    ensures ParseMember(Spelled(e, rest), d) ==
            match SetField(d, e.name, e.value)
            case None => None
            case Some(d') => Some(Parsed(d', rest))
  {
    var s := [':'] + (e.right + (Quote(e.value) + (e.after + rest)));
    QuotedParses(e.name, e.left + s);
    ColonAfterBlank(e.name, e.left, s, d);
    AfterColon(e, rest, d);
  }

  // ---- reading all of them ----

  /** The members' effect in their order. */
  function Read(entries: seq<Entry>, d: Draft): Option<Draft> {
    if entries == [] then Some(d)
    else
      match SetField(d, entries[0].name, entries[0].value)
      case None => None
      case Some(d') => Read(entries[1..], d')
  }

  ghost predicate AllSpaced(entries: seq<Entry>) {
    forall i | 0 <= i < |entries| :: WellSpaced(entries[i])
  }

  lemma SkipToName(entries: seq<Entry>, rest: string)
    requires AllSpaced(entries) && entries != []
    ensures SkipSpace(Listed(entries, rest)) ==
            Spelled(entries[0], if |entries| == 1 then ['}'] + rest else [','] + Listed(entries[1..], rest))
  {
    var end := if |entries| == 1 then ['}'] + rest else [','] + Listed(entries[1..], rest);
    SpelledStart(entries[0], end);
    SkipBlank(entries[0].before, Spelled(entries[0], end));
  }

  lemma LastMember(e: Entry, rest: string, d: Draft)
    requires WellSpaced(e)
    ensures ParseMembers(Spelled(e, ['}'] + rest), d) ==
            match SetField(d, e.name, e.value)
            case None => None
            case Some(d') => Some(Parsed(d', rest))
  {
    SpelledParses(e, ['}'] + rest, d);
    assert (['}'] + rest)[1..] == rest;
  }

  lemma MoreMembers(e: Entry, others: string, d: Draft)
    requires WellSpaced(e)
    ensures ParseMembers(Spelled(e, [','] + others), d) ==
            match SetField(d, e.name, e.value)
            case None => None
            case Some(d') => ParseMembers(SkipSpace(others), d')
  {
    SpelledParses(e, [','] + others, d);
    assert ([','] + others)[1..] == others;
  }

  lemma {:induction false} ListedParses(entries: seq<Entry>, rest: string, d: Draft)
    requires AllSpaced(entries) && entries != []
    ensures ParseMembers(SkipSpace(Listed(entries, rest)), d) ==
            match Read(entries, d)
            case None => None
            case Some(d') => Some(Parsed(d', rest))
  {
    SkipToName(entries, rest);
    var e := entries[0];
    if |entries| == 1 {
      LastMember(e, rest, d);
      assert entries[1..] == [];
    } else {
      MoreMembers(e, Listed(entries[1..], rest), d);
      var d' := SetField(d, e.name, e.value);
      if d'.Some? {
        ListedParses(entries[1..], rest, d'.value);
      }
    }
  }

  // ---- what the members say ----

  predicate IsField(name: string) {
    name in ["key", "host", "api", "relay"]
  }

  function Get(d: Draft, name: string): Option<string> {
    if name == "key" then d.key else if name == "host" then d.host else if name == "api" then d.api else d.relay
  }

  lemma SetIs(d: Draft, name: string, value: string)
    ensures var d' := SetField(d, name, value);
            if !IsField(name) then d' == Some(d)
            else if Get(d, name).Some? then d' == None
            else d'.Some? && forall n | IsField(n) ::
              Get(d'.value, n) == if n == name then Some(value) else Get(d, n)
  {
  }

  /** No field is named twice; other names may be. */
  ghost predicate EachOnce(entries: seq<Entry>) {
    forall i, j | 0 <= i < j < |entries| && IsField(entries[i].name) :: entries[j].name != entries[i].name
  }

  /** The value of the member with the name, and nothing when there is none. */
  function ValueOf(entries: seq<Entry>, name: string): string {
    if entries == [] then ""
    else if entries[0].name == name then entries[0].value
    else ValueOf(entries[1..], name)
  }

  predicate Names(entries: seq<Entry>, name: string) {
    exists i | 0 <= i < |entries| :: entries[i].name == name
  }

  /** Nothing that was read before is named again. */
  ghost predicate Further(entries: seq<Entry>, d: Draft) {
    EachOnce(entries) && forall n | IsField(n) && Get(d, n).Some? :: !Names(entries, n)
  }

  lemma NamesFirst(entries: seq<Entry>, name: string)
    requires entries != []
    ensures Names(entries, name) <==> entries[0].name == name || Names(entries[1..], name)
  {
    if i :| 0 < i < |entries| && entries[i].name == name {
      assert entries[1..][i - 1].name == name;
    }
    if i :| 0 <= i < |entries| - 1 && entries[1..][i].name == name {
      assert entries[i + 1].name == name;
    }
  }

  lemma OnceFirst(entries: seq<Entry>)
    requires entries != []
    ensures EachOnce(entries) <==>
            EachOnce(entries[1..]) && (IsField(entries[0].name) ==> !Names(entries[1..], entries[0].name))
  {
    var rest := entries[1..];
    assert forall i | 0 <= i < |rest| :: rest[i] == entries[i + 1];
    if EachOnce(rest) && (IsField(entries[0].name) ==> !Names(rest, entries[0].name)) {
      forall i, j | 0 <= i < j < |entries| && IsField(entries[i].name)
        ensures entries[j].name != entries[i].name
      {
        assert entries[j] == rest[j - 1];
        if i > 0 {
          assert entries[i] == rest[i - 1];
        }
      }
    }
    if EachOnce(entries) {
      forall i, j | 0 <= i < j < |rest| && IsField(rest[i].name)
        ensures rest[j].name != rest[i].name
      {
        assert entries[i + 1] == rest[i] && entries[j + 1] == rest[j];
      }
    }
  }

  lemma FurtherFirst(entries: seq<Entry>, d: Draft)
    requires entries != []
    ensures var d' := SetField(d, entries[0].name, entries[0].value);
            Further(entries, d) <==> d'.Some? && Further(entries[1..], d'.value)
  {
    SetIs(d, entries[0].name, entries[0].value);
    OnceFirst(entries);
    forall n
      ensures Names(entries, n) <==> entries[0].name == n || Names(entries[1..], n)
    {
      NamesFirst(entries, n);
    }
  }

  lemma {:induction false} ReadIs(entries: seq<Entry>, d: Draft, name: string)
    requires IsField(name)
    ensures Read(entries, d).Some? <==> Further(entries, d)
    ensures Read(entries, d).Some? ==>
              Get(Read(entries, d).value, name) ==
              if Get(d, name).Some? then Get(d, name)
              else if Names(entries, name) then Some(ValueOf(entries, name)) else None
  {
    if entries != [] {
      FurtherFirst(entries, d);
      NamesFirst(entries, name);
      SetIs(d, entries[0].name, entries[0].value);
      var d' := SetField(d, entries[0].name, entries[0].value);
      if d'.Some? {
        ReadIs(entries[1..], d'.value, name);
      }
    }
  }

  lemma {:induction false} Unnamed(entries: seq<Entry>, name: string)
    requires !Names(entries, name)
    ensures ValueOf(entries, name) == ""
  {
    if entries != [] {
      NamesFirst(entries, name);
      Unnamed(entries[1..], name);
    }
  }

  lemma FieldIs(entries: seq<Entry>, name: string)
    requires IsField(name) && Read(entries, BLANK).Some?
    ensures OrEmpty(Get(Read(entries, BLANK).value, name)) == ValueOf(entries, name)
  {
    ReadIs(entries, BLANK, name);
    if !Names(entries, name) {
      Unnamed(entries, name);
    }
  }

  lemma Fields()
    ensures IsField("key") && IsField("host") && IsField("api") && IsField("relay")
  {
  }

  lemma FinishIs(entries: seq<Entry>)
    ensures Read(entries, BLANK).Some? <==> EachOnce(entries)
    ensures Read(entries, BLANK).Some? ==>
              Finish(Read(entries, BLANK).value) ==
              CustomServer(ValueOf(entries, "key"), ValueOf(entries, "host"),
                           ValueOf(entries, "api"), ValueOf(entries, "relay"))
  {
    Fields();
    ReadIs(entries, BLANK, "key");
    if Read(entries, BLANK).Some? {
      FieldIs(entries, "key");
      FieldIs(entries, "host");
      FieldIs(entries, "api");
      FieldIs(entries, "relay");
    }
  }

  lemma WholeText(front: string, entries: seq<Entry>, back: string)
    requires IsBlank(front) && IsBlank(back) && AllSpaced(entries) && entries != []
    ensures Parse(front + (['{'] + Listed(entries, back))) ==
            match Read(entries, BLANK)
            case None => None
            case Some(d) => Some(Finish(d))
  {
    var inner := Listed(entries, back);
    SkipBlank(front, ['{'] + inner);
    assert (['{'] + inner)[1..] == inner;
    SkipToName(entries, back);
    ListedParses(entries, back, BLANK);
    OnlyBlank(back);
  }

  /**
    * Members in any order and white space anywhere: the licence has the value of each field's member, and nothing for
    * a field without one; members with other names do not count; a field that is named twice makes the text invalid.
    */
  lemma AnyLayout(front: string, entries: seq<Entry>, back: string)
    requires IsBlank(front) && IsBlank(back) && AllSpaced(entries) && entries != []
    ensures Parse(front + (['{'] + Listed(entries, back))) ==
            if EachOnce(entries) then
              Some(CustomServer(ValueOf(entries, "key"), ValueOf(entries, "host"),
                                ValueOf(entries, "api"), ValueOf(entries, "relay")))
            else None
  {
    WholeText(front, entries, back);
    FinishIs(entries);
  }
}
