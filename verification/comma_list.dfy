/** The list of tagged fields that a file name may carry instead of an encoded licence. */
module CommaLists {
  import opened Wrappers
  import opened LicenceJson
  import opened LowerCase
  import opened Text
  import opened CustomServers
  import FileNames
  import Utf8

  datatype Field = Host | Key | Api | Relay

  function Tag(f: Field): string {
    match f
    case Host => "host="
    case Key => "key="
    case Api => "api="
    case Relay => "relay="
  }

  /** One item of the list: a field with its tag in any letter case, or text that carries no tag. */
  datatype Item = Assign(field: Field, spelling: string, value: string) | Noise(text: string)

  function ItemText(item: Item): string {
    match item
    case Assign(_, spelling, value) => spelling + value
    case Noise(text) => text
  }

  function Texts(items: seq<Item>): (texts: seq<string>)
    ensures |texts| == |items|
  {
    seq(|items|, i requires 0 <= i < |items| => ItemText(items[i]))
  }

  predicate WellFormed(item: Item) {
    && ',' !in ItemText(item)
    && match item
       case Assign(f, spelling, _) => Lower(spelling) == Tag(f)
       case Noise(text) => forall f: Field :: !(Tag(f) <= Lower(text))
  }

  /** The value that the last item for the field gives it. */
  function Expected(items: seq<Item>, f: Field): string {
    if items == [] then ""
    else
      var last := items[|items| - 1];
      if last.Assign? && last.field == f then last.value else Expected(items[..|items| - 1], f)
  }

  function ExpectedServer(items: seq<Item>): CustomServer {
    CustomServer(Expected(items, Key), Expected(items, Host), Expected(items, Api), Expected(items, Relay))
  }

  // ---- reading the items ----

  lemma TagsDiffer(f: Field, g: Field, s: string)
    requires Tag(f) <= s && f != g
    ensures !(Tag(g) <= s)
  {
    assert s[0] == Tag(f)[0] != Tag(g)[0];
  }

  lemma LowerConcat(a: string, b: string)
    ensures Lower(a + b) == Lower(a) + Lower(b)
  {
  }

  lemma TagPattern(f: Field)
    ensures IsPattern(Tag(f))
  {
  }

  lemma AssignHasItsTag(fold: Folding, f: Field, spelling: string, value: string, g: Field)
    requires Lower(spelling) == Tag(f)
    ensures HasTag(fold, spelling + value, Tag(g)) <==> f == g
    ensures Skip(spelling + value, |Tag(f)|) == value
  {
    TagPattern(g);
    TagIs(fold, spelling + value, Tag(g));
    LowerConcat(spelling, value);
    if f != g {
      TagsDiffer(f, g, Lower(spelling + value));
    }
  }

  lemma NoiseHasNoTag(fold: Folding, text: string, f: Field)
    requires !(Tag(f) <= Lower(text))
    ensures !HasTag(fold, text, Tag(f))
  {
    TagPattern(f);
    TagIs(fold, text, Tag(f));
  }

  lemma {:induction false} LastValueIsExpected(fold: Folding, items: seq<Item>, f: Field)
    requires forall item | item in items :: WellFormed(item)
    ensures LastValue(fold, Texts(items), Tag(f)) == Expected(items, f)
  {
    if items != [] {
      var n := |items| - 1;
      var last := items[n];
      assert last in items && WellFormed(last);
      if last.Assign? {
        AssignHasItsTag(fold, last.field, last.spelling, last.value, f);
      } else {
        NoiseHasNoTag(fold, last.text, f);
      }
      assert Texts(items)[..n] == Texts(items[..n]);
      LastValueIsExpected(fold, items[..n], f);
    }
  }

  lemma ServerIsExpected(fold: Folding, items: seq<Item>)
    requires forall item | item in items :: WellFormed(item)
    ensures FromItems(fold, Texts(items)) == ExpectedServer(items)
  {
    LastValueIsExpected(fold, items, Host);
    LastValueIsExpected(fold, items, Key);
    LastValueIsExpected(fold, items, Api);
    LastValueIsExpected(fold, items, Relay);
  }

  // ---- finding and cutting the list ----

  lemma {:induction false} SplitJoined(parts: seq<string>)
    requires parts != []
    requires forall part | part in parts :: ',' !in part
    ensures Split(Join(parts, ","), ",") == parts
  {
    assert parts[0] in parts;
    if |parts| == 1 {
      QuietWithout(parts[0], "", ",");
      assert parts[0] + "" == parts[0];
      SplitNever(parts[0], ",");
    } else {
      var rest := Join(parts[1..], ",");
      QuietWithout(parts[0], "," + rest, ",");
      assert parts[0] + "," + rest == parts[0] + ("," + rest);
      SplitOnce(parts[0], rest, ",");
      SplitJoined(parts[1..]);
      assert parts == [parts[0]] + parts[1..];
    }
  }

  lemma TagBorder(s: string, i: nat, j: nat)
    requires i < j < i + 5 && MatchAt(s, j, "host=")
    ensures !MatchAt(s, i, "host=")
  {
    assert s[j] == s[j..j + 5][0];
    Mismatch(s, i, "host=", j - i);
  }

  /** The list starts at the first tag, since nothing before it is one. */
  lemma FindsTag(front: string, list: string)
    requires FileNames.Untagged(front) && |list| >= 5 && Lower(list)[..5] == "host="
    ensures var s := Lower(front + list); Contains(s, "host=") && Find(s, "host=") == |front|
  {
    var s := Lower(front + list);
    assert s[|front|..|front| + 5] == Lower(list)[..5];
    assert MatchAt(s, |front|, "host=");
    forall i: nat | i < |front|
      ensures !MatchAt(s, i, "host=")
    {
      if i + 5 <= |front| {
        assert s[i..i + 5] == Lower(front)[i..i + 5];
        assert !MatchAt(Lower(front), i, "host=");
      } else {
        TagBorder(s, i, |front|);
      }
    }
    FindIsFirst(s, "host=");
  }

  ghost predicate IsList(items: seq<Item>) {
    && items != []
    && items[0].Assign? && items[0].field == Host
    && forall item | item in items :: WellFormed(item)
  }

  function ListText(items: seq<Item>): string
    requires items != []
  {
    Join(Texts(items), ",")
  }

  lemma ListStartsWithTag(items: seq<Item>)
    requires IsList(items)
    ensures |ListText(items)| >= 5 && Lower(ListText(items))[..5] == "host="
  {
    assert items[0] in items;
    var spelling := items[0].spelling;
    assert |spelling| == |Lower(spelling)| == 5;
    assert spelling <= ListText(items);
    assert Lower(ListText(items))[..5] == Lower(spelling);
  }

  lemma SplitsToTexts(items: seq<Item>)
    requires IsList(items)
    ensures Split(ListText(items), ",") == Texts(items)
  {
    forall part | part in Texts(items)
      ensures ',' !in part
    {
      var i :| 0 <= i < |items| && Texts(items)[i] == part;
      assert items[i] in items;
    }
    SplitJoined(Texts(items));
  }

  // ---- where the list is cut off ----

  /** The slice starts at the octet that the front's lower case ends at. */
  lemma ListIs(fold: Folding, front: string, list: string)
    requires FileNames.Untagged(front) && |list| >= 5 && Lower(list)[..5] == "host="
    ensures Contains(Lowered(fold, front + list), "host=")
    ensures ListOf(fold, front + list) == From(front + list, Octets(Lowered(fold, front)))
  {
    var s := front + list;
    FindsTag(front, list);
    HostPattern("host=");
    SameContains(fold, s, "host=");
    SameFind(fold, s, "host=");
    assert s[..|front|] == front;
    LoweredConcat(fold, front, list);
    assert Lowered(fold, s)[..|Lowered(fold, front)|] == Lowered(fold, front);
  }

  const NOTHING := CustomServer("", "", "", "")

  /**
    * What can be checked of the front before a list is put behind it: its lower case takes as many octets as it
    * does; or it takes fewer, and the end of the front that is then read along is closed by a comma and gives no
    * field a value.
    */
  predicate KeepsLists(fold: Folding, front: string) {
    var o := Octets(Lowered(fold, front));
    || o == Octets(front)
    || (o < Octets(front)
        && match From(front, o)
           case None => false
           case Some(u) => u != "" && u[|u| - 1] == ',' && FromItems(fold, Split(u, ",")) == NOTHING)
  }

  lemma {:induction false} SplitComma(a: string, b: string)
    ensures Split(a + ("," + b), ",") == Split(a, ",") + Split(b, ",")
    decreases |a|
  {
    if a == "" {
      assert a + ("," + b) == "," + b;
      SplitMatch(b, ",");
    } else {
      var t := a + ("," + b);
      assert t[1..] == a[1..] + ("," + b);
      SplitComma(a[1..], b);
      CommaStarts(a, "," + b);
    }
  }

  lemma CommaStarts(a: string, b: string)
    requires a != ""
    ensures "," <= a + b <==> "," <= a
    ensures "," <= a <==> a[0] == ','
  {
    assert (a + b)[0] == a[0];
  }

  lemma EmptyHasNoTag(fold: Folding, tag: string)
    requires tag != ""
    ensures !HasTag(fold, "", tag)
  {
  }

  /** Items in front that give a field no value change nothing. */
  lemma {:induction false} LastValueConcat(fold: Folding, xs: seq<string>, ys: seq<string>, tag: string)
    requires LastValue(fold, xs, tag) == ""
    ensures LastValue(fold, xs + ys, tag) == LastValue(fold, ys, tag)
  {
    if ys == [] {
      assert xs + ys == xs;
    } else {
      var n := |ys| - 1;
      assert (xs + ys)[..|xs| + n] == xs + ys[..n];
      LastValueConcat(fold, xs, ys[..n], tag);
    }
  }

  /** The items of a text that a comma closes. */
  lemma ClosedItems(fold: Folding, u: string, tag: string)
    requires tag != ""
    ensures LastValue(fold, Split(u + ",", ","), tag) == LastValue(fold, Split(u, ","), tag)
  {
    assert u + ("," + "") == u + ",";
    SplitComma(u, "");
    EmptyHasNoTag(fold, tag);
    var items := Split(u, ",");
    assert (items + [""])[..|items|] == items;
  }

  lemma ClosedFront(fold: Folding, u: string, list: string)
    requires FromItems(fold, Split(u + ",", ",")) == NOTHING
    ensures FromItems(fold, Split(u + ("," + list), ",")) == FromItems(fold, Split(list, ","))
  {
    SplitComma(u, list);
    ClosedField(fold, u, list, "key=");
    ClosedField(fold, u, list, "host=");
    ClosedField(fold, u, list, "api=");
    ClosedField(fold, u, list, "relay=");
  }

  lemma ClosedField(fold: Folding, u: string, list: string, tag: string)
    requires tag != "" && LastValue(fold, Split(u + ",", ","), tag) == ""
    ensures LastValue(fold, Split(u, ",") + Split(list, ","), tag) == LastValue(fold, Split(list, ","), tag)
  {
    ClosedItems(fold, u, tag);
    LastValueConcat(fold, Split(u, ","), Split(list, ","), tag);
  }

  lemma CutInFront(front: string, list: string, o: nat)
    requires o < Octets(front)
    ensures From(front + list, o) ==
            match From(front, o) case None => None case Some(u) => Some(u + list)
    ensures From(front, o).Some? ==> From(front, o).value != ""
  {
    CharAtConcat(front, list, o);
    if CharAt(front, o).Some? {
      CharInside(front, o);
      var k := CharAt(front, o).value;
      assert (front + list)[k..] == front[k..] + list;
    }
  }

  lemma ClosedBy(u: string, list: string) returns (u': string)
    requires u != "" && u[|u| - 1] == ','
    ensures u == u' + "," && u + list == u' + ("," + list)
  {
    u' := u[..|u| - 1];
  }

  lemma KeptSlice(fold: Folding, front: string, list: string)
    requires KeepsLists(fold, front)
    ensures var slice := From(front + list, Octets(Lowered(fold, front)));
            slice.Some? && FromItems(fold, Split(slice.value, ",")) == FromItems(fold, Split(list, ","))
  {
    var o := Octets(Lowered(fold, front));
    if o == Octets(front) {
      FromBehind(front, list);
    } else {
      CutInFront(front, list, o);
      var u' := ClosedBy(From(front, o).value, list);
      ClosedFront(fold, u', list);
    }
  }

  /** The list is read as if it stood alone. */
  lemma KeptList(verify: Verify, fold: Folding, front: string, list: string)
    requires FileNames.Untagged(front) && |list| >= 5 && Lower(list)[..5] == "host=" && KeepsLists(fold, front)
    ensures FromStripped(verify, fold, front + list) == Returned(Some(FromItems(fold, Split(list, ","))))
  {
    ListIs(fold, front, list);
    KeptSlice(fold, front, list);
  }

  lemma {:induction false} CharInside(s: string, o: nat)
    requires o < Octets(s) && CharAt(s, o).Some?
    ensures CharAt(s, o).value < |s|
  {
    if o > 0 {
      CharInside(s[1..], o - |Utf8.EncodeChar(s[0])|);
    }
  }

  /** Any order, any letter case, the last duplicate wins, and untagged items change nothing. */
  lemma ListRoundTrip(verify: Verify, fold: Folding, front: string, items: seq<Item>)
    requires FileNames.Untagged(front) && KeepsLists(fold, front) && IsList(items)
    ensures FromStripped(verify, fold, front + ListText(items)) == Returned(Some(ExpectedServer(items)))
  {
    ListStartsWithTag(items);
    KeptList(verify, fold, front, ListText(items));
    SplitsToTexts(items);
    ServerIsExpected(fold, items);
  }

  // ---- which fronts keep lists ----

  /** The least list. */
  const LEAST := [Assign(Host, "host=", "a")]

  lemma LeastList()
    ensures IsList(LEAST) && ListText(LEAST) == "host=a" && ExpectedServer(LEAST) == NOTHING.(host := "a")
    ensures Octets("host=a") == 6
  {
    assert Lower("host=") == "host=";
    assert "host=" + "a" == "host=a";
    assert Texts(LEAST) == ["host=a"];
    assert LEAST[..0] == [];
    OctetsOfAscii("host=a");
  }

  lemma {:induction false} FirstIsPrefix(s: string)
    ensures Split(s, ",")[0] <= s
    decreases |s|
  {
    if s != "" && !("," <= s) {
      FirstIsPrefix(s[1..]);
      assert s == [s[0]] + s[1..];
    }
  }

  lemma UntaggedRest(s: string)
    requires s != "" && FileNames.Untagged(s)
    ensures FileNames.Untagged(s[1..])
  {
    assert Lower(s)[1..] == Lower(s[1..]);
    forall i: nat | i <= |s[1..]|
      ensures !MatchAt(Lower(s[1..]), i, "host=")
    {
      ShiftMatch(Lower(s), i, "host=");
      assert !MatchAt(Lower(s), i + 1, "host=");
    }
  }

  lemma UntaggedPrefix(s: string, t: string)
    requires t <= s && FileNames.Untagged(s)
    ensures FileNames.Untagged(t)
  {
    FileNames.ShorterTextHasNoTag(s, |t|);
    assert s[..|t|] == t;
  }

  lemma {:induction false} UntaggedItems(s: string)
    requires FileNames.Untagged(s)
    ensures forall part | part in Split(s, ",") :: FileNames.Untagged(part)
    decreases |s|
  {
    FirstIsPrefix(s);
    UntaggedPrefix(s, Split(s, ",")[0]);
    if s == "" {
    } else if "," <= s {
      UntaggedRest(s);
      UntaggedItems(s[1..]);
    } else {
      UntaggedRest(s);
      UntaggedItems(s[1..]);
      var rest := Split(s[1..], ",");
      assert forall part | part in rest[1..] :: part in rest;
    }
  }

  lemma UntaggedIsNoHost(fold: Folding, text: string)
    requires FileNames.Untagged(text)
    ensures !HasTag(fold, text, "host=")
  {
    HostPattern("host=");
    TagIs(fold, text, "host=");
    NotMatched(Lower(text), "host=");
  }

  lemma NotMatched(s: string, p: string)
    requires !Contains(s, p)
    ensures !(p <= s)
  {
    assert !MatchAt(s, 0, p);
    assert |p| <= |s| ==> s[0..|p|] == s[..|p|];
  }

  lemma {:induction false} NoHostAmong(fold: Folding, parts: seq<string>)
    requires forall part | part in parts :: FileNames.Untagged(part)
    ensures LastValue(fold, parts, "host=") == ""
  {
    if parts != [] {
      var n := |parts| - 1;
      assert parts[n] in parts;
      UntaggedIsNoHost(fold, parts[n]);
      assert forall part | part in parts[..n] :: part in parts;
      NoHostAmong(fold, parts[..n]);
    }
  }

  lemma NoHostIn(fold: Folding, text: string)
    requires FileNames.Untagged(text)
    ensures LastValue(fold, Split(text, ","), "host=") == ""
  {
    UntaggedItems(text);
    NoHostAmong(fold, Split(text, ","));
  }

  /** A tag with something in front of it is no tag. */
  lemma ShiftedIsUntagged(w: string)
    requires w != "" && FileNames.Untagged(w)
    ensures !("host=" <= Lower(w + "host=a"))
  {
    var s := Lower(w + "host=a");
    LowerConcat(w, "host=a");
    if |w| < 5 {
      LowerList("host=a");
      assert s[|w|..|w| + 5] == Lower("host=a")[..5];
      TagBorder(s, 0, |w|);
    } else {
      NotMatched(Lower(w), "host=");
      assert !(s[..5] == "host=") by {
        assert s[..5] == Lower(w)[..5];
      }
    }
    assert |s| >= 5 && s[0..5] == s[..5];
  }

  lemma LowerList(list: string)
    requires list == "host=a"
    ensures Lower(list) == list && list[..5] == "host="
  {
  }

  /** The last item of a text, and what is in front of it. */
  lemma {:induction false} LastItem(u: string) returns (a: string, w: string)
    ensures u == a + w && ',' !in w && (a == "" || a[|a| - 1] == ',')
  {
    if u == "" || u[|u| - 1] == ',' {
      a, w := u, "";
    } else {
      var n := |u| - 1;
      var v;
      a, v := LastItem(u[..n]);
      w := v + [u[n]];
      assert u == a + w;
    }
  }

  lemma ShiftedItem(fold: Folding, w: string)
    requires w != "" && FileNames.Untagged(w)
    ensures !HasTag(fold, w + "host=a", "host=")
  {
    HostPattern("host=");
    TagIs(fold, w + "host=a", "host=");
    ShiftedIsUntagged(w);
  }

  /** An item behind others. */
  lemma BehindItems(fold: Folding, a: string, item: string, tag: string)
    requires ',' !in item && !HasTag(fold, item, tag) && (a == "" || a[|a| - 1] == ',')
    requires a != "" ==> LastValue(fold, Split(a[..|a| - 1], ","), tag) == ""
    ensures LastValue(fold, Split(a + item, ","), tag) == ""
  {
    LastSplit(item);
    if a == "" {
      assert a + item == item;
      assert [item][..0] == [];
    } else {
      var a' := ClosedBy(a, item);
      assert a[..|a| - 1] == a';
      SplitComma(a', item);
      assert (Split(a', ",") + [item])[..|Split(a', ",")|] == Split(a', ",");
    }
  }

  lemma NoHostBefore(fold: Folding, a: string)
    requires FileNames.Untagged(a) && a != ""
    ensures LastValue(fold, Split(a[..|a| - 1], ","), "host=") == ""
  {
    UntaggedPrefix(a, a[..|a| - 1]);
    NoHostIn(fold, a[..|a| - 1]);
  }

  /** When the front is read along without a comma at its end, the host is lost. */
  lemma OpenFrontFails(fold: Folding, u: string, list: string)
    requires u != "" && u[|u| - 1] != ',' && FileNames.Untagged(u) && list == "host=a"
    ensures LastValue(fold, Split(u + list, ","), "host=") == ""
  {
    var a, w := LastItem(u);
    LastUntagged(u, a, w);
    assert w != "";
    ShiftedItem(fold, w);
    if a != "" {
      NoHostBefore(fold, a);
    }
    BehindItems(fold, a, w + list, "host=");
    Associates(a, w, list);
  }

  lemma LastUntagged(u: string, a: string, w: string)
    requires u == a + w && FileNames.Untagged(u)
    ensures FileNames.Untagged(a) && FileNames.Untagged(w)
    decreases |a|
  {
    UntaggedPrefix(u, a);
    if a == "" {
      assert a + w == w;
    } else {
      UntaggedRest(u);
      assert u[1..] == a[1..] + w;
      LastUntagged(u[1..], a[1..], w);
    }
  }

  lemma LastSplit(item: string)
    requires ',' !in item
    ensures Split(item, ",") == [item]
  {
    QuietWithout(item, "", ",");
    assert item + "" == item;
    SplitNever(item, ",");
  }

  /** A slice that starts inside the least list has no host. */
  lemma CutListFails(fold: Folding, list: string, k: nat)
    requires list == "host=a" && 0 < k <= 6
    ensures LastValue(fold, Split(list[k..], ","), "host=") == ""
  {
    var t := list[k..];
    LastSplit(t);
    HostPattern("host=");
    TagIs(fold, t, "host=");
    assert t != "" ==> Lower(t)[0] != 'h';
    if t != "" {
      NoPrefix("host=", Lower(t), 0);
    }
  }

  /** The least list behind a front that is read along gives what the front gives. */
  lemma ClosedFrontGives(fold: Folding, u: string, list: string)
    requires u != "" && u[|u| - 1] == ',' && FileNames.Untagged(u) && list == "host=a"
    requires FromItems(fold, Split(u + list, ",")) == NOTHING.(host := "a")
    ensures FromItems(fold, Split(u, ",")) == NOTHING
  {
    var u' := ClosedBy(u, list);
    SplitComma(u', list);
    LastSplit(list);
    SameFromFront(fold, u', "key=");
    SameFromFront(fold, u', "api=");
    SameFromFront(fold, u', "relay=");
    NoHostIn(fold, u);
  }

  lemma SameFromFront(fold: Folding, u: string, tag: string)
    requires tag in {"key=", "api=", "relay="}
    ensures LastValue(fold, Split(u, ",") + ["host=a"], tag) == LastValue(fold, Split(u + ",", ","), tag)
  {
    ClosedItems(fold, u, tag);
    OtherTag(fold, "host=a", tag);
    var items := Split(u, ",");
    assert (items + ["host=a"])[..|items|] == items;
  }

  lemma OtherTag(fold: Folding, list: string, tag: string)
    requires list == "host=a" && tag in {"key=", "api=", "relay="}
    ensures !HasTag(fold, list, tag)
  {
    assert IsPattern(tag);
    TagIs(fold, list, tag);
    assert Lower(list)[0] == 'h';
    NoPrefix(tag, Lower(list), 0);
  }

  lemma EarlySlice(fold: Folding, front: string, list: string, o: nat)
    requires FileNames.Untagged(front) && list == "host=a" && o < Octets(front)
    requires From(front + list, o).Some?
    requires FromItems(fold, Split(From(front + list, o).value, ",")) == NOTHING.(host := "a")
    ensures From(front, o).Some?
    ensures var u := From(front, o).value;
            u != "" && u[|u| - 1] == ',' && FromItems(fold, Split(u, ",")) == NOTHING
  {
    CutInFront(front, list, o);
    UntaggedSuffix(front, o);
    var u := From(front, o).value;
    if u[|u| - 1] == ',' {
      ClosedFrontGives(fold, u, list);
    } else {
      OpenFrontFails(fold, u, list);
    }
  }

  lemma LaterSlice(fold: Folding, front: string, list: string, o: nat)
    requires list == "host=a" && o > Octets(front) && From(front + list, o).Some?
    ensures FromItems(fold, Split(From(front + list, o).value, ",")).host == ""
  {
    CharAtFurther(front, list, o - Octets(front));
    CharAtStart(list, o - Octets(front));
    BehindFails(fold, front, list, CharAt(front + list, o).value);
  }

  lemma CharAtStart(s: string, o: nat)
    requires o > 0
    ensures CharAt(s, o).Some? ==> CharAt(s, o).value > 0
  {
  }

  /** A front that keeps the least list keeps all. */
  lemma LeastTells(verify: Verify, fold: Folding, front: string, list: string)
    requires FileNames.Untagged(front) && list == "host=a"
    requires FromStripped(verify, fold, front + list) == Returned(Some(NOTHING.(host := "a")))
    ensures KeepsLists(fold, front)
  {
    var o := Octets(Lowered(fold, front));
    LowerList(list);
    ListIs(fold, front, list);
    if o < Octets(front) {
      EarlySlice(fold, front, list, o);
    } else if o > Octets(front) {
      LaterSlice(fold, front, list, o);
    }
  }

  lemma BehindFails(fold: Folding, front: string, list: string, k: nat)
    requires list == "host=a" && |front| < k <= |front| + 6
    ensures LastValue(fold, Split((front + list)[k..], ","), "host=") == ""
  {
    assert (front + list)[k..] == list[k - |front|..];
    CutListFails(fold, list, k - |front|);
  }

  lemma UntaggedSuffix(front: string, o: nat)
    requires FileNames.Untagged(front) && From(front, o).Some?
    ensures FileNames.Untagged(From(front, o).value)
  {
    var k := CharAt(front, o).value;
    assert front == front[..k] + front[k..];
    LastUntagged(front, front[..k], front[k..]);
  }

  /** The lists that a front without a tag keeps are all or not all; which of them can be told from the front. */
  lemma FrontsThatKeep(verify: Verify, fold: Folding, front: string)
    requires FileNames.Untagged(front)
    ensures KeepsLists(fold, front) <==>
            forall items | IsList(items) ::
              FromStripped(verify, fold, front + ListText(items)) == Returned(Some(ExpectedServer(items)))
  {
    if KeepsLists(fold, front) {
      forall items | IsList(items)
        ensures FromStripped(verify, fold, front + ListText(items)) == Returned(Some(ExpectedServer(items)))
      {
        ListRoundTrip(verify, fold, front, items);
      }
    } else {
      LeastList();
      if FromStripped(verify, fold, front + ListText(LEAST)) == Returned(Some(ExpectedServer(LEAST))) {
        LeastTells(verify, fold, front, "host=a");
      }
    }
  }

  /** Fronts of ASCII characters keep all lists. */
  lemma AsciiFrontKeeps(fold: Folding, front: string)
    requires IsAscii(front)
    ensures KeepsLists(fold, front)
  {
    SimpleLowered(fold, front);
    OctetsOfAscii(front);
    OctetsOfAscii(Lower(front));
  }

  lemma OneOctetLate(front: string, list: string)
    requires list != "" && list[0] as int < 128
    ensures From(front + list, Octets(front) + 1) == Some(list[1..])
  {
    CharAtFurther(front, list, 1);
    CharAtOne(list);
    assert (front + list)[|front| + 1..] == list[1..];
  }

  /** A list that is sliced one octet late loses its first letter, and with it the host. */
  lemma LateSlice(verify: Verify, fold: Folding, front: string, list: string)
    requires FileNames.Untagged(front) && Octets(Lowered(fold, front)) == Octets(front) + 1 && list == "host=a"
    ensures FromStripped(verify, fold, front + list) == Returned(Some(NOTHING))
  {
    LowerList(list);
    ListIs(fold, front, list);
    OneOctetLate(front, list);
    assert list[1..] == "ost=a";
    NoTags(fold, list[1..]);
  }

  lemma CharAtOne(s: string)
    requires s != "" && s[0] as int < 128
    ensures CharAt(s, 1) == Some(1)
  {
  }

  lemma NoTags(fold: Folding, text: string)
    requires text == "ost=a"
    ensures FromItems(fold, Split(text, ",")) == NOTHING
  {
    LastSplit(text);
    NoTagHere(fold, text, Key);
    NoTagHere(fold, text, Host);
    NoTagHere(fold, text, Api);
    NoTagHere(fold, text, Relay);
  }

  lemma NoTagHere(fold: Folding, text: string, f: Field)
    requires text == "ost=a"
    ensures !HasTag(fold, text, Tag(f)) && LastValue(fold, [text], Tag(f)) == ""
  {
    TagPattern(f);
    TagIs(fold, text, Tag(f));
    assert Lower(text)[0] == 'o';
    NoPrefix(Tag(f), Lower(text), 0);
    assert [text][..0] == [];
  }

  /** A list whose slice would start inside a character. */
  lemma InsideSlice(verify: Verify, fold: Folding, front: string)
    requires FileNames.Untagged(front) && Octets(Lowered(fold, front)) < Octets(front)
    requires From(front, Octets(Lowered(fold, front))).None?
    ensures FromStripped(verify, fold, front + "host=a") == Panicked
  {
    LowerList("host=a");
    ListIs(fold, front, "host=a");
    CutInFront(front, "host=a", Octets(Lowered(fold, front)));
  }

  lemma NamedList(fold: Folding, front: string)
    ensures Stripped(fold, front + "host=a" + ".exe") == Some(front + "host=a")
  {
    FileNames.LowerExe();
    NamedListOf(fold, front, "host=a", ".exe");
  }

  lemma NoExtension(s: string)
    requires s != "" && s[|s| - 1] == 'a'
    ensures !EndsWith(Lower(s), ".exe")
  {
    if EndsWith(Lower(s), ".exe") {
      FileNames.ExeEnd(Lower(s));
    }
  }

  lemma NamedListOf(fold: Folding, front: string, list: string, exe: string)
    requires list != "" && list[|list| - 1] == 'a' && Lower(exe) == ".exe"
    ensures Stripped(fold, front + list + exe) == Some(front + list)
  {
    var s := front + list;
    assert s[|s| - 1] == 'a';
    NoExtension(s);
    FileNames.StripsExe(s, exe);
    StrippedIs(fold, s + exe);
  }

  lemma OneCharOctets(c: char)
    ensures Octets([c]) == |Utf8.EncodeChar(c)|
  {
    assert [c][1..] == "" && Utf8.Encode("") == [];
  }

  /** The capital I with a dot takes two octets and its lower case three: the host is lost. */
  lemma DottedFrontLosesHost(verify: Verify, fold: Folding)
    ensures FromString(verify, fold, [DOTTED_I] + "host=a" + ".exe") == Returned(Some(NOTHING))
  {
    FoldOf(fold, DOTTED_I);
    LoweredOne(fold, DOTTED_I);
    OneCharOctets(DOTTED_I);
    OneCharOctets('i');
    OneCharOctets(DOT_ABOVE);
    Utf8.EncodeConcat(['i'], [DOT_ABOVE]);
    assert ['i'] + [DOT_ABOVE] == ['i', DOT_ABOVE];
    FileNames.NoEqualsNoTag([DOTTED_I]);
    LateSlice(verify, fold, [DOTTED_I], "host=a");
    NamedList(fold, [DOTTED_I]);
  }

  /** The ohm sign takes three octets and its lower case two: the slice starts inside it. */
  lemma OhmFrontPanics(verify: Verify, fold: Folding)
    requires fold('\U{2126}') == ['\U{03C9}']
    ensures FromString(verify, fold, ['\U{2126}'] + "host=a" + ".exe") == Panicked
  {
    var ohm: char := '\U{2126}';
    LoweredOne(fold, ohm);
    OneCharOctets(ohm);
    OneCharOctets('\U{03C9}');
    FileNames.NoEqualsNoTag([ohm]);
    InsideSlice(verify, fold, [ohm]);
    NamedList(fold, [ohm]);
  }

  // ---- the extension ----

  predicate EndsInExe(s: string) {
    EndsWith(Lower(s), ".exe")
  }

  /** The item without the last four characters. */
  function Shorter(item: Item): Item
    requires |ItemText(item)| >= 4
  {
    match item
    case Assign(f, spelling, value) => if |value| >= 4 then Assign(f, spelling, value[..|value| - 4]) else item
    case Noise(text) => Noise(text[..|text| - 4])
  }

  /** Where the last part of a joined text lies. */
  lemma {:induction false} JoinEnd(parts: seq<string>, last: string)
    requires parts != [] && parts[|parts| - 1] == last
    ensures var whole := Join(parts, ",");
            && |whole| >= |last|
            && whole[|whole| - |last|..] == last
            && (|parts| > 1 ==> |whole| > |last| && whole[|whole| - |last| - 1] == ',')
  {
    if |parts| > 1 {
      JoinEnd(parts[1..], last);
    }
  }

  lemma {:induction false} JoinShorter(parts: seq<string>, last: string, shorter: string)
    requires parts != [] && parts[|parts| - 1] == last && shorter <= last
    ensures |Join(parts, ",")| >= |last|
    ensures Join(parts[|parts| - 1 := shorter], ",") == Join(parts, ",")[..|Join(parts, ",")| - (|last| - |shorter|)]
  {
    JoinEnd(parts, last);
    var n := |parts| - 1;
    if n == 0 {
      assert Join(parts, ",") == last;
      assert shorter == last[..|shorter|];
    } else {
      var cut := parts[n := shorter];
      assert cut[1..] == parts[1..][n - 1 := shorter];
      JoinShorter(parts[1..], last, shorter);
      JoinEnd(parts[1..], last);
      var rest := Join(parts[1..], ",");
      assert (parts[0] + ("," + rest))[..|parts[0]| + 1 + |rest| - (|last| - |shorter|)]
          == parts[0] + ("," + rest[..|rest| - (|last| - |shorter|)]);
    }
  }

  lemma NotExeAt(s: string, k: nat)
    requires |s| >= 4 && k < 4 && s[|s| - 4 + k] in {',', '='}
    ensures !EndsWith(s, ".exe")
  {
    assert s[|s| - 4..|s|] == s[|s| - 4..];
    Mismatch(s, |s| - 4, ".exe", k);
  }

  lemma EndOfTail(s: string, t: string, p: string)
    requires |p| <= |t| <= |s| && s[|s| - |t|..] == t
    ensures EndsWith(s, p) <==> EndsWith(t, p)
  {
    assert s[|s| - |p|..] == t[|t| - |p|..];
  }

  lemma LowerTail(s: string, t: string)
    requires |t| <= |s| && s[|s| - |t|..] == t
    ensures Lower(s)[|s| - |t|..] == Lower(t)
  {
  }

  lemma LowerSeparator(s: string, i: nat)
    requires i < |s| && s[i] in {',', '='}
    ensures Lower(s)[i] == s[i]
  {
  }

  /** A separator inside the last four characters is not part of an extension. */
  lemma NoExeAcross(whole: string, last: string)
    requires |last| <= |whole| && whole[|whole| - |last|..] == last
    requires |last| < 4 ==> |last| < |whole| && whole[|whole| - |last| - 1] in {',', '='}
    ensures EndsInExe(whole) <==> |last| >= 4 && EndsInExe(last)
  {
    if |last| >= 4 {
      LowerTail(whole, last);
      EndOfTail(Lower(whole), Lower(last), ".exe");
    } else if |whole| >= 4 {
      LowerSeparator(whole, |whole| - |last| - 1);
      NotExeAt(Lower(whole), 3 - |last|);
    }
  }

  lemma ExtensionOfItem(item: Item)
    requires WellFormed(item)
    ensures item.Assign? ==>
              (EndsInExe(ItemText(item)) <==> |item.value| >= 4 && EndsInExe(item.value))
  {
    if item.Assign? {
      assert |item.spelling| == |Lower(item.spelling)| == |Tag(item.field)|;
      var n := |item.spelling| - 1;
      assert LowerChar(item.spelling[n]) == Lower(item.spelling)[n] == Tag(item.field)[n] == '=';
      NoExeAcross(ItemText(item), item.value);
    }
  }

  lemma ExtensionOfList(front: string, items: seq<Item>)
    requires IsList(items)
    ensures var last := ItemText(items[|items| - 1]);
            EndsInExe(front + ListText(items)) <==> |last| >= 4 && EndsInExe(last)
  {
    var last, list := ItemText(items[|items| - 1]), ListText(items);
    JoinEnd(Texts(items), last);
    ListStartsWithTag(items);
    ExtensionBehind(front, list, last);
  }

  lemma ExtensionBehind(front: string, list: string, last: string)
    requires |last| <= |list| && list[|list| - |last|..] == last
    requires |last| < 4 ==> |last| < |list| && list[|list| - |last| - 1] == ','
    ensures EndsInExe(front + list) <==> |last| >= 4 && EndsInExe(last)
  {
    var whole := front + list;
    assert whole[|whole| - |last|..] == list[|list| - |last|..];
    assert |last| < 4 ==> whole[|whole| - |last| - 1] == list[|list| - |last| - 1];
    NoExeAcross(whole, last);
  }

  lemma ShorterIsWellFormed(item: Item)
    requires WellFormed(item) && |ItemText(item)| >= 4
    requires item.Assign? ==> |item.value| >= 4
    ensures WellFormed(Shorter(item))
    ensures ItemText(Shorter(item)) == ItemText(item)[..|ItemText(item)| - 4]
  {
    if item.Noise? {
      var n := |item.text| - 4;
      forall f: Field
        ensures !(Tag(f) <= Lower(item.text[..n]))
      {
        assert Lower(item.text)[..n] == Lower(item.text[..n]);
      }
    }
  }

  lemma ShorterListText(items: seq<Item>, shorter: Item)
    requires items != []
    requires ItemText(shorter) <= ItemText(items[|items| - 1])
    requires |ItemText(shorter)| + 4 == |ItemText(items[|items| - 1])|
    ensures var n := |items| - 1;
            |ListText(items)| >= 4 && ListText(items[n := shorter]) == ListText(items)[..|ListText(items)| - 4]
  {
    var n := |items| - 1;
    var last := ItemText(items[n]);
    JoinEnd(Texts(items), last);
    JoinShorter(Texts(items), last, ItemText(shorter));
    assert Texts(items[n := shorter]) == Texts(items)[n := ItemText(shorter)];
  }

  /** Shortening the last item changes what is expected exactly when that item assigns a field. */
  lemma ShorterChanges(items: seq<Item>)
    requires items != []
    requires var last := items[|items| - 1];
             |ItemText(last)| >= 4 && (last.Assign? ==> |last.value| >= 4)
    ensures var n := |items| - 1;
            ExpectedServer(items[n := Shorter(items[n])]) == ExpectedServer(items) <==> items[n].Noise?
  {
    var n := |items| - 1;
    var cut := items[n := Shorter(items[n])];
    assert cut[..n] == items[..n];
    if items[n].Assign? {
      var f := items[n].field;
      assert |Expected(cut, f)| == |Expected(items, f)| - 4;
    }
  }

  /**
    * A list as a whole file name reads back exactly when its last item does not assign a value that itself
    * ends in the extension: such a value loses its own extension along with the file's.
    */
  lemma ListFileName(verify: Verify, fold: Folding, front: string, items: seq<Item>, exe: string)
    requires FileNames.Untagged(front) && KeepsLists(fold, front) && IsList(items) && Lower(exe) == ".exe"
    ensures var last := items[|items| - 1];
            (FromString(verify, fold, front + ListText(items) + exe) == Returned(Some(ExpectedServer(items))))
            <==> !(last.Assign? && EndsInExe(last.value))
  {
    var n := |items| - 1;
    var last := items[n];
    var t := front + ListText(items);
    FileNames.StripsExe(t, exe);
    StrippedIs(fold, t + exe);
    assert last in items;
    ExtensionOfItem(last);
    ExtensionOfList(front, items);
    if EndsInExe(t) {
      ShorterIsWellFormed(last);
      var cut := items[n := Shorter(last)];
      forall item | item in cut
        ensures WellFormed(item)
      {
        if item != Shorter(last) {
          assert item in items;
        }
      }
      ShorterListText(items, Shorter(last));
      assert t[..|t| - 4] == front + ListText(cut);
      ListRoundTrip(verify, fold, front, cut);
      ShorterChanges(items);
    } else {
      ListRoundTrip(verify, fold, front, items);
    }
  }
}
